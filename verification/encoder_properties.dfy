/** What the encoder's output says about its input, kind by kind, and how
    failures of referenced definitions reach the whole result. */
module EncoderProperties {
  import opened Results
  import opened Pool
  import opened Json
  import opened Bases
  import opened Encoder

  /** Every index in the list encodes successfully. */
  predicate AllEncode(pool: Pool, indices: seq<nat>, fuel: nat)
  {
    forall k :: 0 <= k < |indices| ==> EncodeAt(pool, indices[k], fuel).Success?
  }

  /** `member` is an array holding, position by position, the encodings of
      `indices`. */
  predicate ListedAs(member: Option<Json>, pool: Pool, indices: seq<nat>, fuel: nat)
  {
    && member.Some? && member.value.JArray?
    && |member.value.items| == |indices|
    && forall k :: 0 <= k < |indices| ==> EncodeAt(pool, indices[k], fuel) == Success(member.value.items[k])
  }

  /** `k` is the first index of the list whose encoding fails. */
  predicate FirstFailure(pool: Pool, indices: seq<nat>, fuel: nat, k: nat)
  {
    && k < |indices|
    && EncodeAt(pool, indices[k], fuel).Failure?
    && forall j :: 0 <= j < k ==> EncodeAt(pool, indices[j], fuel).Success?
  }

  /** A list encodes exactly when every element does, keeps length and
      order, and otherwise fails with the first failing element's fault. */
  lemma {:induction false} EncodeListCollects(pool: Pool, indices: seq<nat>, fuel: nat)
    ensures EncodeList(pool, indices, fuel).Success? <==> AllEncode(pool, indices, fuel)
    ensures EncodeList(pool, indices, fuel).Success? ==>
      ListedAs(Some(JArray(EncodeList(pool, indices, fuel).value)), pool, indices, fuel)
    ensures EncodeList(pool, indices, fuel).Failure? ==>
      exists k: nat :: FirstFailure(pool, indices, fuel, k) &&
        EncodeList(pool, indices, fuel).error == EncodeAt(pool, indices[k], fuel).error
    decreases |indices|
  {
    if |indices| > 0 {
      var rest := indices[1..];
      EncodeListCollects(pool, rest, fuel);
      assert forall k :: 0 < k < |indices| ==> indices[k] == rest[k - 1];
      if EncodeAt(pool, indices[0], fuel).Failure? {
        assert FirstFailure(pool, indices, fuel, 0);
      } else if EncodeList(pool, rest, fuel).Failure? {
        var k: nat :| FirstFailure(pool, rest, fuel, k) &&
          EncodeList(pool, rest, fuel).error == EncodeAt(pool, rest[k], fuel).error;
        assert FirstFailure(pool, indices, fuel, k + 1);
      }
    }
  }

  /** The fault of the first failing element decides whether a list aborts. */
  lemma ListFailsAsFirstFailure(pool: Pool, indices: seq<nat>, fuel: nat, k: nat)
    requires FirstFailure(pool, indices, fuel, k)
    ensures EncodeList(pool, indices, fuel) == Failure(EncodeAt(pool, indices[k], fuel).error)
  {
    EncodeListCollects(pool, indices, fuel);
    var r := EncodeList(pool, indices, fuel);
    if r.Failure? {
      var k': nat :| FirstFailure(pool, indices, fuel, k') && r.error == EncodeAt(pool, indices[k'], fuel).error;
      assert k' == k;
    }
  }

  /** The fault of the first element of the list that fails to encode,
      scanning element by element; `None` when every element encodes. */
  function FirstFault(pool: Pool, indices: seq<nat>, fuel: nat): Option<Fault>
    decreases |indices|
  {
    if |indices| == 0 then None
    else if EncodeAt(pool, indices[0], fuel).Failure? then Some(EncodeAt(pool, indices[0], fuel).error)
    else FirstFault(pool, indices[1..], fuel)
  }

  /** `Some(f)` when the first element to fail has fault `f` and is an abort. */
  predicate AbortsWith(first: Option<Fault>)
  {
    first.Some? && first.value.Abort?
  }

  /** The element-by-element scan agrees with the collected list: the list
      fails exactly when some element does, with that first fault, and the
      scan finds the element `FirstFailure` names. */
  lemma {:induction false} FirstFaultOfList(pool: Pool, indices: seq<nat>, fuel: nat)
    ensures EncodeList(pool, indices, fuel).Success? <==> FirstFault(pool, indices, fuel).None?
    ensures EncodeList(pool, indices, fuel).Failure? ==>
      FirstFault(pool, indices, fuel) == Some(EncodeList(pool, indices, fuel).error)
    ensures forall k: nat :: FirstFailure(pool, indices, fuel, k) ==>
      FirstFault(pool, indices, fuel) == Some(EncodeAt(pool, indices[k], fuel).error)
    decreases |indices|
  {
    if |indices| > 0 {
      FirstFaultOfList(pool, indices[1..], fuel);
      forall k: nat | FirstFailure(pool, indices, fuel, k)
        ensures FirstFault(pool, indices, fuel) == Some(EncodeAt(pool, indices[k], fuel).error)
      {
        if k > 0 {
          assert FirstFailure(pool, indices[1..], fuel, k - 1);
        }
      }
    }
  }

  /** Ref, WeakRef, ScriptRef, Array and StaticArray types: a `Type` node of
      the matching kind whose `inner` is the encoding of the wrapped type;
      the wrapper fails exactly when the wrapped type does, with its fault.
      The wrapper's own name is never looked up. */
  lemma WrapperEncoding(pool: Pool, name: nat, ty: TypeKind, fuel: nat)
    requires IsWrapper(ty)
    ensures EncodeType(pool, name, ty, fuel).Success? <==> EncodeAt(pool, ty.inner, fuel).Success?
    ensures EncodeType(pool, name, ty, fuel).Failure? ==>
      EncodeType(pool, name, ty, fuel).error == EncodeAt(pool, ty.inner, fuel).error
    ensures EncodeType(pool, name, ty, fuel).Success? ==>
      var v := EncodeType(pool, name, ty, fuel).value;
      && Tag(v) == Some(JString("Type"))
      && Keys(v) == SchemaKeys(TypeDef(ty))
      && Member(v, "kind") == Some(JString(KindName(ty)))
      && Member(v, "inner") == Some(EncodeAt(pool, ty.inner, fuel).value)
      && (Member(v, "size").Some? <==> ty.StaticArray?)
      && (ty.StaticArray? ==> Member(v, "size") == Some(JNumber(ty.size)))
  {
  }

  /** A class-typed Type node: its own name, and the index of the first class
      or enum declared under that name; no such declaration is a panic. */
  lemma ClassTypeEncoding(pool: Pool, name: nat, fuel: nat)
    ensures TypeLookup.FindType(pool, name).None? ==>
      EncodeType(pool, name, ClassType, fuel) == Failure(Abort(TypeNotFound(name)))
    ensures TypeLookup.FindType(pool, name).Some? && name >= |pool.names| ==>
      EncodeType(pool, name, ClassType, fuel) == Failure(Error(UnresolvedName(name)))
    ensures EncodeType(pool, name, ClassType, fuel).Success? <==>
      TypeLookup.FindType(pool, name).Some? && name < |pool.names|
    ensures EncodeType(pool, name, ClassType, fuel).Success? ==>
      var v := EncodeType(pool, name, ClassType, fuel).value;
      && Tag(v) == Some(JString("Type"))
      && Keys(v) == SchemaKeys(TypeDef(ClassType))
      && Member(v, "kind") == Some(JString("Class"))
      && Member(v, "name") == Some(JString(pool.names[name]))
      && exists index: nat ::
           Member(v, "index") == Some(JNumber(index)) && Undefined < index < |pool.definitions|
           && TypeLookup.DeclaresType(pool.definitions[index], name)
           && forall j :: Undefined < j < index ==> !TypeLookup.DeclaresType(pool.definitions[j], name)
  {
    var found := TypeLookup.FindType(pool, name);
    if found.Some? && name < |pool.names| {
      var v := EncodeType(pool, name, ClassType, fuel).value;
      assert Member(v, "index") == Some(JNumber(found.value));
    }
  }

  /** A primitive type: a `Type` node of kind `Prim` carrying the type
      definition's own name; it fails exactly when that name does not
      resolve, and nothing else is looked up. */
  lemma PrimEncoding(pool: Pool, name: nat, fuel: nat)
    ensures EncodeType(pool, name, Prim, fuel).Success? <==> name < |pool.names|
    ensures !(name < |pool.names|) ==> EncodeType(pool, name, Prim, fuel) == Failure(Error(UnresolvedName(name)))
    ensures EncodeType(pool, name, Prim, fuel).Success? ==>
      var v := EncodeType(pool, name, Prim, fuel).value;
      && Tag(v) == Some(JString("Type"))
      && Keys(v) == SchemaKeys(TypeDef(Prim))
      && Member(v, "kind") == Some(JString("Prim"))
      && Member(v, "name") == Some(JString(pool.names[name]))
  {
  }

  /** An enum value: its own name and its value; it fails exactly when the
      name does not resolve. */
  lemma EnumValueEncoding(pool: Pool, def: Definition, fuel: nat)
    requires def.value.EnumValueDef?
    ensures Encode(pool, def, fuel).Success? <==> def.name < |pool.names|
    ensures !(def.name < |pool.names|) ==> Encode(pool, def, fuel) == Failure(Error(UnresolvedName(def.name)))
    ensures Encode(pool, def, fuel).Success? ==>
      var v := Encode(pool, def, fuel).value;
      && Tag(v) == Some(JString("EnumValue"))
      && Keys(v) == SchemaKeys(def.value)
      && Member(v, "name") == Some(JString(pool.names[def.name]))
      && Member(v, "value") == Some(JNumber(def.value.value))
  {
  }

  /** A class encodes exactly when its name, its base chain and every field
      and method resolve. */
  lemma ClassEncodes(pool: Pool, name: nat, c: Class, fuel: nat)
    ensures EncodeClass(pool, name, c, fuel).Success? <==>
      && name < |pool.names|
      && CollectBases(pool, c.base).Success?
      && AllEncode(pool, c.fields, fuel)
      && AllEncode(pool, c.functions, fuel)
  {
    EncodeListCollects(pool, c.fields, fuel);
    EncodeListCollects(pool, c.functions, fuel);
  }

  /** A class node: the transitive base chain, and the fields and methods in
      declaration order. */
  lemma ClassEncoding(pool: Pool, name: nat, c: Class, fuel: nat)
    requires EncodeClass(pool, name, c, fuel).Success?
    ensures var v := EncodeClass(pool, name, c, fuel).value;
      && Tag(v) == Some(JString("Class"))
      && Keys(v) == SchemaKeys(ClassDef(c))
      && Member(v, "name") == Some(JString(pool.names[name]))
      && Member(v, "visibility") == Some(JString(VisibilityName(c.visibility)))
      && Member(v, "bases") == Some(ReferencesJson(CollectBases(pool, c.base).value))
      && ListedAs(Member(v, "fields"), pool, c.fields, fuel)
      && ListedAs(Member(v, "methods"), pool, c.functions, fuel)
      && Member(v, "isNative") == Some(JBool(c.flags.isNative))
      && Member(v, "isAbstract") == Some(JBool(c.flags.isAbstract))
      && Member(v, "isFinal") == Some(JBool(c.flags.isFinal))
      && Member(v, "isStruct") == Some(JBool(c.flags.isStruct))
  {
    var fieldsR := EncodeList(pool, c.fields, fuel);
    var methodsR := EncodeList(pool, c.functions, fuel);
    assert fieldsR.Success? && methodsR.Success?;
    var n := pool.names[name];
    var bases := CollectBases(pool, c.base).value;
    var v := ClassNode(n, c, bases, fieldsR.value, methodsR.value);
    assert EncodeClass(pool, name, c, fuel) == Success(v);
    ClassNodeMembers(n, c, bases, fieldsR.value, methodsR.value);
    ClassNodeKeys(n, c, bases, fieldsR.value, methodsR.value);
    EncodeListCollects(pool, c.fields, fuel);
    EncodeListCollects(pool, c.functions, fuel);
  }

  /** An abort while encoding a field or method stops the class at once,
      before its name or base chain is looked at. */
  lemma ClassAbortsFirst(pool: Pool, name: nat, c: Class, fuel: nat, k: nat)
    requires FirstFailure(pool, c.fields, fuel, k)
    requires EncodeAt(pool, c.fields[k], fuel).error.Abort?
    ensures EncodeClass(pool, name, c, fuel) == Failure(EncodeAt(pool, c.fields[k], fuel).error)
  {
    ListFailsAsFirstFailure(pool, c.fields, fuel, k);
  }

  /** An enum: its members in order; success exactly when the name and every
      member resolve. */
  lemma EnumEncoding(pool: Pool, name: nat, e: Enum, fuel: nat)
    ensures EncodeEnum(pool, name, e, fuel).Success? <==>
      name < |pool.names| && AllEncode(pool, e.members, fuel)
    ensures EncodeEnum(pool, name, e, fuel).Success? ==>
      var v := EncodeEnum(pool, name, e, fuel).value;
      && Tag(v) == Some(JString("Enum"))
      && Keys(v) == SchemaKeys(EnumDef(e))
      && Member(v, "name") == Some(JString(pool.names[name]))
      && ListedAs(Member(v, "members"), pool, e.members, fuel)
  {
    EncodeListCollects(pool, e.members, fuel);
  }

  /** Which fault a failing class reports, in evaluation order: an abort
      among the fields, then among the methods; then an unresolved name;
      then a failing base chain; then the first failing field, then the
      first failing method. */
  lemma ClassFailure(pool: Pool, name: nat, c: Class, fuel: nat)
    ensures var ff := FirstFault(pool, c.fields, fuel);
      AbortsWith(ff) ==> EncodeClass(pool, name, c, fuel) == Failure(ff.value)
    ensures var ff := FirstFault(pool, c.fields, fuel); var mf := FirstFault(pool, c.functions, fuel);
      !AbortsWith(ff) && AbortsWith(mf) ==> EncodeClass(pool, name, c, fuel) == Failure(mf.value)
    ensures var ff := FirstFault(pool, c.fields, fuel); var mf := FirstFault(pool, c.functions, fuel);
      !AbortsWith(ff) && !AbortsWith(mf) && name >= |pool.names| ==>
        EncodeClass(pool, name, c, fuel) == Failure(Error(UnresolvedName(name)))
    ensures var ff := FirstFault(pool, c.fields, fuel); var mf := FirstFault(pool, c.functions, fuel);
      !AbortsWith(ff) && !AbortsWith(mf) && name < |pool.names| && CollectBases(pool, c.base).Failure? ==>
        EncodeClass(pool, name, c, fuel) == Failure(CollectBases(pool, c.base).error)
    ensures var ff := FirstFault(pool, c.fields, fuel); var mf := FirstFault(pool, c.functions, fuel);
      !AbortsWith(mf) && name < |pool.names| && CollectBases(pool, c.base).Success? && ff.Some? ==>
        EncodeClass(pool, name, c, fuel) == Failure(ff.value)
    ensures var ff := FirstFault(pool, c.fields, fuel); var mf := FirstFault(pool, c.functions, fuel);
      name < |pool.names| && CollectBases(pool, c.base).Success? && ff.None? && mf.Some? ==>
        EncodeClass(pool, name, c, fuel) == Failure(mf.value)
  {
    FirstFaultOfList(pool, c.fields, fuel);
    FirstFaultOfList(pool, c.functions, fuel);
  }

  /** Which fault a failing enum reports: an abort among the members, then
      an unresolved name, then the first failing member. */
  lemma EnumFailure(pool: Pool, name: nat, e: Enum, fuel: nat)
    ensures var mf := FirstFault(pool, e.members, fuel);
      AbortsWith(mf) ==> EncodeEnum(pool, name, e, fuel) == Failure(mf.value)
    ensures var mf := FirstFault(pool, e.members, fuel);
      !AbortsWith(mf) && name >= |pool.names| ==> EncodeEnum(pool, name, e, fuel) == Failure(Error(UnresolvedName(name)))
    ensures var mf := FirstFault(pool, e.members, fuel);
      name < |pool.names| && mf.Some? ==> EncodeEnum(pool, name, e, fuel) == Failure(mf.value)
  {
    FirstFaultOfList(pool, e.members, fuel);
  }

  /** Which fault a failing function reports: an abort among the
      parameters, then an unresolved name, then the first failing
      parameter, then the return type's and then the source file's failed
      unwrap. */
  lemma FunctionFailure(pool: Pool, name: nat, f: Function, fuel: nat)
    ensures var pf := FirstFault(pool, f.parameters, fuel);
      AbortsWith(pf) ==> EncodeFunction(pool, name, f, fuel) == Failure(pf.value)
    ensures var pf := FirstFault(pool, f.parameters, fuel);
      !AbortsWith(pf) && name >= |pool.names| ==>
        EncodeFunction(pool, name, f, fuel) == Failure(Error(UnresolvedName(name)))
    ensures var pf := FirstFault(pool, f.parameters, fuel);
      name < |pool.names| && pf.Some? ==> EncodeFunction(pool, name, f, fuel) == Failure(pf.value)
    ensures var pf := FirstFault(pool, f.parameters, fuel);
      name < |pool.names| && pf.None? && EncodeUnwrapped(pool, f.returnType, fuel).Failure? ==>
        EncodeFunction(pool, name, f, fuel) == Failure(EncodeUnwrapped(pool, f.returnType, fuel).error)
    ensures var pf := FirstFault(pool, f.parameters, fuel);
      name < |pool.names| && pf.None? && EncodeUnwrapped(pool, f.returnType, fuel).Success?
      && EncodeUnwrapped(pool, f.source, fuel).Failure? ==>
        EncodeFunction(pool, name, f, fuel) == Failure(EncodeUnwrapped(pool, f.source, fuel).error)
  {
    FirstFaultOfList(pool, f.parameters, fuel);
  }

  /** An optional reference is absent or encodes successfully. */
  predicate OptionalEncodes(pool: Pool, index: Option<nat>, fuel: nat)
  {
    index.None? || EncodeAt(pool, index.value, fuel).Success?
  }

  /** The output of an optional reference: null when absent, else the
      encoding of the referenced definition. */
  predicate OptionalAs(member: Option<Json>, pool: Pool, index: Option<nat>, fuel: nat)
  {
    && (index.None? ==> member == Some(JNull))
    && (index.Some? ==> EncodeAt(pool, index.value, fuel).Success? &&
                        member == Some(EncodeAt(pool, index.value, fuel).value))
  }

  /** A function: its parameters in order, its return type and source file
      or null; success exactly when all of them resolve. A return type or
      source file that fails to encode is a panic, never an error. */
  lemma FunctionEncoding(pool: Pool, name: nat, f: Function, fuel: nat)
    ensures EncodeFunction(pool, name, f, fuel).Success? <==>
      && name < |pool.names|
      && AllEncode(pool, f.parameters, fuel)
      && OptionalEncodes(pool, f.returnType, fuel)
      && OptionalEncodes(pool, f.source, fuel)
    ensures EncodeFunction(pool, name, f, fuel).Success? ==>
      var v := EncodeFunction(pool, name, f, fuel).value;
      && Tag(v) == Some(JString("Function"))
      && Keys(v) == SchemaKeys(FunctionDef(f))
      && Member(v, "name") == Some(JString(pool.names[name]))
      && Member(v, "visibility") == Some(JString(VisibilityName(f.visibility)))
      && ListedAs(Member(v, "parameters"), pool, f.parameters, fuel)
      && OptionalAs(Member(v, "returnType"), pool, f.returnType, fuel)
      && OptionalAs(Member(v, "source"), pool, f.source, fuel)
      && Member(v, "isStatic") == Some(JBool(f.flags.isStatic))
      && Member(v, "isFinal") == Some(JBool(f.flags.isFinal))
      && Member(v, "isExec") == Some(JBool(f.flags.isExec))
      && Member(v, "isCallback") == Some(JBool(f.flags.isCallback))
      && Member(v, "isNative") == Some(JBool(f.flags.isNative))
    ensures name < |pool.names| && AllEncode(pool, f.parameters, fuel) && !OptionalEncodes(pool, f.returnType, fuel) ==>
      Aborted(EncodeFunction(pool, name, f, fuel))
  {
    EncodeListCollects(pool, f.parameters, fuel);
    if EncodeFunction(pool, name, f, fuel).Success? {
      var ps := EncodeList(pool, f.parameters, fuel).value;
      var ret := EncodeUnwrapped(pool, f.returnType, fuel).value;
      var src := EncodeUnwrapped(pool, f.source, fuel).value;
      assert EncodeFunction(pool, name, f, fuel) == Success(FunctionNode(pool.names[name], f, ps, ret, src));
      FunctionNodeMembers(pool.names[name], f, ps, ret, src);
      FunctionNodeKeys(pool.names[name], f, ps, ret, src);
      FunctionNodeFlags(pool.names[name], f, ps, ret, src);
    }
  }

  /** A parameter: its type's encoding under `type`; success exactly when the
      name and the type resolve. */
  lemma ParameterEncoding(pool: Pool, name: nat, p: Parameter, fuel: nat)
    ensures EncodeParameter(pool, name, p, fuel).Success? <==>
      name < |pool.names| && EncodeAt(pool, p.typeIndex, fuel).Success?
    ensures EncodeParameter(pool, name, p, fuel).Success? ==>
      var v := EncodeParameter(pool, name, p, fuel).value;
      && Tag(v) == Some(JString("Parameter"))
      && Keys(v) == SchemaKeys(ParameterDef(p))
      && Member(v, "name") == Some(JString(pool.names[name]))
      && Member(v, "type") == Some(EncodeAt(pool, p.typeIndex, fuel).value)
      && Member(v, "isOut") == Some(JBool(p.flags.isOut))
      && Member(v, "isOptional") == Some(JBool(p.flags.isOptional))
    ensures name >= |pool.names| ==> EncodeParameter(pool, name, p, fuel) == Failure(Error(UnresolvedName(name)))
    ensures name < |pool.names| && EncodeAt(pool, p.typeIndex, fuel).Failure? ==>
      EncodeParameter(pool, name, p, fuel) == Failure(EncodeAt(pool, p.typeIndex, fuel).error)
  {
  }

  /** A field: its type's encoding under `type`; success exactly when the
      name and the type resolve. */
  lemma FieldEncoding(pool: Pool, name: nat, f: Field, fuel: nat)
    ensures EncodeField(pool, name, f, fuel).Success? <==>
      name < |pool.names| && EncodeAt(pool, f.typeIndex, fuel).Success?
    ensures EncodeField(pool, name, f, fuel).Success? ==>
      var v := EncodeField(pool, name, f, fuel).value;
      && Tag(v) == Some(JString("Field"))
      && Keys(v) == SchemaKeys(FieldDef(f))
      && Member(v, "name") == Some(JString(pool.names[name]))
      && Member(v, "type") == Some(EncodeAt(pool, f.typeIndex, fuel).value)
      && Member(v, "isNative") == Some(JBool(f.flags.isNative))
      && Member(v, "isEdit") == Some(JBool(f.flags.isEditable))
      && Member(v, "isInline") == Some(JBool(f.flags.isInline))
      && Member(v, "isConst") == Some(JBool(f.flags.isConst))
      && Member(v, "isRep") == Some(JBool(f.flags.isReplicated))
      && Member(v, "isPersistent") == Some(JBool(f.flags.isPersistent))
    ensures name >= |pool.names| ==> EncodeField(pool, name, f, fuel) == Failure(Error(UnresolvedName(name)))
    ensures name < |pool.names| && EncodeAt(pool, f.typeIndex, fuel).Failure? ==>
      EncodeField(pool, name, f, fuel) == Failure(EncodeAt(pool, f.typeIndex, fuel).error)
  {
    if EncodeField(pool, name, f, fuel).Success? {
      FieldNodeMembers(pool.names[name], f, EncodeAt(pool, f.typeIndex, fuel).value);
      FieldNodeKeys(pool.names[name], f, EncodeAt(pool, f.typeIndex, fuel).value);
    }
  }

  /** The member names the output schema fixes for each definition kind. */
  function SchemaKeys(value: AnyDefinition): set<string>
  {
    match value
    case TypeDef(ty) =>
      (match ty
       case Prim => {"tag", "kind", "name"}
       case ClassType => {"tag", "kind", "name", "index"}
       case StaticArray(_, _) => {"tag", "kind", "size", "inner"}
       case _ => {"tag", "kind", "inner"})
    case ClassDef(_) =>
      {"tag", "name", "visibility", "bases", "fields", "methods", "isNative", "isAbstract", "isFinal", "isStruct"}
    case FunctionDef(_) =>
      {"tag", "name", "parameters", "returnType", "visibility", "isStatic", "isFinal", "isExec", "isCallback",
       "isNative", "source"}
    case FieldDef(_) =>
      {"tag", "name", "type", "isNative", "isEdit", "isInline", "isConst", "isRep", "isPersistent"}
    case ParameterDef(_) => {"tag", "name", "type", "isOut", "isOptional"}
    case EnumDef(_) => {"tag", "name", "members"}
    case EnumValueDef(_) => {"tag", "name", "value"}
    case SourceFileDef(_) => {}
    case LocalDef => {}
  }

  /** A class object has exactly the schema's member names. */
  lemma ClassNodeKeys(name: string, c: Class, bases: seq<Reference>, fields: seq<Json>, methods: seq<Json>)
    ensures Keys(ClassNode(name, c, bases, fields, methods)) == SchemaKeys(ClassDef(c))
  {
  }

  /** Where each part of a class lands in its output object. */
  lemma ClassNodeMembers(name: string, c: Class, bases: seq<Reference>, fields: seq<Json>, methods: seq<Json>)
    ensures var v := ClassNode(name, c, bases, fields, methods);
      && Tag(v) == Some(JString("Class"))
      && Member(v, "name") == Some(JString(name))
      && Member(v, "visibility") == Some(JString(VisibilityName(c.visibility)))
      && Member(v, "bases") == Some(ReferencesJson(bases))
      && Member(v, "fields") == Some(JArray(fields))
      && Member(v, "methods") == Some(JArray(methods))
      && Member(v, "isNative") == Some(JBool(c.flags.isNative))
      && Member(v, "isAbstract") == Some(JBool(c.flags.isAbstract))
      && Member(v, "isFinal") == Some(JBool(c.flags.isFinal))
      && Member(v, "isStruct") == Some(JBool(c.flags.isStruct))
  {
  }

  /** A function object has exactly the schema's member names. */
  lemma FunctionNodeKeys(name: string, f: Function, parameters: seq<Json>, returnType: Json, source: Json)
    ensures Keys(FunctionNode(name, f, parameters, returnType, source)) == SchemaKeys(FunctionDef(f))
  {
  }

  /** Where each part of a function lands in its output object. */
  lemma FunctionNodeMembers(name: string, f: Function, parameters: seq<Json>, returnType: Json, source: Json)
    ensures var v := FunctionNode(name, f, parameters, returnType, source);
      && Tag(v) == Some(JString("Function"))
      && Member(v, "name") == Some(JString(name))
      && Member(v, "visibility") == Some(JString(VisibilityName(f.visibility)))
      && Member(v, "parameters") == Some(JArray(parameters))
      && Member(v, "returnType") == Some(returnType)
      && Member(v, "source") == Some(source)
  {
  }

  /** Each flag of a function lands in its own boolean member. */
  lemma FunctionNodeFlags(name: string, f: Function, parameters: seq<Json>, returnType: Json, source: Json)
    ensures var v := FunctionNode(name, f, parameters, returnType, source);
      && Member(v, "isStatic") == Some(JBool(f.flags.isStatic))
      && Member(v, "isFinal") == Some(JBool(f.flags.isFinal))
      && Member(v, "isExec") == Some(JBool(f.flags.isExec))
      && Member(v, "isCallback") == Some(JBool(f.flags.isCallback))
      && Member(v, "isNative") == Some(JBool(f.flags.isNative))
  {
  }

  /** A field object has exactly the schema's member names. */
  lemma FieldNodeKeys(name: string, f: Field, ty: Json)
    ensures Keys(FieldNode(name, f, ty)) == SchemaKeys(FieldDef(f))
  {
  }

  /** Where each part of a field lands in its output object. */
  lemma FieldNodeMembers(name: string, f: Field, ty: Json)
    ensures var v := FieldNode(name, f, ty);
      && Tag(v) == Some(JString("Field"))
      && Member(v, "name") == Some(JString(name))
      && Member(v, "type") == Some(ty)
      && Member(v, "isNative") == Some(JBool(f.flags.isNative))
      && Member(v, "isEdit") == Some(JBool(f.flags.isEditable))
      && Member(v, "isInline") == Some(JBool(f.flags.isInline))
      && Member(v, "isConst") == Some(JBool(f.flags.isConst))
      && Member(v, "isRep") == Some(JBool(f.flags.isReplicated))
      && Member(v, "isPersistent") == Some(JBool(f.flags.isPersistent))
  {
  }

  /** The schema tag of each definition kind that encodes to a tagged node. */
  function TagOf(value: AnyDefinition): Option<string>
  {
    match value
    case TypeDef(_) => Some("Type")
    case ClassDef(_) => Some("Class")
    case FunctionDef(_) => Some("Function")
    case FieldDef(_) => Some("Field")
    case ParameterDef(_) => Some("Parameter")
    case EnumDef(_) => Some("Enum")
    case EnumValueDef(_) => Some("EnumValue")
    case SourceFileDef(_) => None
    case LocalDef => None
  }

  /** Every successful encoding is tagged with its definition's kind, except
      a source file, which is the bare path string; a local never encodes. */
  lemma EncodeShape(pool: Pool, def: Definition, fuel: nat)
    ensures def.value.SourceFileDef? ==> Encode(pool, def, fuel) == Success(JString(def.value.path))
    ensures def.value.LocalDef? ==> Encode(pool, def, fuel) == Failure(Abort(LocalDefinition))
    ensures Encode(pool, def, fuel).Success? ==> Keys(Encode(pool, def, fuel).value) == SchemaKeys(def.value)
    ensures Encode(pool, def, fuel).Success? && TagOf(def.value).Some? ==>
      Tag(Encode(pool, def, fuel).value) == Some(JString(TagOf(def.value).value))
    ensures def.value.EnumValueDef? ==>
      (Encode(pool, def, fuel).Success? <==> def.name < |pool.names|)
    ensures def.value.EnumValueDef? && Encode(pool, def, fuel).Success? ==>
      Member(Encode(pool, def, fuel).value, "value") == Some(JNumber(def.value.value))
  {
    match def.value
    case TypeDef(ty) =>
      if IsWrapper(ty) { WrapperEncoding(pool, def.name, ty, fuel); }
    case ClassDef(c) =>
      if Encode(pool, def, fuel).Success? { ClassEncoding(pool, def.name, c, fuel); }
    case EnumDef(e) => EnumEncoding(pool, def.name, e, fuel);
    case FunctionDef(f) => FunctionEncoding(pool, def.name, f, fuel);
    case ParameterDef(p) => ParameterEncoding(pool, def.name, p, fuel);
    case FieldDef(f) => FieldEncoding(pool, def.name, f, fuel);
    case _ =>
  }

  /** How many wrapper layers a type at `index` has, looking at most `fuel`
      layers deep. */
  function WrapperDepth(pool: Pool, index: nat, fuel: nat): nat
    decreases fuel
  {
    if index < |pool.definitions| && fuel > 0
       && pool.definitions[index].value.TypeDef? && IsWrapper(pool.definitions[index].value.ty)
    then 1 + WrapperDepth(pool, pool.definitions[index].value.ty.inner, fuel - 1)
    else 0
  }

  /** Only a wrapper type's node has an `inner` member. */
  lemma NoInnerUnlessWrapper(pool: Pool, def: Definition, fuel: nat)
    requires Encode(pool, def, fuel).Success?
    requires !(def.value.TypeDef? && IsWrapper(def.value.ty))
    ensures InnerDepth(Encode(pool, def, fuel).value) == 0
  {
    EncodeShape(pool, def, fuel);
    InnerOnlyInWrappers(def.value);
  }

  /** Among the schema's member names, `inner` belongs to wrapper types only. */
  lemma InnerOnlyInWrappers(value: AnyDefinition)
    ensures "inner" in SchemaKeys(value) <==> value.TypeDef? && IsWrapper(value.ty)
  {
  }

  /** The `inner` nesting of an encoded node equals the wrapper nesting of
      the type it encodes. */
  lemma {:induction false} EncodedDepthIsNesting(pool: Pool, index: nat, fuel: nat)
    requires EncodeAt(pool, index, fuel).Success?
    ensures InnerDepth(EncodeAt(pool, index, fuel).value) == WrapperDepth(pool, index, fuel)
    decreases fuel
  {
    var def := pool.definitions[index];
    var v := EncodeAt(pool, index, fuel).value;
    assert Encode(pool, def, fuel - 1) == Success(v);
    if def.value.TypeDef? && IsWrapper(def.value.ty) {
      var inner := def.value.ty.inner;
      WrapperEncoding(pool, def.name, def.value.ty, fuel - 1);
      EncodedDepthIsNesting(pool, inner, fuel - 1);
      assert InnerDepth(v) == 1 + InnerDepth(EncodeAt(pool, inner, fuel - 1).value);
    } else {
      NoInnerUnlessWrapper(pool, def, fuel - 1);
    }
  }
}
