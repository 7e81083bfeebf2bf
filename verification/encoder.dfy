/** `encode_definition`: the recursive dispatch that turns a definition and
    everything it references into a tagged output tree.

    `encode_definition` recurses through pool indices without a bound, so
    a cyclic reference graph makes it overflow the stack. The model threads `fuel`
    through every step into a referenced definition and reports
    `DepthExceeded` when it runs out; `EncodeDefinition` starts with one
    unit per pool entry, which is never exhausted when no cycle is
    reachable from the definition (module `EncoderDepth`).

    Evaluation order follows `encode_definition`: child lists (fields,
    methods, parameters, members) are encoded before the output object is built, so
    an abort inside them stops everything at once, while an ordinary error
    inside them is only reported after the definition's own name (and, for
    a class, its base chain) has been resolved. */
module Encoder {
  import opened Results
  import opened Pool
  import opened Json
  import opened Bases
  import opened TypeLookup

  /** Encodes the definition at `index`. */
  function EncodeAt(pool: Pool, index: nat, fuel: nat): Result<Json, Fault>
    decreases fuel, 0, 0
  {
    var def :- DefinitionAt(pool, index);
    if fuel == 0 then Failure(Abort(DepthExceeded)) else Encode(pool, def, fuel - 1)
  }

  /** Encodes a list of definition indices in order, stopping at the first failure. */
  function EncodeList(pool: Pool, indices: seq<nat>, fuel: nat): Result<seq<Json>, Fault>
    decreases fuel, 1, |indices|
  {
    if |indices| == 0 then Success([])
    else
      var head :- EncodeAt(pool, indices[0], fuel);
      var tail :- EncodeList(pool, indices[1..], fuel);
      Success([head] + tail)
  }

  /** An optional reference `encode_definition` encodes with `unwrap`: any error on
      the way becomes a panic. */
  function EncodeUnwrapped(pool: Pool, index: Option<nat>, fuel: nat): (r: Result<Json, Fault>)
    ensures r.Failure? ==> r.error.Abort?
    ensures index.None? ==> r == Success(JNull)
    ensures index.Some? && EncodeAt(pool, index.value, fuel).Success? ==> r == EncodeAt(pool, index.value, fuel)
    ensures index.Some? && Aborted(EncodeAt(pool, index.value, fuel)) ==> r == EncodeAt(pool, index.value, fuel)
    ensures index.Some? && EncodeAt(pool, index.value, fuel).Failure? && EncodeAt(pool, index.value, fuel).error.Error? ==>
      r == Failure(Abort(FailedUnwrap(EncodeAt(pool, index.value, fuel).error.error)))
    decreases fuel, 1, 0
  {
    match index
    case None => Success(JNull)
    case Some(i) =>
      match EncodeAt(pool, i, fuel)
      case Success(v) => Success(v)
      case Failure(Error(e)) => Failure(Abort(FailedUnwrap(e)))
      case Failure(Abort(cause)) => Failure(Abort(cause))
  }

  /** The schema name of a type variant. */
  function KindName(ty: TypeKind): string
  {
    match ty
    case Prim => "Prim"
    case ClassType => "Class"
    case Ref(_) => "Ref"
    case WeakRef(_) => "WeakRef"
    case ScriptRef(_) => "ScriptRef"
    case Array(_) => "Array"
    case StaticArray(_, _) => "StaticArray"
  }

  predicate IsWrapper(ty: TypeKind)
  {
    ty.Ref? || ty.WeakRef? || ty.ScriptRef? || ty.Array? || ty.StaticArray?
  }

  /** A Type definition named by `name`. */
  function EncodeType(pool: Pool, name: nat, ty: TypeKind, fuel: nat): Result<Json, Fault>
    decreases fuel, 2, 0
  {
    match ty
    case Prim =>
      var n :- NameAt(pool, name);
      Success(JObject(map["tag" := JString("Type"), "kind" := JString("Prim"), "name" := JString(n)]))
    case ClassType =>
      (match FindType(pool, name)
       case None => Failure(Abort(TypeNotFound(name)))
       case Some(index) =>
         var n :- NameAt(pool, name);
         Success(JObject(map["tag" := JString("Type"), "kind" := JString("Class"), "name" := JString(n),
                             "index" := JNumber(index)])))
    case StaticArray(inner, size) =>
      var v :- EncodeAt(pool, inner, fuel);
      Success(JObject(map["tag" := JString("Type"), "kind" := JString("StaticArray"), "size" := JNumber(size),
                          "inner" := v]))
    case _ =>
      var v :- EncodeAt(pool, ty.inner, fuel);
      Success(JObject(map["tag" := JString("Type"), "kind" := JString(KindName(ty)), "inner" := v]))
  }

  function EncodeClass(pool: Pool, name: nat, c: Class, fuel: nat): Result<Json, Fault>
    decreases fuel, 2, 0
  {
    var fields := EncodeList(pool, c.fields, fuel);
    var methods := EncodeList(pool, c.functions, fuel);
    if Aborted(fields) then Failure(fields.error)
    else if Aborted(methods) then Failure(methods.error)
    else
      var n :- NameAt(pool, name);
      var bases :- CollectBases(pool, c.base);
      var fs :- fields;
      var ms :- methods;
      Success(ClassNode(n, c, bases, fs, ms))
  }

  /** The output object of a class whose parts are already encoded. */
  function ClassNode(name: string, c: Class, bases: seq<Reference>, fields: seq<Json>, methods: seq<Json>): Json
  {
    JObject(map[
      "tag" := JString("Class"),
      "name" := JString(name),
      "visibility" := JString(VisibilityName(c.visibility)),
      "bases" := ReferencesJson(bases),
      "fields" := JArray(fields),
      "methods" := JArray(methods),
      "isNative" := JBool(c.flags.isNative),
      "isAbstract" := JBool(c.flags.isAbstract),
      "isFinal" := JBool(c.flags.isFinal),
      "isStruct" := JBool(c.flags.isStruct)
    ])
  }

  function EncodeEnum(pool: Pool, name: nat, e: Enum, fuel: nat): Result<Json, Fault>
    decreases fuel, 2, 0
  {
    var members := EncodeList(pool, e.members, fuel);
    if Aborted(members) then Failure(members.error)
    else
      var n :- NameAt(pool, name);
      var ms :- members;
      Success(JObject(map["tag" := JString("Enum"), "name" := JString(n), "members" := JArray(ms)]))
  }

  function EncodeFunction(pool: Pool, name: nat, f: Function, fuel: nat): Result<Json, Fault>
    decreases fuel, 2, 0
  {
    var parameters := EncodeList(pool, f.parameters, fuel);
    if Aborted(parameters) then Failure(parameters.error)
    else
      var n :- NameAt(pool, name);
      var ps :- parameters;
      var ret :- EncodeUnwrapped(pool, f.returnType, fuel);
      var src :- EncodeUnwrapped(pool, f.source, fuel);
      Success(FunctionNode(n, f, ps, ret, src))
  }

  /** The output object of a function whose parts are already encoded. */
  function FunctionNode(name: string, f: Function, parameters: seq<Json>, returnType: Json, source: Json): Json
  {
    JObject(map[
      "tag" := JString("Function"),
      "name" := JString(name),
      "parameters" := JArray(parameters),
      "returnType" := returnType,
      "visibility" := JString(VisibilityName(f.visibility)),
      "isStatic" := JBool(f.flags.isStatic),
      "isFinal" := JBool(f.flags.isFinal),
      "isExec" := JBool(f.flags.isExec),
      "isCallback" := JBool(f.flags.isCallback),
      "isNative" := JBool(f.flags.isNative),
      "source" := source
    ])
  }

  function EncodeParameter(pool: Pool, name: nat, p: Parameter, fuel: nat): Result<Json, Fault>
    decreases fuel, 2, 0
  {
    var n :- NameAt(pool, name);
    var t :- EncodeAt(pool, p.typeIndex, fuel);
    Success(JObject(map[
      "tag" := JString("Parameter"),
      "name" := JString(n),
      "type" := t,
      "isOut" := JBool(p.flags.isOut),
      "isOptional" := JBool(p.flags.isOptional)
    ]))
  }

  function EncodeField(pool: Pool, name: nat, f: Field, fuel: nat): Result<Json, Fault>
    decreases fuel, 2, 0
  {
    var n :- NameAt(pool, name);
    var t :- EncodeAt(pool, f.typeIndex, fuel);
    Success(FieldNode(n, f, t))
  }

  /** The output object of a field whose type is already encoded. */
  function FieldNode(name: string, f: Field, ty: Json): Json
  {
    JObject(map[
      "tag" := JString("Field"),
      "name" := JString(name),
      "type" := ty,
      "isNative" := JBool(f.flags.isNative),
      "isEdit" := JBool(f.flags.isEditable),
      "isInline" := JBool(f.flags.isInline),
      "isConst" := JBool(f.flags.isConst),
      "isRep" := JBool(f.flags.isReplicated),
      "isPersistent" := JBool(f.flags.isPersistent)
    ])
  }

  /** Dispatches on the definition kind. */
  function Encode(pool: Pool, def: Definition, fuel: nat): Result<Json, Fault>
    decreases fuel, 3, 0
  {
    match def.value
    case TypeDef(ty) => EncodeType(pool, def.name, ty, fuel)
    case ClassDef(c) => EncodeClass(pool, def.name, c, fuel)
    case EnumValueDef(value) =>
      var n :- NameAt(pool, def.name);
      Success(JObject(map["tag" := JString("EnumValue"), "name" := JString(n), "value" := JNumber(value)]))
    case EnumDef(e) => EncodeEnum(pool, def.name, e, fuel)
    case FunctionDef(f) => EncodeFunction(pool, def.name, f, fuel)
    case ParameterDef(p) => EncodeParameter(pool, def.name, p, fuel)
    case FieldDef(f) => EncodeField(pool, def.name, f, fuel)
    case SourceFileDef(path) => Success(JString(path))
    case LocalDef => Failure(Abort(LocalDefinition))
  }

  /** `encode_definition`, with one unit of depth per pool entry. */
  function EncodeDefinition(pool: Pool, def: Definition): Result<Json, Fault>
  {
    Encode(pool, def, |pool.definitions|)
  }
}
