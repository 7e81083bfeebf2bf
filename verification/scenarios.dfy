/** Small concrete pools and what the model does with them. */
module Scenarios {
  import opened Results
  import opened Pool
  import opened Json
  import opened Bases
  import opened Encoder
  import opened ReferenceIndex
  import opened EncoderDepth
  import opened TypeLookup

  const NoFlags := ClassFlags(false, false, false, false)
  const NoFieldFlags := FieldFlags(false, false, false, false, false, false)

  /** Entry 0 is a filler for the sentinel; a root class `Vehicle` with one
      field `speed;Float` of the primitive type `Float`. */
  const Vehicle := Pool(
    [ Definition(0, Undefined, SourceFileDef("")),
      Definition(1, Undefined, ClassDef(Class(Public, NoFlags, Undefined, [2], []))),
      Definition(2, 1, FieldDef(Field(3, NoFieldFlags))),
      Definition(3, Undefined, TypeDef(Prim)) ],
    ["", "Vehicle", "speed;Float", "Float"])

  /** The whole class document, down to the field's primitive type; the
      field keeps its stored (mangled) name. */
  lemma VehicleDocument()
    ensures EncodeDefinition(Vehicle, Vehicle.definitions[1]) == Success(JObject(map[
      "tag" := JString("Class"),
      "name" := JString("Vehicle"),
      "visibility" := JString("public"),
      "bases" := JArray([]),
      "fields" := JArray([JObject(map[
        "tag" := JString("Field"),
        "name" := JString("speed;Float"),
        "type" := JObject(map["tag" := JString("Type"), "kind" := JString("Prim"), "name" := JString("Float")]),
        "isNative" := JBool(false),
        "isEdit" := JBool(false),
        "isInline" := JBool(false),
        "isConst" := JBool(false),
        "isRep" := JBool(false),
        "isPersistent" := JBool(false)])]),
      "methods" := JArray([]),
      "isNative" := JBool(false),
      "isAbstract" := JBool(false),
      "isFinal" := JBool(false),
      "isStruct" := JBool(false)]))
  {
    var ty := JObject(map["tag" := JString("Type"), "kind" := JString("Prim"), "name" := JString("Float")]);
    assert EncodeAt(Vehicle, 3, 3) == Success(ty);
    var field := FieldNode("speed;Float", Field(3, NoFieldFlags), ty);
    assert EncodeAt(Vehicle, 2, 4) == Success(field);
    assert EncodeList(Vehicle, [2][1..], 4) == Success([]);
    assert [field] + [] == [field];
    assert EncodeList(Vehicle, [2], 4) == Success([field]);
    assert CollectBases(Vehicle, Undefined) == Success([]);
  }

  /** A class whose field's type index points past the pool fails to encode. */
  lemma DanglingFieldType()
    ensures var pool := Pool(
      [ Definition(0, Undefined, SourceFileDef("")),
        Definition(1, Undefined, ClassDef(Class(Public, NoFlags, Undefined, [2], []))),
        Definition(2, 1, FieldDef(Field(7, NoFieldFlags))) ],
      ["", "Vehicle", "speed"]);
      EncodeDefinition(pool, pool.definitions[1]) == Failure(Error(UnresolvedDefinition(7)))
  {
    var pool := Pool(
      [ Definition(0, Undefined, SourceFileDef("")),
        Definition(1, Undefined, ClassDef(Class(Public, NoFlags, Undefined, [2], []))),
        Definition(2, 1, FieldDef(Field(7, NoFieldFlags))) ],
      ["", "Vehicle", "speed"]);
    var missing: Result<Json, Fault> := Failure(Error(UnresolvedDefinition(7)));
    assert EncodeAt(pool, 7, 2) == missing;
    assert EncodeAt(pool, 2, 3) == missing;
    assert EncodeList(pool, [2], 3) == Failure(missing.error);
    assert CollectBases(pool, Undefined) == Success([]);
  }

  /** A → B → C: entries 1, 2 and 3, C having no base. */
  const Chain := Pool(
    [ Definition(0, Undefined, SourceFileDef("")),
      Definition(1, Undefined, ClassDef(Class(Public, NoFlags, 2, [], []))),
      Definition(2, Undefined, ClassDef(Class(Public, NoFlags, 3, [], []))),
      Definition(3, Undefined, ClassDef(Class(Public, NoFlags, Undefined, [], []))) ],
    ["", "A", "B", "C"])

  /** The bases of A are B then C, nearest first. */
  lemma ChainBases()
    ensures CollectBases(Chain, Chain.definitions[1].value.cls.base)
         == Success([Reference("B", 2, None), Reference("C", 3, None)])
  {
    var c := Reference("C", 3, None);
    assert CollectBasesFuel(Chain, 0, 2) == Success([]);
    assert [c] + [] == [c];
    assert DefNameAt(Chain, 3) == Success("C");
    assert CollectBasesFuel(Chain, 3, 3) == Success([c]);
    assert DefNameAt(Chain, 2) == Success("B");
    var b := Reference("B", 2, None);
    assert [b] + [c] == [b, c];
    assert CollectBasesFuel(Chain, 2, 4) == Success([b, c]);
  }

  /** X and Y name each other as base. */
  const Cycle := Pool(
    [ Definition(0, Undefined, SourceFileDef("")),
      Definition(1, Undefined, ClassDef(Class(Public, NoFlags, 2, [], []))),
      Definition(2, Undefined, ClassDef(Class(Public, NoFlags, 1, [], []))) ],
    ["", "X", "Y"])

  /** The base chain of X is reported as cyclic instead of looping. */
  lemma CycleDetected()
    ensures CollectBases(Cycle, Cycle.definitions[1].value.cls.base).Failure?
    ensures CollectBases(Cycle, Cycle.definitions[1].value.cls.base).error.Abort?
    ensures CollectBases(Cycle, Cycle.definitions[1].value.cls.base).error.cause.CyclicBaseChain?
  {
    var cyclic := Failure(Abort(CyclicBaseChain(1)));
    assert CollectBasesFuel(Cycle, 1, 0) == cyclic;
    assert CollectBasesFuel(Cycle, 2, 1) == cyclic;
    assert CollectBasesFuel(Cycle, 1, 2) == cyclic;
    assert CollectBasesFuel(Cycle, 2, 3) == cyclic;
  }

  /** A mangled function name keeps only what precedes its first `;`. */
  lemma Demangling()
    ensures PrettyName("Foo;Bar") == "Foo"
  {
    var mangled := "Foo" + [';'] + "Bar";
    PrettyNameOfMangled("Foo", "Bar");
    assert mangled == "Foo;Bar";
  }

  /** Entry 1 is a reference type that wraps itself; the field at entry 2
      never reaches it. */
  const SelfRef := Pool(
    [ Definition(0, Undefined, SourceFileDef("")),
      Definition(1, Undefined, TypeDef(Ref(1))),
      Definition(2, Undefined, FieldDef(Field(3, NoFieldFlags))),
      Definition(3, Undefined, TypeDef(Prim)) ],
    ["", "Loop", "speed", "Float"])

  /** A cycle elsewhere in the pool does not affect the field's encoding. */
  lemma UnreachableCycleIgnored()
    ensures Acyclic(SelfRef, SelfRef.definitions[2])
    ensures EncodeDefinition(SelfRef, SelfRef.definitions[2]).Success?
  {
    var rank := map[3 := 0];
    assert Children(SelfRef.definitions[3].value) == [];
    assert Ranked(SelfRef, rank);
    assert Below(SelfRef, rank, Children(SelfRef.definitions[2].value), |SelfRef.definitions|);
    var float := JObject(map["tag" := JString("Type"), "kind" := JString("Prim"), "name" := JString("Float")]);
    assert EncodeAt(SelfRef, 3, 4) == Success(float);
    assert Encode(SelfRef, SelfRef.definitions[2], 4)
        == Success(FieldNode("speed", Field(3, NoFieldFlags), float));
  }

  /** The self-wrapping type reaches its own cycle, and its encoding runs
      out of depth. */
  lemma ReachableCycleExceedsDepth()
    ensures !Acyclic(SelfRef, SelfRef.definitions[1])
    ensures EncodeDefinition(SelfRef, SelfRef.definitions[1]) == Failure(Abort(DepthExceeded))
  {
    var self := SelfRef.definitions[1];
    assert Children(self.value) == [1];
    forall rank | Ranked(SelfRef, rank) ensures 1 !in rank {
      assert Children(SelfRef.definitions[1].value)[0] == 1 < |SelfRef.definitions|;
    }
    var deep: Result<Json, Fault> := Failure(Abort(DepthExceeded));
    assert EncodeAt(SelfRef, 1, 0) == deep;
    assert Encode(SelfRef, self, 0) == deep;
    assert EncodeAt(SelfRef, 1, 1) == deep;
    assert Encode(SelfRef, self, 1) == deep;
    assert EncodeAt(SelfRef, 1, 2) == deep;
    assert Encode(SelfRef, self, 2) == deep;
    assert EncodeAt(SelfRef, 1, 3) == deep;
    assert Encode(SelfRef, self, 3) == deep;
    assert EncodeAt(SelfRef, 1, 4) == deep;
    assert Encode(SelfRef, self, 4) == deep;
  }

  /** Entry 0 is reserved for the sentinel: a class stored there is never
      found by its name. */
  lemma SentinelEntrySkipped()
    ensures FindType(Pool([Definition(1, Undefined, ClassDef(Class(Public, NoFlags, Undefined, [], [])))], ["", "Z"]), 1)
         == None
  {
  }

  /** A class whose own name does not resolve reports that name, even when
      its field's type is missing too: the name is looked up first. */
  lemma NameBeforeFieldError()
    ensures var pool := Pool(
      [ Definition(0, Undefined, SourceFileDef("")),
        Definition(9, Undefined, ClassDef(Class(Public, NoFlags, Undefined, [2], []))),
        Definition(2, 1, FieldDef(Field(7, NoFieldFlags))) ],
      ["", "Vehicle", "speed"]);
      EncodeDefinition(pool, pool.definitions[1]) == Failure(Error(UnresolvedName(9)))
  {
    var pool := Pool(
      [ Definition(0, Undefined, SourceFileDef("")),
        Definition(9, Undefined, ClassDef(Class(Public, NoFlags, Undefined, [2], []))),
        Definition(2, 1, FieldDef(Field(7, NoFieldFlags))) ],
      ["", "Vehicle", "speed"]);
    var missing: Result<Json, Fault> := Failure(Error(UnresolvedDefinition(7)));
    assert EncodeAt(pool, 7, 2) == missing;
    assert EncodeAt(pool, 2, 3) == missing;
    assert EncodeList(pool, [2], 3) == Failure(missing.error);
  }
}
