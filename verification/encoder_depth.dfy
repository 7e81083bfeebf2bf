/** The depth bound of the encoder. `encode_definition` recurses into referenced
    definitions without a bound and never returns on a cyclic reference
    graph; the model's fuel makes that explicit. When no cycle is reachable
    from the encoded definition, the bound chosen by `EncodeDefinition` is
    never reached, and once a result does not report `DepthExceeded`, more
    fuel does not change it. */
module EncoderDepth {
  import opened Results
  import opened Pool
  import opened Encoder

  function OptionalIndex(index: Option<nat>): seq<nat>
  {
    match index
    case None => []
    case Some(i) => [i]
  }

  /** The indices the encoder follows from a definition into the pool. */
  function Children(value: AnyDefinition): seq<nat>
  {
    match value
    case TypeDef(ty) => if IsWrapper(ty) then [ty.inner] else []
    case ClassDef(c) => c.fields + c.functions
    case FunctionDef(f) => f.parameters + OptionalIndex(f.returnType) + OptionalIndex(f.source)
    case FieldDef(f) => [f.typeIndex]
    case ParameterDef(p) => [p.typeIndex]
    case EnumDef(e) => e.members
    case _ => []
  }

  /** `rank` gives some pool entries a height below the pool size; the
      ranked entries are closed under the references the encoder follows
      into the pool, and the height drops along each of them. Entries
      outside `rank` are unconstrained, so a cycle among them is allowed. */
  ghost predicate Ranked(pool: Pool, rank: map<nat, nat>)
  {
    && (forall i :: i in rank ==> i < |pool.definitions| && rank[i] < |pool.definitions|)
    && (forall i, k :: i in rank && 0 <= k < |Children(pool.definitions[i].value)|
          && Children(pool.definitions[i].value)[k] < |pool.definitions|
          ==> Children(pool.definitions[i].value)[k] in rank
              && rank[Children(pool.definitions[i].value)[k]] < rank[i])
  }

  /** Every pool entry among `indices` is ranked, with a height below `fuel`. */
  ghost predicate Below(pool: Pool, rank: map<nat, nat>, indices: seq<nat>, fuel: nat)
  {
    forall k :: 0 <= k < |indices| && indices[k] < |pool.definitions| ==>
      indices[k] in rank && rank[indices[k]] < fuel
  }

  /** The references the encoder follows from `def` reach no cycle: the
      entries reachable from it can be ranked. Entries it cannot reach may
      form cycles. */
  ghost predicate Acyclic(pool: Pool, def: Definition)
  {
    exists rank :: Ranked(pool, rank) && Below(pool, rank, Children(def.value), |pool.definitions|)
  }

  predicate NotTooDeep<T>(r: Result<T, Fault>)
  {
    !(r.Failure? && r.error == Abort(DepthExceeded))
  }

  lemma {:induction false} EncodeAtWithinDepth(pool: Pool, rank: map<nat, nat>, index: nat, fuel: nat)
    requires Ranked(pool, rank)
    requires index < |pool.definitions| ==> index in rank && rank[index] < fuel
    ensures NotTooDeep(EncodeAt(pool, index, fuel))
    decreases fuel, 0, 0
  {
    if index < |pool.definitions| {
      var def := pool.definitions[index];
      assert Below(pool, rank, Children(def.value), fuel - 1);
      EncodeWithinDepth(pool, rank, def, fuel - 1);
    }
  }

  lemma {:induction false} EncodeListWithinDepth(pool: Pool, rank: map<nat, nat>, indices: seq<nat>, fuel: nat)
    requires Ranked(pool, rank)
    requires Below(pool, rank, indices, fuel)
    ensures NotTooDeep(EncodeList(pool, indices, fuel))
    decreases fuel, 1, |indices|
  {
    if |indices| > 0 {
      EncodeAtWithinDepth(pool, rank, indices[0], fuel);
      assert Below(pool, rank, indices[1..], fuel) by {
        forall k | 0 <= k < |indices| - 1 ensures indices[1..][k] == indices[k + 1] { }
      }
      EncodeListWithinDepth(pool, rank, indices[1..], fuel);
    }
  }

  lemma {:induction false} EncodeUnwrappedWithinDepth(pool: Pool, rank: map<nat, nat>, index: Option<nat>, fuel: nat)
    requires Ranked(pool, rank)
    requires Below(pool, rank, OptionalIndex(index), fuel)
    ensures NotTooDeep(EncodeUnwrapped(pool, index, fuel))
    decreases fuel, 1, 0
  {
    if index.Some? {
      assert OptionalIndex(index)[0] == index.value;
      EncodeAtWithinDepth(pool, rank, index.value, fuel);
    }
  }

  /** A class's children bound its fields and its methods. */
  lemma ClassChildrenBelow(pool: Pool, rank: map<nat, nat>, c: Class, fuel: nat)
    requires Below(pool, rank, Children(ClassDef(c)), fuel)
    ensures Below(pool, rank, c.fields, fuel) && Below(pool, rank, c.functions, fuel)
  {
    var children := Children(ClassDef(c));
    forall k | 0 <= k < |c.fields| ensures children[k] == c.fields[k] { }
    forall k | 0 <= k < |c.functions| ensures children[|c.fields| + k] == c.functions[k] { }
  }

  /** A function's children bound its parameters, return type and source. */
  lemma FunctionChildrenBelow(pool: Pool, rank: map<nat, nat>, f: Function, fuel: nat)
    requires Below(pool, rank, Children(FunctionDef(f)), fuel)
    ensures Below(pool, rank, f.parameters, fuel)
    ensures Below(pool, rank, OptionalIndex(f.returnType), fuel)
    ensures Below(pool, rank, OptionalIndex(f.source), fuel)
  {
    var children := Children(FunctionDef(f));
    var n := |f.parameters|;
    var ret := OptionalIndex(f.returnType);
    forall k | 0 <= k < n ensures children[k] == f.parameters[k] { }
    forall k | 0 <= k < |ret| ensures children[n + k] == ret[k] { }
    forall k | 0 <= k < |OptionalIndex(f.source)| ensures children[n + |ret| + k] == OptionalIndex(f.source)[k] { }
  }

  /** With every followed reference ranked below the fuel, the encoding
      never runs out of depth. */
  lemma {:induction false} EncodeWithinDepth(pool: Pool, rank: map<nat, nat>, def: Definition, fuel: nat)
    requires Ranked(pool, rank)
    requires Below(pool, rank, Children(def.value), fuel)
    ensures NotTooDeep(Encode(pool, def, fuel))
    decreases fuel, 2, 0
  {
    var children := Children(def.value);
    match def.value
    case TypeDef(ty) =>
      if IsWrapper(ty) {
        assert children[0] == ty.inner;
        EncodeAtWithinDepth(pool, rank, ty.inner, fuel);
      }
    case ClassDef(c) =>
      ClassChildrenBelow(pool, rank, c, fuel);
      EncodeListWithinDepth(pool, rank, c.fields, fuel);
      EncodeListWithinDepth(pool, rank, c.functions, fuel);
    case FunctionDef(f) =>
      FunctionChildrenBelow(pool, rank, f, fuel);
      EncodeListWithinDepth(pool, rank, f.parameters, fuel);
      EncodeUnwrappedWithinDepth(pool, rank, f.returnType, fuel);
      EncodeUnwrappedWithinDepth(pool, rank, f.source, fuel);
    case FieldDef(f) =>
      assert children[0] == f.typeIndex;
      EncodeAtWithinDepth(pool, rank, f.typeIndex, fuel);
    case ParameterDef(p) =>
      assert children[0] == p.typeIndex;
      EncodeAtWithinDepth(pool, rank, p.typeIndex, fuel);
    case EnumDef(e) =>
      EncodeListWithinDepth(pool, rank, e.members, fuel);
    case _ =>
  }

  /** When no cycle is reachable from `def`, `EncodeDefinition` never
      reports `DepthExceeded`: its bound of one unit per pool entry covers
      the deepest reference path. */
  lemma AcyclicWithinDepth(pool: Pool, def: Definition)
    requires Acyclic(pool, def)
    ensures NotTooDeep(EncodeDefinition(pool, def))
  {
    var rank :| Ranked(pool, rank) && Below(pool, rank, Children(def.value), |pool.definitions|);
    EncodeWithinDepth(pool, rank, def, |pool.definitions|);
  }

  // ---- more fuel changes nothing ----

  lemma {:induction false} EncodeAtFuelMonotone(pool: Pool, index: nat, fuel: nat, more: nat)
    requires fuel <= more
    requires NotTooDeep(EncodeAt(pool, index, fuel))
    ensures EncodeAt(pool, index, more) == EncodeAt(pool, index, fuel)
    decreases fuel, 0, 0
  {
    if index < |pool.definitions| {
      EncodeFuelMonotone(pool, pool.definitions[index], fuel - 1, more - 1);
    }
  }

  lemma {:induction false} EncodeListFuelMonotone(pool: Pool, indices: seq<nat>, fuel: nat, more: nat)
    requires fuel <= more
    requires NotTooDeep(EncodeList(pool, indices, fuel))
    ensures EncodeList(pool, indices, more) == EncodeList(pool, indices, fuel)
    decreases fuel, 1, |indices|
  {
    if |indices| > 0 {
      EncodeAtFuelMonotone(pool, indices[0], fuel, more);
      if EncodeAt(pool, indices[0], fuel).Success? {
        EncodeListFuelMonotone(pool, indices[1..], fuel, more);
      }
    }
  }

  lemma {:induction false} EncodeUnwrappedFuelMonotone(pool: Pool, index: Option<nat>, fuel: nat, more: nat)
    requires fuel <= more
    requires NotTooDeep(EncodeUnwrapped(pool, index, fuel))
    ensures EncodeUnwrapped(pool, index, more) == EncodeUnwrapped(pool, index, fuel)
    decreases fuel, 1, 0
  {
    if index.Some? {
      EncodeAtFuelMonotone(pool, index.value, fuel, more);
    }
  }

  /** Once an encoding does not report `DepthExceeded`, any larger fuel
      gives the same result: the bound is invisible when it suffices. */
  lemma {:induction false} EncodeFuelMonotone(pool: Pool, def: Definition, fuel: nat, more: nat)
    requires fuel <= more
    requires NotTooDeep(Encode(pool, def, fuel))
    ensures Encode(pool, def, more) == Encode(pool, def, fuel)
    decreases fuel, 2, 0
  {
    match def.value
    case TypeDef(ty) =>
      assert Encode(pool, def, fuel) == EncodeType(pool, def.name, ty, fuel);
      if IsWrapper(ty) {
        EncodeAtFuelMonotone(pool, ty.inner, fuel, more);
      }
    case ClassDef(c) =>
      var fields := EncodeList(pool, c.fields, fuel);
      assert Encode(pool, def, fuel) == EncodeClass(pool, def.name, c, fuel);
      EncodeListFuelMonotone(pool, c.fields, fuel, more);
      if !Aborted(fields) {
        EncodeListFuelMonotone(pool, c.functions, fuel, more);
      }
    case FunctionDef(f) =>
      var parameters := EncodeList(pool, f.parameters, fuel);
      assert Encode(pool, def, fuel) == EncodeFunction(pool, def.name, f, fuel);
      EncodeListFuelMonotone(pool, f.parameters, fuel, more);
      if parameters.Success? && def.name < |pool.names| {
        EncodeUnwrappedFuelMonotone(pool, f.returnType, fuel, more);
        if EncodeUnwrapped(pool, f.returnType, fuel).Success? {
          EncodeUnwrappedFuelMonotone(pool, f.source, fuel, more);
        }
      }
    case FieldDef(fd) =>
      assert Encode(pool, def, fuel) == EncodeField(pool, def.name, fd, fuel);
      if def.name < |pool.names| {
        EncodeAtFuelMonotone(pool, fd.typeIndex, fuel, more);
      }
    case ParameterDef(p) =>
      assert Encode(pool, def, fuel) == EncodeParameter(pool, def.name, p, fuel);
      if def.name < |pool.names| {
        EncodeAtFuelMonotone(pool, p.typeIndex, fuel, more);
      }
    case EnumDef(e) =>
      assert Encode(pool, def, fuel) == EncodeEnum(pool, def.name, e, fuel);
      EncodeListFuelMonotone(pool, e.members, fuel, more);
    case _ =>
  }

  /** When no cycle is reachable from `def`, the result of
      `EncodeDefinition` is the result of the encoder with any larger depth
      bound. */
  lemma AcyclicDepthIrrelevant(pool: Pool, def: Definition, more: nat)
    requires Acyclic(pool, def)
    requires |pool.definitions| <= more
    ensures Encode(pool, def, more) == EncodeDefinition(pool, def)
  {
    AcyclicWithinDepth(pool, def);
    EncodeFuelMonotone(pool, def, |pool.definitions|, more);
  }
}
