/** `build_index`: the flat list of references to the root classes,
    functions and enums, with demangled names. */
module ReferenceIndex {
  import opened Results
  import opened Pool
  import opened Json

  /** The demangled name: the text before the first `;`. */
  function PrettyName(s: string): (r: string)
    ensures r <= s
    ensures ';' !in r
    ensures |r| < |s| ==> s[|r|] == ';'
    ensures ';' !in s ==> r == s
  {
    if |s| == 0 || s[0] == ';' then "" else [s[0]] + PrettyName(s[1..])
  }

  /** A name made of a `;`-free prefix, a `;` and anything after it
      demangles to that prefix. */
  lemma {:induction false} PrettyNameOfMangled(prefix: string, rest: string)
    requires ';' !in prefix
    ensures PrettyName(prefix + [';'] + rest) == prefix
  {
    if |prefix| > 0 {
      assert (prefix + [';'] + rest)[1..] == prefix[1..] + [';'] + rest;
      PrettyNameOfMangled(prefix[1..], rest);
    } else {
      assert (prefix + [';'] + rest)[0] == ';';
    }
  }

  /** A root definition the index lists: its parent is the sentinel and it
      is a class, function or enum. */
  predicate Indexed(def: Definition)
  {
    def.parent == Undefined && (def.value.ClassDef? || def.value.FunctionDef? || def.value.EnumDef?)
  }

  /** `ref` is the index entry of the definition it points at: the pretty
      name, the definition's own index, and for a class its raw direct base. */
  predicate DescribesRoot(pool: Pool, ref: Reference)
  {
    && Undefined < ref.index < |pool.definitions|
    && Indexed(pool.definitions[ref.index])
    && pool.definitions[ref.index].name < |pool.names|
    && ref.name == PrettyName(pool.names[pool.definitions[ref.index].name])
    && ref.base == (if pool.definitions[ref.index].value.ClassDef?
                    then Some(pool.definitions[ref.index].value.cls.base) else None)
  }

  /** Every listed definition has a resolvable name. */
  predicate IndexNamesResolve(pool: Pool)
  {
    forall j :: Undefined < j < |pool.definitions| && Indexed(pool.definitions[j]) ==> pool.definitions[j].name < |pool.names|
  }

  /** The name index of an indexed root fails to resolve, and no earlier
      indexed root's does. */
  predicate FirstUnresolved(pool: Pool, j: nat)
  {
    && Undefined < j < |pool.definitions|
    && Indexed(pool.definitions[j])
    && pool.definitions[j].name >= |pool.names|
    && forall i :: Undefined < i < j && Indexed(pool.definitions[i]) ==> pool.definitions[i].name < |pool.names|
  }

  /** `entries` is the index of the roots before `upTo`: each entry
      describes its root, the entries are in pool order, and every indexed
      root before `upTo` has one. */
  predicate ListsRootsBefore(pool: Pool, entries: seq<Reference>, upTo: nat)
    requires upTo <= |pool.definitions|
  {
    && (forall k :: 0 <= k < |entries| ==> entries[k].index < upTo && DescribesRoot(pool, entries[k]))
    && (forall a, b :: 0 <= a < b < |entries| ==> entries[a].index < entries[b].index)
    && (forall j :: Undefined < j < upTo && Indexed(pool.definitions[j]) ==>
          exists k :: 0 <= k < |entries| && entries[k].index == j)
  }

  /** A definition the index does not list leaves the index unchanged. */
  lemma {:induction false} SkipUnlisted(pool: Pool, entries: seq<Reference>, i: nat)
    requires Undefined < i < |pool.definitions|
    requires !Indexed(pool.definitions[i])
    requires ListsRootsBefore(pool, entries, i)
    ensures ListsRootsBefore(pool, entries, i + 1)
  {
    forall j | Undefined < j < i + 1 && Indexed(pool.definitions[j])
      ensures exists k :: 0 <= k < |entries| && entries[k].index == j
    {
      assert j < i;
    }
  }

  /** Appending the entry of root `i` extends the index past `i`. */
  lemma {:induction false} AppendRoot(pool: Pool, entries: seq<Reference>, i: nat, ref: Reference)
    requires Undefined < i < |pool.definitions|
    requires ListsRootsBefore(pool, entries, i)
    requires DescribesRoot(pool, ref) && ref.index == i
    ensures ListsRootsBefore(pool, entries + [ref], i + 1)
  {
    var after := entries + [ref];
    forall j | Undefined < j < i + 1 && Indexed(pool.definitions[j])
      ensures exists k :: 0 <= k < |after| && after[k].index == j
    {
      if j == i {
        assert after[|entries|].index == j;
      } else {
        var k :| 0 <= k < |entries| && entries[k].index == j;
        assert after[k].index == j;
      }
    }
  }

  /** Builds the index in one pass over the roots in pool order, starting
      after the entry reserved for the sentinel; an unresolvable name stops
      the whole pass, since `build_index` unwraps it. */
  method BuildIndex(pool: Pool) returns (r: Result<seq<Reference>, Fault>)
    ensures r.Success? <==> IndexNamesResolve(pool)
    ensures r.Success? ==> forall k :: 0 <= k < |r.value| ==> DescribesRoot(pool, r.value[k])
    ensures r.Success? ==> forall a, b :: 0 <= a < b < |r.value| ==> r.value[a].index < r.value[b].index
    ensures r.Success? ==> forall j :: Undefined < j < |pool.definitions| && Indexed(pool.definitions[j]) ==>
      exists k :: 0 <= k < |r.value| && r.value[k].index == j
    ensures r.Failure? ==>
      exists j: nat :: FirstUnresolved(pool, j) && r.error == Abort(FailedUnwrap(UnresolvedName(pool.definitions[j].name)))
  {
    if |pool.definitions| == 0 {
      return Success([]);
    }
    var entries: seq<Reference> := [];
    var i := Undefined + 1;
    while i < |pool.definitions|
      invariant Undefined < i <= |pool.definitions|
      invariant forall j :: Undefined < j < i && Indexed(pool.definitions[j]) ==> pool.definitions[j].name < |pool.names|
      invariant ListsRootsBefore(pool, entries, i)
    {
      var def := pool.definitions[i];
      if Indexed(def) {
        if def.name >= |pool.names| {
          assert FirstUnresolved(pool, i);
          return Failure(Abort(FailedUnwrap(UnresolvedName(def.name))));
        }
        var base := if def.value.ClassDef? then Some(def.value.cls.base) else None;
        var ref := Reference(PrettyName(pool.names[def.name]), i, base);
        AppendRoot(pool, entries, i, ref);
        entries := entries + [ref];
      } else {
        SkipUnlisted(pool, entries, i);
      }
      i := i + 1;
    }
    return Success(entries);
  }
}
