/** `find_type`: the linear scan that recovers the class or enum a
    class-typed Type definition stands for, by its name index. */
module TypeLookup {
  import opened Results
  import opened Pool

  /** `def` is a class or enum whose name index is `name`. */
  predicate DeclaresType(def: Definition, name: nat)
  {
    (def.value.ClassDef? || def.value.EnumDef?) && def.name == name
  }

  /** The first index at or after `from` whose definition declares `name`. */
  function FindTypeFrom(pool: Pool, name: nat, from: nat): (r: Option<nat>)
    ensures r.Some? ==> from <= r.value < |pool.definitions| && DeclaresType(pool.definitions[r.value], name)
    ensures r.Some? ==> forall j :: from <= j < r.value ==> !DeclaresType(pool.definitions[j], name)
    ensures r.None? ==> forall j :: from <= j < |pool.definitions| ==> !DeclaresType(pool.definitions[j], name)
    decreases |pool.definitions| - from
  {
    if from >= |pool.definitions| then None
    else if DeclaresType(pool.definitions[from], name) then Some(from)
    else FindTypeFrom(pool, name, from + 1)
  }

  /** The index of the first definition, in pool order, that is a class or
      enum named `name`; `None` when there is none. The pool's definition
      iterator starts after the entry reserved for the sentinel. */
  function FindType(pool: Pool, name: nat): (r: Option<nat>)
    ensures r.Some? ==> Undefined < r.value < |pool.definitions| && DeclaresType(pool.definitions[r.value], name)
    ensures r.Some? ==> forall j :: Undefined < j < r.value ==> !DeclaresType(pool.definitions[j], name)
    ensures r.None? <==> forall j :: Undefined < j < |pool.definitions| ==> !DeclaresType(pool.definitions[j], name)
  {
    FindTypeFrom(pool, name, Undefined + 1)
  }
}
