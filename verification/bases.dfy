/** The base-chain resolver: from a class's direct base index, the list of
    ancestor references, nearest first, up to the undefined sentinel. */
module Bases {
  import opened Results
  import opened Pool
  import opened Json

  /** `index` is a link the resolver can pass: not the sentinel, a class,
      and its name resolves. */
  predicate IsNamedClass(pool: Pool, index: nat)
  {
    && index != Undefined
    && index < |pool.definitions|
    && pool.definitions[index].name < |pool.names|
    && pool.definitions[index].value.ClassDef?
  }

  /** The reference the resolver emits for a passable link. */
  function BaseReference(pool: Pool, index: nat): Reference
    requires IsNamedClass(pool, index)
  {
    Reference(pool.names[pool.definitions[index].name], index, None)
  }

  /** The direct base of a passable link. */
  function BaseOf(pool: Pool, index: nat): nat
    requires IsNamedClass(pool, index)
  {
    pool.definitions[index].value.cls.base
  }

  /** Following base links from `start` passes through `chain` (all passable
      links, nearest first) and then stands at `end`. */
  ghost predicate Path(pool: Pool, start: nat, chain: seq<nat>, end: nat)
    decreases |chain|
  {
    if |chain| == 0 then start == end
    else chain[0] == start && IsNamedClass(pool, start) && Path(pool, BaseOf(pool, start), chain[1..], end)
  }

  /** The error the resolver reports at a link it cannot pass: the definition
      is checked first, then its name, then its kind. */
  function LinkError(pool: Pool, index: nat): PoolError
  {
    if index >= |pool.definitions| then UnresolvedDefinition(index)
    else if pool.definitions[index].name >= |pool.names| then UnresolvedName(pool.definitions[index].name)
    else NotAClass(index)
  }

  /** The pool indices a reference list points at, in order. */
  function Indices(refs: seq<Reference>): (r: seq<nat>)
    ensures |r| == |refs|
    ensures forall k :: 0 <= k < |refs| ==> r[k] == refs[k].index
  {
    if |refs| == 0 then [] else [refs[0].index] + Indices(refs[1..])
  }

  /** The resolver allowed at most `fuel` recursive steps; the recursion in
      `collect_bases` has no bound, and running out of fuel stands for its
      non-termination. */
  function CollectBasesFuel(pool: Pool, index: nat, fuel: nat): (r: Result<seq<Reference>, Fault>)
    ensures r.Success? ==> Path(pool, index, Indices(r.value), Undefined)
    ensures r.Success? ==> forall k :: 0 <= k < |r.value| ==>
      IsNamedClass(pool, r.value[k].index) && r.value[k] == BaseReference(pool, r.value[k].index)
    ensures Aborted(r) ==> r.error.cause.CyclicBaseChain?
    decreases fuel
  {
    if index == Undefined then Success([])
    else
      var name :- DefNameAt(pool, index);
      var cls :- ClassAt(pool, index);
      if fuel == 0 then Failure(Abort(CyclicBaseChain(index)))
      else
      var rest :- CollectBasesFuel(pool, cls.base, fuel - 1);
      assert Indices([Reference(name, index, None)] + rest)[1..] == Indices(rest);
      Success([Reference(name, index, None)] + rest)
  }

  /** `collect_bases`: the walk is bounded by the pool size, which no
      terminating chain can exceed (see `PathShorterThanPool`). */
  function CollectBases(pool: Pool, index: nat): (r: Result<seq<Reference>, Fault>)
    ensures index == Undefined ==> r == Success([])
    ensures r.Success? && |r.value| > 0 ==> r.value[0].index == index
    ensures Aborted(r) ==> r.error.cause.CyclicBaseChain?
    ensures r.Success? ==> Path(pool, index, Indices(r.value), Undefined)
    ensures r.Success? ==> forall k :: 0 <= k < |r.value| ==>
      IsNamedClass(pool, r.value[k].index) && r.value[k].base == None &&
      r.value[k].name == pool.names[pool.definitions[r.value[k].index].name]
  {
    CollectBasesFuel(pool, index, |pool.definitions|)
  }

  // ---- the walk is deterministic ----

  /** Two walks from the same start agree on their common prefix, and the
      shorter one stands where the longer one continues. */
  lemma {:induction false} PathPrefix(pool: Pool, start: nat, c1: seq<nat>, e1: nat, c2: seq<nat>, e2: nat)
    requires Path(pool, start, c1, e1) && Path(pool, start, c2, e2)
    requires |c1| <= |c2|
    ensures c1 == c2[..|c1|]
    ensures |c1| < |c2| ==> e1 == c2[|c1|]
    ensures |c1| == |c2| ==> e1 == e2
    decreases |c1|
  {
    if |c1| > 0 {
      PathPrefix(pool, BaseOf(pool, start), c1[1..], e1, c2[1..], e2);
    }
  }

  /** A walk stops at most once: two stopping walks from one start are the same walk. */
  lemma PathStopsOnce(pool: Pool, start: nat, c1: seq<nat>, e1: nat, c2: seq<nat>, e2: nat)
    requires Path(pool, start, c1, e1) && !IsNamedClass(pool, e1)
    requires Path(pool, start, c2, e2) && !IsNamedClass(pool, e2)
    ensures c1 == c2 && e1 == e2
  {
    if |c1| <= |c2| {
      PathPrefix(pool, start, c1, e1, c2, e2);
      if |c1| < |c2| {
        PathLinks(pool, start, c2, e2, |c1|);
      }
    } else {
      PathPrefix(pool, start, c2, e2, c1, e1);
      PathLinks(pool, start, c1, e1, |c2|);
    }
  }

  /** A suffix of a path is a path from the link it starts at. */
  lemma {:induction false} PathSuffix(pool: Pool, start: nat, chain: seq<nat>, end: nat, k: nat)
    requires Path(pool, start, chain, end)
    requires k < |chain|
    ensures Path(pool, chain[k], chain[k..], end)
    decreases k
  {
    if k > 0 {
      PathSuffix(pool, BaseOf(pool, start), chain[1..], end, k - 1);
      assert chain[1..][k - 1..] == chain[k..];
    }
  }

  /** A walk that stops (at the sentinel or at a link it cannot pass) never
      visits a class twice. */
  lemma PathDistinct(pool: Pool, start: nat, chain: seq<nat>, end: nat)
    requires Path(pool, start, chain, end)
    requires !IsNamedClass(pool, end)
    ensures forall a, b :: 0 <= a < b < |chain| ==> chain[a] != chain[b]
  {
    forall a, b | 0 <= a < b < |chain|
      ensures chain[a] != chain[b]
    {
      if chain[a] == chain[b] {
        PathSuffix(pool, start, chain, end, a);
        PathSuffix(pool, start, chain, end, b);
        PathPrefix(pool, chain[a], chain[b..], end, chain[a..], end);
        PathLinks(pool, start, chain, end, a + |chain| - b);
        assert false;
      }
    }
  }

  /** Every index a path passes through is a passable link. */
  lemma {:induction false} PathLinks(pool: Pool, start: nat, chain: seq<nat>, end: nat, k: nat)
    requires Path(pool, start, chain, end)
    requires k < |chain|
    ensures IsNamedClass(pool, chain[k])
    decreases k
  {
    if k > 0 {
      PathLinks(pool, BaseOf(pool, start), chain[1..], end, k - 1);
    }
  }

  /** Distinct indices below `n` that avoid the sentinel number fewer than `n`. */
  lemma {:induction false} DistinctBelow(s: seq<nat>, n: nat)
    requires forall k :: 0 <= k < |s| ==> Undefined < s[k] < n
    requires forall a, b :: 0 <= a < b < |s| ==> s[a] != s[b]
    ensures |s| < n || |s| == 0
    decreases n
  {
    if |s| > 0 {
      assert Undefined < s[0] < n;
      var top := n - 1;
      // drop the entry equal to `top`, if any; everything else lies below `top`
      if k :| 0 <= k < |s| && s[k] == top {
        var rest := s[..k] + s[k + 1..];
        forall j | 0 <= j < |rest| ensures Undefined < rest[j] < top {
          if j < k { assert rest[j] == s[j]; } else { assert rest[j] == s[j + 1]; }
        }
        forall a, b | 0 <= a < b < |rest| ensures rest[a] != rest[b] {
          var a' := if a < k then a else a + 1;
          var b' := if b < k then b else b + 1;
          assert rest[a] == s[a'] && rest[b] == s[b'];
        }
        DistinctBelow(rest, top);
      } else {
        DistinctBelow(s, top);
      }
    }
  }

  /** Distinct passable links are fewer than the pool's definitions. */
  lemma PathShorterThanPool(pool: Pool, start: nat, chain: seq<nat>, end: nat)
    requires Path(pool, start, chain, end)
    requires !IsNamedClass(pool, end)
    ensures |chain| < |pool.definitions| || |chain| == 0
  {
    PathDistinct(pool, start, chain, end);
    forall k | 0 <= k < |chain| ensures Undefined < chain[k] < |pool.definitions| {
      PathLinks(pool, start, chain, end, k);
    }
    DistinctBelow(chain, |pool.definitions|);
  }

  // ---- what the resolver returns ----

  /** Along a chain that reaches the sentinel, the resolver returns one
      reference per link, in order. */
  lemma {:induction false} CollectBasesFuelFollowsChain(pool: Pool, start: nat, chain: seq<nat>, fuel: nat)
    requires Path(pool, start, chain, Undefined)
    requires |chain| <= fuel
    ensures CollectBasesFuel(pool, start, fuel).Success?
    ensures Indices(CollectBasesFuel(pool, start, fuel).value) == chain
    decreases |chain|
  {
    if |chain| > 0 {
      CollectBasesFuelFollowsChain(pool, BaseOf(pool, start), chain[1..], fuel - 1);
    }
  }

  /** Along a chain that reaches a link it cannot pass, the resolver reports
      that link's error. */
  lemma {:induction false} CollectBasesFuelStopsAtBrokenLink(pool: Pool, start: nat, chain: seq<nat>, end: nat, fuel: nat)
    requires Path(pool, start, chain, end)
    requires end != Undefined && !IsNamedClass(pool, end)
    requires |chain| <= fuel
    ensures CollectBasesFuel(pool, start, fuel) == Failure(Error(LinkError(pool, end)))
    decreases |chain|
  {
    if |chain| > 0 {
      CollectBasesFuelStopsAtBrokenLink(pool, BaseOf(pool, start), chain[1..], end, fuel - 1);
    }
  }

  /** A walk whose every reachable index is a passable link never ends; the
      resolver reports it as a cyclic chain. */
  lemma {:induction false} CollectBasesFuelOnEndlessWalk(pool: Pool, start: nat, fuel: nat)
    requires forall chain, end :: Path(pool, start, chain, end) ==> IsNamedClass(pool, end)
    ensures CollectBasesFuel(pool, start, fuel).Failure?
    ensures CollectBasesFuel(pool, start, fuel).error.Abort?
    ensures CollectBasesFuel(pool, start, fuel).error.cause.CyclicBaseChain?
    decreases fuel
  {
    assert Path(pool, start, [], start);
    if fuel > 0 {
      var next := BaseOf(pool, start);
      forall chain, end | Path(pool, next, chain, end) ensures IsNamedClass(pool, end) {
        assert ([start] + chain)[1..] == chain;
        assert Path(pool, start, [start] + chain, end);
      }
      CollectBasesFuelOnEndlessWalk(pool, next, fuel - 1);
    }
  }

  /** The base list is exactly the terminating chain when there is one. */
  lemma CollectBasesOfChain(pool: Pool, start: nat, chain: seq<nat>)
    requires Path(pool, start, chain, Undefined)
    ensures CollectBases(pool, start).Success?
    ensures Indices(CollectBases(pool, start).value) == chain
  {
    PathShorterThanPool(pool, start, chain, Undefined);
    CollectBasesFuelFollowsChain(pool, start, chain, |pool.definitions|);
  }

  /** The first link that cannot be passed decides the error. */
  lemma CollectBasesOfBrokenChain(pool: Pool, start: nat, chain: seq<nat>, end: nat)
    requires Path(pool, start, chain, end)
    requires end != Undefined && !IsNamedClass(pool, end)
    ensures CollectBases(pool, start) == Failure(Error(LinkError(pool, end)))
  {
    PathShorterThanPool(pool, start, chain, end);
    CollectBasesFuelStopsAtBrokenLink(pool, start, chain, end, |pool.definitions|);
  }

  /** Following base links from `start` eventually stops, at the sentinel
      or at a link that cannot be passed. */
  ghost predicate WalkStops(pool: Pool, start: nat)
  {
    exists chain, end :: Path(pool, start, chain, end) && !IsNamedClass(pool, end)
  }

  /** The resolver succeeds exactly when the walk reaches the sentinel, and
      reports a cyclic chain exactly when the walk never stops. */
  lemma CollectBasesOutcome(pool: Pool, start: nat)
    ensures CollectBases(pool, start).Success? <==> exists chain :: Path(pool, start, chain, Undefined)
    ensures Aborted(CollectBases(pool, start)) <==> !WalkStops(pool, start)
  {
    var r := CollectBases(pool, start);
    if r.Success? {
      assert Path(pool, start, Indices(r.value), Undefined);
    }
    if WalkStops(pool, start) {
      var chain, end :| Path(pool, start, chain, end) && !IsNamedClass(pool, end);
      if end == Undefined {
        CollectBasesOfChain(pool, start, chain);
        assert exists c :: Path(pool, start, c, Undefined);
      } else {
        CollectBasesOfBrokenChain(pool, start, chain, end);
        forall other | Path(pool, start, other, Undefined) ensures false {
          PathStopsOnce(pool, start, chain, end, other, Undefined);
        }
      }
    } else {
      forall chain, end | Path(pool, start, chain, end) ensures IsNamedClass(pool, end) {
      }
      CollectBasesFuelOnEndlessWalk(pool, start, |pool.definitions|);
    }
  }
}
