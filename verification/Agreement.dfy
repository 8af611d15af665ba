/** When the sequential and the parallel driver build the same store. */
module Agreement {
  import opened Graph
  import opened Ids
  import opened Walk
  import opened Build
  import opened BuildParallel

  /** Every boundary commit of a known fragment is known too, or its own history is incomplete. */
  ghost predicate BoundaryClosed(store: Store, depth: Depth, known: Known) {
    forall k, b :: k in known && b in Boundary(store, depth, k) ==> b in known || !Complete(store, depth, b)
  }

  /**
   The parallel driver finds, from every list of heads, what the sequential one
   finds exactly when the known fragments are closed under complete boundaries.
   */
  lemma DriversAgreeIff(store: Store, depth: Depth, known: Known)
    requires Sound(store, depth, known)
    ensures BoundaryClosed(store, depth, known) <==>
            forall roots ::
              FreshHeads(store, depth, known, roots, true) == FreshHeads(store, depth, known, roots, false)
  {
    hide Sound, Complete, Boundary, FreshHeads;
    if BoundaryClosed(store, depth, known) {
      forall roots
        ensures FreshHeads(store, depth, known, roots, true) == FreshHeads(store, depth, known, roots, false)
      {
        ClosedDriversAgree(store, depth, known, roots);
      }
    } else {
      var k, b :| k in known && b in Boundary(store, depth, k) && b !in known && Complete(store, depth, b);
      DriversDiffer(store, depth, known, k, b);
      assert b in FreshHeads(store, depth, known, {k}, true) && b !in FreshHeads(store, depth, known, {k}, false);
    }
  }

  lemma ClosedDriversAgree(store: Store, depth: Depth, known: Known, roots: set<CommitId>)
    requires Sound(store, depth, known)
    requires BoundaryClosed(store, depth, known)
    ensures FreshHeads(store, depth, known, roots, true) == FreshHeads(store, depth, known, roots, false)
  {
    hide Sound, Discovered, Complete, Boundary;
    var here, past := Discovered(store, depth, known, roots, false), Discovered(store, depth, known, roots, true);
    DiscoveredClosed(store, depth, known, roots, false);
    DiscoveredClosed(store, depth, known, roots, true);
    SoundGraph(store, depth, known);
    DiscoveredLeast(store, depth, known, roots, false, past);
    var behind := set k, b | k in known && b in known[k].boundary.Keys :: b;
    var s := here + known.Keys + behind;
    forall h, n | h in s && n in DriverStep(store, depth, known, true, h) ensures n in s {
      if h !in known && h in here {
        assert n in DriverStep(store, depth, known, false, h);
      } else if h !in known {
        BehindIsDeep(store, depth, known, h);
      }
    }
    DiscoveredLeast(store, depth, known, roots, true, s);
  }

  lemma BehindIsDeep(store: Store, depth: Depth, known: Known, b: CommitId)
    requires Sound(store, depth, known)
    requires exists k :: k in known && b in known[k].boundary.Keys
    ensures depth(b) > 0
  {
    hide Raw, Complete, AncestorRaw;
    var k :| k in known && b in known[k].boundary.Keys;
    assert Between(store, depth, known.Keys, k, known[k]);
  }

  lemma DriversDiffer(store: Store, depth: Depth, known: Known, k: CommitId, b: CommitId)
    requires Sound(store, depth, known)
    requires k in known && b in Boundary(store, depth, k) && b !in known && Complete(store, depth, b)
    ensures b in FreshHeads(store, depth, known, {k}, true)
    ensures b !in FreshHeads(store, depth, known, {k}, false)
  {
    hide Sound, Discovered, Complete, Boundary;
    SoundGraph(store, depth, known);
    BehindIsDeep(store, depth, known, b);
    DiscoveredClosed(store, depth, known, {k}, true);
    assert b in DriverStep(store, depth, known, true, k);
    DiscoveredLeast(store, depth, known, {k}, false, {k});
  }

  /** Neither driver looks past a head with incomplete history: asked for it alone, it builds nothing. */
  lemma IncompleteStops(store: Store, depth: Depth, known: Known, h: CommitId, pastKnown: bool)
    requires h !in known && depth(h) > 0 && !Complete(store, depth, h)
    ensures FreshHeads(store, depth, known, {h}, pastKnown) == {}
  {
    hide Discovered, Complete;
    DiscoveredLeast(store, depth, known, {h}, pastKnown, {h});
  }

  /** The boundary-closed case includes every build that starts from nothing. */
  lemma NothingKnown(store: Store, depth: Depth)
    ensures Sound(store, depth, map[]) && BoundaryClosed(store, depth, map[])
  {
  }

  /**
   Two drivers, two arrangements of the same heads, one store: the maps have the
   same heads and differ in no state that settles, so where all do they are equal.
   In particular this holds from an empty map.
   */
  method BuildBothWays(store: Store, heads: seq<CommitId>, heads': seq<CommitId>, known0: Known, depth: Depth)
    returns (sequential: Known, parallel: Known)
    requires Sound(store, depth, known0) && BoundaryClosed(store, depth, known0)
    requires forall h :: h in heads <==> h in heads'
    ensures sequential.Keys == parallel.Keys
    ensures forall h :: h in parallel && (h in known0 || Settles(store, depth, parallel.Keys, h)) ==>
              sequential[h] == parallel[h]
    ensures (forall h :: h in parallel && h !in known0 ==> Settles(store, depth, parallel.Keys, h)) ==>
              sequential == parallel
  {
    hide Sound, BoundaryClosed, FreshHeads, Canonical, Settles;
    var a, b;
    sequential, a := BuildFragmentStore(store, heads, known0, depth);
    parallel, b := BuildFragmentStorePar(store, heads', known0, depth);
    ghost var roots := set x | x in heads;
    assert roots == set x | x in heads';
    ClosedDriversAgree(store, depth, known0, roots);
  }

  // Two commits of equal depth, `k` on top of `b`.

  function Pair(k: CommitId, b: CommitId): Store { map[k := {b}, b := {}] }

  const FLAT: Depth := x => 1

  lemma PairWalks(k: CommitId, b: CommitId)
    requires k != b
    ensures Raw(Pair(k, b), FLAT, k) == {k} && Boundary(Pair(k, b), FLAT, k) == {b}
    ensures Raw(Pair(k, b), FLAT, b) == {b} && Boundary(Pair(k, b), FLAT, b) == {}
  {
    hide Raw;
    RawClosed(Pair(k, b), FLAT, k);
    RawClosed(Pair(k, b), FLAT, b);
    RawLeast(Pair(k, b), FLAT, k, {k});
    RawLeast(Pair(k, b), FLAT, b, {b});
  }

  /** A known fragment with an unknown boundary: only the sequential driver looks past it. */
  lemma ParallelStopsAtKnown(k: CommitId, b: CommitId)
    requires k != b
    ensures var known := map[k := FragmentState(k, {k}, {}, map[b := {}])];
            && Sound(Pair(k, b), FLAT, known)
            && FreshHeads(Pair(k, b), FLAT, known, {k}, true) == {b}
            && FreshHeads(Pair(k, b), FLAT, known, {k}, false) == {}
  {
    hide Raw, Boundary, Reach, Discovered;
    PairWalks(k, b);
    var state := FragmentState(k, {k}, {}, map[b := {}]);
    var known: Known := map[k := state];
    assert known.Keys == {k};
    ReachLeast(BoundaryGraph(Pair(k, b), FLAT, {k}), {b}, {b});
    assert Between(Pair(k, b), FLAT, {k}, k, state);
    DriversDiffer(Pair(k, b), FLAT, known, k, b);
    DiscoveredLeast(Pair(k, b), FLAT, known, {k}, true, {k, b});
    DiscoveredLeast(Pair(k, b), FLAT, known, {k}, false, {k});
  }
}
