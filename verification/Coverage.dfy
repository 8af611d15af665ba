/** What a built store covers, and what stripping conserves. */
module Coverage {
  import opened Graph
  import opened Ids
  import opened Walk
  import opened Build
  import opened BuildParallel
  import opened Agreement

  /** Every raw member has a holder that shares it with no ancestor. */
  ghost predicate Unshadowed(store: Store, depth: Depth, keys: set<CommitId>) {
    forall m :: m in RawUnion(store, depth, keys) ==> OwnedIn(store, depth, keys, m)
  }

  ghost predicate OwnedIn(store: Store, depth: Depth, keys: set<CommitId>, m: CommitId) {
    exists h :: h in keys && m in Raw(store, depth, h) && m !in AncestorRaw(store, depth, keys, h)
  }

  /**
   At every point of a build, before and after each strip, the members of all
   fragments add up to their raw walks.
   */
  lemma Conserves(store: Store, depth: Depth, known: Known)
    requires Sound(store, depth, known) && Unshadowed(store, depth, known.Keys)
    ensures MembersOf(known, known.Keys) == RawUnion(store, depth, known.Keys)
  {
    hide Raw, Boundary, Complete, AncestorRaw;
    forall h | h in known ensures Between(store, depth, known.Keys, h, known[h]) {
    }
    forall m | m in RawUnion(store, depth, known.Keys) ensures m in MembersOf(known, known.Keys) {
      assert OwnedIn(store, depth, known.Keys, m);
      var h :| h in known && m in Raw(store, depth, h) && m !in AncestorRaw(store, depth, known.Keys, h);
      assert m in known[h].members;
    }
  }

  /** Every build over these heads conserves its members at every point exactly if none is shadowed. */
  lemma ConservesIff(store: Store, depth: Depth, known: Known)
    requires Sound(store, depth, known)
    ensures Unshadowed(store, depth, known.Keys) <==>
            forall k :: Sound(store, depth, k) && k.Keys == known.Keys ==>
              MembersOf(k, k.Keys) == RawUnion(store, depth, k.Keys)
  {
    hide Sound, Raw, AncestorRaw;
    var keys := known.Keys;
    if Unshadowed(store, depth, keys) {
      forall k | Sound(store, depth, k) && k.Keys == keys ensures MembersOf(k, keys) == RawUnion(store, depth, keys) {
        Conserves(store, depth, k);
      }
    }
    CanonicalIsLeast(store, depth, known);
    var least := CanonicalMap(store, depth, keys);
    assert least.Keys == keys;
    if MembersOf(least, keys) == RawUnion(store, depth, keys) {
      forall m | m in RawUnion(store, depth, keys) ensures OwnedIn(store, depth, keys, m) {
        assert m in MembersOf(least, keys);
      }
    }
  }

  /** Every build over these heads leaves each fragment its own head exactly if no ancestor's walk holds it. */
  lemma HeadsStayIff(store: Store, depth: Depth, known: Known)
    requires Sound(store, depth, known)
    ensures (forall h :: h in known ==> h !in AncestorRaw(store, depth, known.Keys, h)) <==>
            forall k, h :: Sound(store, depth, k) && k.Keys == known.Keys && h in k ==> h in k[h].members
  {
    hide Raw, Boundary, Complete, AncestorRaw;
    var keys := known.Keys;
    forall h | h in known ensures h in Raw(store, depth, h) {
      RawClosed(store, depth, h);
    }
    forall k, h | Sound(store, depth, k) && k.Keys == keys && h in k && h !in AncestorRaw(store, depth, keys, h)
      ensures h in k[h].members
    {
      assert Between(store, depth, keys, h, k[h]);
    }
    CanonicalIsLeast(store, depth, known);
    var least := CanonicalMap(store, depth, keys);
    assert least.Keys == keys;
    assert forall h :: h in least ==> (h in least[h].members <==> h !in AncestorRaw(store, depth, keys, h));
  }

  /** Where fragments form no cycles nothing is shadowed. */
  lemma LayeredUnshadowed(store: Store, depth: Depth, known: Known, rank: CommitId -> nat)
    requires Layered(store, depth, rank)
    requires Sound(store, depth, known)
    ensures Unshadowed(store, depth, known.Keys)
  {
    hide Raw, Boundary, Ancestors, Complete;
    var keys, least := known.Keys, CanonicalMap(store, depth, known.Keys);
    CanonicalIsLeast(store, depth, known);
    assert least.Keys == keys;
    forall m | m in RawUnion(store, depth, keys) ensures OwnedIn(store, depth, keys, m) {
      var h :| h in keys && m in Raw(store, depth, h);
      if m in AncestorRaw(store, depth, keys, h) {
        assert Between(store, depth, keys, h, known[h]);
        AncestorsHoldAll(store, depth, least, h, rank);
        var a :| a in Ancestors(store, depth, keys, h) && a in least && m in least[a].members;
      }
    }
  }

  lemma StrippingConserves(store: Store, depth: Depth, known: Known, rank: CommitId -> nat)
    requires Layered(store, depth, rank)
    requires Sound(store, depth, known)
    ensures MembersOf(known, known.Keys) == RawUnion(store, depth, known.Keys)
  {
    hide Sound, Unshadowed, RawUnion;
    LayeredUnshadowed(store, depth, known, rank);
    Conserves(store, depth, known);
  }

  /** In an acyclic history every fragment holds its own head at every point of a build. */
  lemma HeadsStay(store: Store, depth: Depth, known: Known, rank: CommitId -> nat)
    requires Ranked(store, rank)
    requires Sound(store, depth, known)
    ensures forall h :: h in known ==> h in known[h].members
  {
    hide Raw, Boundary, Ancestors, Complete, AncestorRaw;
    forall h | h in known ensures h !in AncestorRaw(store, depth, known.Keys, h) {
      assert Between(store, depth, known.Keys, h, known[h]);
      HeadIsOwn(store, depth, known.Keys, h, rank);
    }
    HeadsStayIff(store, depth, known);
  }

  /** No ancestor fragment holds the head. */
  lemma HeadIsOwn(store: Store, depth: Depth, keys: set<CommitId>, head: CommitId, rank: CommitId -> nat)
    requires Ranked(store, rank) && depth(head) > 0
    ensures head !in AncestorRaw(store, depth, keys, head)
  {
    hide Raw, Boundary, Ancestors;
    AcyclicIsLayered(store, depth, rank);
    if head in AncestorRaw(store, depth, keys, head) {
      var a :| a in Ancestors(store, depth, keys, head) && head in Raw(store, depth, a);
      AncestorsOfAncestor(store, depth, keys, head, a, rank);
      RawRanked(store, depth, a, rank);
      assert false;
    }
  }

  /** Canonical fragments share nothing with the fragments behind them. */
  lemma DisjointFromAncestors(store: Store, depth: Depth, keys: set<CommitId>, head: CommitId, a: CommitId)
    requires a in Ancestors(store, depth, keys, head)
    ensures Canonical(store, depth, keys, head).members !! Canonical(store, depth, keys, a).members
  {
    hide Raw, Boundary, Ancestors;
    forall m | m in Canonical(store, depth, keys, a).members
      ensures m !in Canonical(store, depth, keys, head).members
    {
      assert m in AncestorRaw(store, depth, keys, head);
    }
  }

  ghost function LooseGraph(store: Store, depth: Depth): map<CommitId, set<CommitId>> {
    map x | x in store && depth(x) == 0 :: store[x]
  }

  /** The history above the first fragment heads: what is met through loose commits only. */
  ghost function LooseTop(store: Store, depth: Depth, heads: set<CommitId>): set<CommitId> {
    set x | x in Reach(LooseGraph(store, depth), heads) && depth(x) == 0
  }

  // ----- The sequential driver -----

  /** The fragments the final map holds for heads the driver met, known before or built now. */
  ghost function Met(store: Store, depth: Depth, known0: Known, heads: set<CommitId>): set<CommitId> {
    (known0.Keys + FreshHeads(store, depth, known0, heads, true)) * Discovered(store, depth, known0, heads, true)
  }

  /**
   With complete history, from whatever an earlier build left: every commit
   reachable from the heads is in the loose top or a member of some fragment of the
   final map, and the fragments met on the way hold nothing else.
   */
  lemma BuildCovers(store: Store, depth: Depth, heads: set<CommitId>, known0: Known, known: Known)
    requires Unshadowed(store, depth, known.Keys)
    requires Reach(store, heads) <= store.Keys
    requires Sound(store, depth, known0) && Sound(store, depth, known)
    requires known.Keys == known0.Keys + FreshHeads(store, depth, known0, heads, true)
    ensures Reach(store, heads) <= LooseTop(store, depth, heads) + MembersOf(known, known.Keys)
    ensures Reach(store, heads) ==
            LooseTop(store, depth, heads) + RawUnion(store, depth, Met(store, depth, known0, heads))
  {
    hide Reach, Raw, Sound, Boundary, FreshHeads, LooseTop, Discovered, Unshadowed;
    Conserves(store, depth, known);
    CoveredAbove(store, depth, heads, known0);
    CoveredBelow(store, depth, heads, known0);
  }

  /** From nothing, the loose top and the members make up the history exactly. */
  lemma FirstBuildCovers(store: Store, depth: Depth, heads: set<CommitId>, known: Known)
    requires Unshadowed(store, depth, known.Keys)
    requires Reach(store, heads) <= store.Keys
    requires Sound(store, depth, known)
    requires known.Keys == FreshHeads(store, depth, map[], heads, true)
    ensures Reach(store, heads) == LooseTop(store, depth, heads) + MembersOf(known, known.Keys)
  {
    hide Reach, Raw, Boundary, LooseTop, Discovered, RawUnion, Buildable, AncestorRaw, Unshadowed;
    assert Sound(store, depth, map[]);
    BuildCovers(store, depth, heads, map[], known);
    Conserves(store, depth, known);
    assert Met(store, depth, map[], heads) == known.Keys;
  }

  /** Nothing outside the history of the heads is met. */
  lemma CoveredBelow(store: Store, depth: Depth, heads: set<CommitId>, known0: Known)
    requires Sound(store, depth, known0)
    ensures LooseTop(store, depth, heads) <= Reach(store, heads)
    ensures Discovered(store, depth, known0, heads, true) <= Reach(store, heads)
    ensures RawUnion(store, depth, Met(store, depth, known0, heads)) <= Reach(store, heads)
  {
    hide Reach, Raw, Boundary, Complete, Discovered, Sound;
    var all := Reach(store, heads);
    ReachClosed(store, heads);
    ReachMonotone(LooseGraph(store, depth), heads, store, heads);
    SoundGraph(store, depth, known0);
    forall h | h in all ensures Raw(store, depth, h) + Boundary(store, depth, h) <= all {
      WalkStays(store, depth, h, all);
    }
    DiscoveredLeast(store, depth, known0, heads, true, all);
  }

  /** A walk cannot leave a set closed under parents. */
  lemma WalkStays(store: Store, depth: Depth, head: CommitId, s: set<CommitId>)
    requires head in s && Closed(store, s)
    ensures Raw(store, depth, head) + Boundary(store, depth, head) <= s
  {
    hide Raw;
    forall m, p | m in s && m in store && p in store[m] ensures p in s {
      assert p in Next(store, m);
    }
    RawLeast(store, depth, head, s);
  }

  /** Everything in the history of the heads is covered. */
  lemma CoveredAbove(store: Store, depth: Depth, heads: set<CommitId>, known0: Known)
    requires Reach(store, heads) <= store.Keys
    requires Sound(store, depth, known0)
    ensures Reach(store, heads) <=
            LooseTop(store, depth, heads) + RawUnion(store, depth, Met(store, depth, known0, heads))
  {
    hide Reach, Raw, Boundary, Discovered, Complete, Sound, LooseTop;
    var all, met := Reach(store, heads), Met(store, depth, known0, heads);
    var found := Discovered(store, depth, known0, heads, true);
    ReachClosed(store, heads);
    DiscoveredClosed(store, depth, known0, heads, true);
    CoveredBelow(store, depth, heads, known0);
    LooseTopClosed(store, depth, heads, known0, true);
    SoundGraph(store, depth, known0);
    CompleteHistory(store, depth, heads);
    var s := set x | x in all && x in LooseTop(store, depth, heads) + RawUnion(store, depth, met);
    forall h | h in found && depth(h) > 0 ensures h in s {
      assert h in met;
    }
    forall x, p | x in s && p in Next(store, x) ensures p in s {
      if x !in LooseTop(store, depth, heads) {
        var h :| h in met && x in Raw(store, depth, h);
        RawParents(store, depth, h, x, p);
        if p !in Raw(store, depth, h) {
          assert p in DriverStep(store, depth, known0, true, h);
          BoundariesDeep(store, depth);
        }
      }
    }
    ReachLeast(store, heads, s);
  }

  lemma CompleteHistory(store: Store, depth: Depth, heads: set<CommitId>)
    requires Reach(store, heads) <= store.Keys
    ensures forall h :: h in Reach(store, heads) ==> Complete(store, depth, h) && h in Raw(store, depth, h)
  {
    hide Reach, Raw, Boundary, Complete;
    ReachClosed(store, heads);
    forall h | h in Reach(store, heads) ensures Complete(store, depth, h) && h in Raw(store, depth, h) {
      WalkStays(store, depth, h, Reach(store, heads));
      RawClosed(store, depth, h);
      CompleteWithin(store, depth, h);
    }
  }

  lemma CompleteWithin(store: Store, depth: Depth, head: CommitId)
    requires Raw(store, depth, head) + Boundary(store, depth, head) <= store.Keys
    ensures Complete(store, depth, head)
  {
    hide Raw, Boundary;
  }

  /** Below a loose commit of the top lies more of the top, or something the driver meets; so for the heads. */
  lemma LooseTopClosed(store: Store, depth: Depth, heads: set<CommitId>, known0: Known, pastKnown: bool)
    requires Sound(store, depth, known0)
    ensures var top, found := LooseTop(store, depth, heads), Discovered(store, depth, known0, heads, pastKnown);
            && (forall h :: h in heads && depth(h) == 0 ==> h in top)
            && (forall x, p :: x in top && p in Next(store, x) ==> if depth(p) == 0 then p in top else p in found)
  {
    hide Reach, Discovered;
    var g, found := LooseGraph(store, depth), Discovered(store, depth, known0, heads, pastKnown);
    ReachClosed(g, heads);
    DiscoveredClosed(store, depth, known0, heads, pastKnown);
    forall x, y | x in found && y in Next(g, x) ensures y in found {
      assert y in DriverStep(store, depth, known0, pastKnown, x);
    }
    ReachLeast(g, heads, found);
    forall x, p | x in LooseTop(store, depth, heads) && p in Next(store, x) ensures p in Reach(g, heads) {
      assert p in Next(g, x);
    }
  }

  // ----- The parallel driver -----

  /** What the final map of a parallel build covers, together with the loose top. */
  ghost function ParallelCover(store: Store, depth: Depth, heads: set<CommitId>, known0: Known): set<CommitId> {
    LooseTop(store, depth, heads)
    + RawUnion(store, depth, known0.Keys + FreshHeads(store, depth, known0, heads, false))
  }

  /** The known fragments hold the whole of each other's histories, as far as these are complete. */
  ghost predicate HistoryHeld(store: Store, depth: Depth, known: Known) {
    forall k :: k in known && Reach(store, {k}) <= store.Keys ==>
      Reach(store, {k}) <= RawUnion(store, depth, known.Keys)
  }

  /**
   The parallel driver stops at known fragments.  It covers every complete history
   it is asked for exactly when the known fragments hold their own histories.
   */
  lemma ParallelCoversIff(store: Store, depth: Depth, known0: Known)
    requires Sound(store, depth, known0)
    ensures HistoryHeld(store, depth, known0) <==>
            forall heads :: Reach(store, heads) <= store.Keys ==>
              Reach(store, heads) <= ParallelCover(store, depth, heads, known0)
  {
    hide Reach, Sound, ParallelCover, RawUnion;
    if HistoryHeld(store, depth, known0) {
      forall heads | Reach(store, heads) <= store.Keys
        ensures Reach(store, heads) <= ParallelCover(store, depth, heads, known0)
      {
        ParallelCovers(store, depth, heads, known0);
      }
    }
    if forall heads :: Reach(store, heads) <= store.Keys ==>
         Reach(store, heads) <= ParallelCover(store, depth, heads, known0)
    {
      forall k | k in known0 && Reach(store, {k}) <= store.Keys
        ensures Reach(store, {k}) <= RawUnion(store, depth, known0.Keys)
      {
        NothingPastKnown(store, depth, known0, k);
      }
    }
  }

  lemma NothingPastKnown(store: Store, depth: Depth, known0: Known, k: CommitId)
    requires Sound(store, depth, known0) && k in known0
    ensures ParallelCover(store, depth, {k}, known0) == RawUnion(store, depth, known0.Keys)
  {
    hide Reach, Sound, Discovered, RawUnion;
    DiscoveredClosed(store, depth, known0, {k}, false);
    DiscoveredLeast(store, depth, known0, {k}, false, {k});
    ReachLeast(LooseGraph(store, depth), {k}, {k});
    assert FreshHeads(store, depth, known0, {k}, false) == {};
    assert known0.Keys + {} == known0.Keys;
    assert LooseTop(store, depth, {k}) == {};
  }

  lemma ParallelCovers(store: Store, depth: Depth, heads: set<CommitId>, known0: Known)
    requires Sound(store, depth, known0) && HistoryHeld(store, depth, known0)
    requires Reach(store, heads) <= store.Keys
    ensures Reach(store, heads) <= ParallelCover(store, depth, heads, known0)
  {
    hide Reach, Raw, Boundary, Discovered, Complete, Sound, LooseTop, RawUnion, DriverStep;
    var all, news := Reach(store, heads), FreshHeads(store, depth, known0, heads, false);
    var found, top := Discovered(store, depth, known0, heads, false), LooseTop(store, depth, heads);
    ReachClosed(store, heads);
    DiscoveredClosed(store, depth, known0, heads, false);
    LooseTopClosed(store, depth, heads, known0, false);
    CompleteHistory(store, depth, heads);
    ParallelStays(store, depth, heads, known0);
    var built := RawUnion(store, depth, news);
    var held := set k, x | k in known0 && k in found && x in Reach(store, {k}) :: x;
    var s := set x | x in all && x in top + built + held;
    forall h | h in found && depth(h) > 0 ensures h in s {
      if h in known0 {
        ReachClosed(store, {h});
        assert h in Reach(store, {h});
      } else {
        assert h in news;
        HeadInUnion(store, depth, news, h);
      }
    }
    forall x, p | x in s && p in Next(store, x) ensures p in s {
      assert p in all;
      if x !in top && x in built {
        BelowBuilt(store, depth, heads, known0, x, p);
      } else if x !in top {
        var k :| k in known0 && k in found && x in Reach(store, {k});
        ReachClosed(store, {k});
        assert p in Reach(store, {k});
      }
    }
    ReachLeast(store, heads, s);
    forall k | k in known0 && k in found ensures Reach(store, {k}) <= RawUnion(store, depth, known0.Keys) {
      ReachTransitive(store, heads, {k});
    }
    RawUnionAdds(store, depth, known0.Keys, news);
  }

  /** Below a commit of a fragment just built lies another, or a deep commit the driver meets. */
  lemma BelowBuilt(store: Store, depth: Depth, heads: set<CommitId>, known0: Known, x: CommitId, p: CommitId)
    requires Sound(store, depth, known0)
    requires x in RawUnion(store, depth, FreshHeads(store, depth, known0, heads, false)) && p in Next(store, x)
    ensures p in RawUnion(store, depth, FreshHeads(store, depth, known0, heads, false))
            || (p in Discovered(store, depth, known0, heads, false) && depth(p) > 0)
  {
    hide Raw, Boundary, Discovered, Complete, Sound, RawUnion;
    var news := FreshHeads(store, depth, known0, heads, false);
    var h := HolderIn(store, depth, news, x);
    DiscoveredClosed(store, depth, known0, heads, false);
    RawParents(store, depth, h, x, p);
    if p in Raw(store, depth, h) {
      MemberHeld(store, depth, news, h, p);
    } else {
      assert p in DriverStep(store, depth, known0, false, h);
      BoundariesDeep(store, depth);
    }
  }

  lemma ParallelStays(store: Store, depth: Depth, heads: set<CommitId>, known0: Known)
    ensures Discovered(store, depth, known0, heads, false) <= Reach(store, heads)
  {
    hide Reach, Raw, Boundary, Complete, Discovered;
    var all := Reach(store, heads);
    ReachClosed(store, heads);
    forall h | h in all ensures Boundary(store, depth, h) <= all {
      WalkStays(store, depth, h, all);
    }
    DiscoveredLeast(store, depth, known0, heads, false, all);
  }

  lemma MemberHeld(store: Store, depth: Depth, heads: set<CommitId>, h: CommitId, m: CommitId)
    requires h in heads && m in Raw(store, depth, h)
    ensures m in RawUnion(store, depth, heads)
  {
    hide Raw;
  }

  lemma HolderIn(store: Store, depth: Depth, heads: set<CommitId>, m: CommitId) returns (h: CommitId)
    requires m in RawUnion(store, depth, heads)
    ensures h in heads && m in Raw(store, depth, h)
  {
    hide Raw;
    h :| h in heads && m in Raw(store, depth, h);
  }

  /** Where no parent is missing, known fragments hold their histories exactly if they hold their boundaries. */
  lemma HistoryHeldIff(store: Store, depth: Depth, known: Known)
    requires Sound(store, depth, known)
    requires forall x :: x in store ==> store[x] <= store.Keys
    ensures HistoryHeld(store, depth, known) <==>
            forall k :: k in known ==> Boundary(store, depth, k) <= RawUnion(store, depth, known.Keys)
  {
    hide Reach, Raw, Boundary, RawUnion;
    var held := RawUnion(store, depth, known.Keys);
    forall k | k in known
      ensures Reach(store, {k}) <= store.Keys && Boundary(store, depth, k) <= Reach(store, {k})
    {
      assert Between(store, depth, known.Keys, k, known[k]);
      RawClosed(store, depth, k);
      ReachLeast(store, {k}, store.Keys);
      ReachClosed(store, {k});
      WalkStays(store, depth, k, Reach(store, {k}));
    }
    if forall k :: k in known ==> Boundary(store, depth, k) <= held {
      forall x, p | x in held && p in Next(store, x) ensures p in held {
        var k := HolderIn(store, depth, known.Keys, x);
        RawParents(store, depth, k, x, p);
        if p in Raw(store, depth, k) {
          MemberHeld(store, depth, known.Keys, k, p);
        }
      }
      forall k | k in known ensures Reach(store, {k}) <= held {
        HeadInUnion(store, depth, known.Keys, k);
        ReachLeast(store, {k}, held);
      }
    }
  }

  /** Behind a known fragment the parallel driver leaves history uncovered that the sequential one covers. */
  lemma ParallelLeavesUncovered(k: CommitId, b: CommitId)
    requires k != b
    ensures var known := map[k := FragmentState(k, {k}, {}, map[b := {}])];
            && Sound(Pair(k, b), FLAT, known)
            && b in Reach(Pair(k, b), {k}) && Reach(Pair(k, b), {k}) <= Pair(k, b).Keys
            && b !in ParallelCover(Pair(k, b), FLAT, {k}, known)
            && b in RawUnion(Pair(k, b), FLAT, known.Keys + FreshHeads(Pair(k, b), FLAT, known, {k}, true))
  {
    hide Reach, Raw, Sound, FreshHeads, ParallelCover, Boundary;
    var store, known := Pair(k, b), map[k := FragmentState(k, {k}, {}, map[b := {}])];
    ParallelStopsAtKnown(k, b);
    PairWalks(k, b);
    ReachClosed(store, {k});
    assert b in Next(store, k);
    ReachLeast(store, {k}, {k, b});
    NothingPastKnown(store, FLAT, known, k);
    assert known.Keys == {k};
  }
}
