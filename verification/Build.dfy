/**
 Building a whole fragment store: the canonical form of its fragments, the
 mutating post-pass that reaches it, and the sequential driver
 (`build_fragment_store`, `retain_members`, `transitive_ancestor_members` in
 sedimentree_core/src/commit.rs).
 */
module Build {
  import opened Graph
  import opened Ids
  import opened Walk

  // ----- The canonical form -----

  ghost function BoundaryGraph(store: Store, depth: Depth, keys: set<CommitId>): map<CommitId, set<CommitId>> {
    map k | k in keys :: Boundary(store, depth, k)
  }

  /** The fragments headed in `keys` that lie behind `head`, along chains of boundary commits. */
  ghost function Ancestors(store: Store, depth: Depth, keys: set<CommitId>, head: CommitId): set<CommitId> {
    keys * Reach(BoundaryGraph(store, depth, keys), Boundary(store, depth, head))
  }

  ghost function RawUnion(store: Store, depth: Depth, heads: set<CommitId>): set<CommitId> {
    set a, m | a in heads && m in Raw(store, depth, a) :: m
  }

  ghost function AncestorRaw(store: Store, depth: Depth, keys: set<CommitId>, head: CommitId): set<CommitId> {
    RawUnion(store, depth, Ancestors(store, depth, keys, head))
  }

  /** The raw walk less the raw walks of all transitive ancestor fragments. */
  ghost function Canonical(store: Store, depth: Depth, keys: set<CommitId>, head: CommitId): FragmentState {
    Stripped(store, depth, head, AncestorRaw(store, depth, keys, head))
  }

  /**
   A state somewhere between the raw walk and the canonical form: nothing is gone
   that no ancestor holds, and checkpoints are stripped alike.
   */
  ghost predicate Between(store: Store, depth: Depth, keys: set<CommitId>, head: CommitId, state: FragmentState) {
    && depth(head) > 0 && Complete(store, depth, head)
    && state.headId == head
    && state.boundary == BoundaryNodes(store, depth, head)
    && state.members <= Raw(store, depth, head)
    && Raw(store, depth, head) - AncestorRaw(store, depth, keys, head) <= state.members
    && state.checkpoints == RawCheckpoints(store, depth, head) * state.members
  }

  /** What one build may assume of the states an earlier build left behind. */
  ghost predicate Sound(store: Store, depth: Depth, known: Known) {
    forall h :: h in known ==> Between(store, depth, known.Keys, h, known[h])
  }

  // ----- Histories grow between builds -----

  /** Nothing is lost from the history and no commit changes its parents. */
  ghost predicate Extends(store: Store, store': Store) {
    forall x :: x in store ==> x in store' && store'[x] == store[x]
  }

  /** A complete walk is the same walk in every longer history. */
  lemma WalkGrows(store: Store, store': Store, depth: Depth, head: CommitId)
    requires Extends(store, store') && Complete(store, depth, head)
    ensures Raw(store', depth, head) == Raw(store, depth, head)
    ensures Boundary(store', depth, head) == Boundary(store, depth, head)
    ensures BoundaryNodes(store', depth, head) == BoundaryNodes(store, depth, head)
    ensures Complete(store', depth, head)
  {
    hide Raw;
    RawClosed(store, depth, head);
    RawClosed(store', depth, head);
    RawLeast(store', depth, head, Raw(store, depth, head));
    RawLeast(store, depth, head, Raw(store', depth, head));
  }

  /** What a build left behind stays sound as the history grows, so every later build may start from it. */
  lemma SoundGrows(store: Store, store': Store, depth: Depth, known: Known)
    requires Extends(store, store') && Sound(store, depth, known)
    ensures Sound(store', depth, known)
  {
    hide Raw, Boundary, Reach, Extends;
    var keys := known.Keys;
    forall h | h in keys
      ensures Raw(store', depth, h) == Raw(store, depth, h)
      ensures Boundary(store', depth, h) == Boundary(store, depth, h)
      ensures Between(store, depth, keys, h, known[h])
    {
      assert Between(store, depth, keys, h, known[h]);
      WalkGrows(store, store', depth, h);
    }
    assert BoundaryGraph(store', depth, keys) == BoundaryGraph(store, depth, keys);
    forall h | h in keys ensures Between(store', depth, keys, h, known[h]) {
      WalkGrows(store, store', depth, h);
      assert Ancestors(store', depth, keys, h) == Ancestors(store, depth, keys, h);
      assert AncestorRaw(store', depth, keys, h) == AncestorRaw(store, depth, keys, h);
    }
  }

  lemma RawUnionAdds(store: Store, depth: Depth, x: set<CommitId>, y: set<CommitId>)
    ensures RawUnion(store, depth, x + y) == RawUnion(store, depth, x) + RawUnion(store, depth, y)
  {
    hide Raw;
  }

  lemma HeadInUnion(store: Store, depth: Depth, heads: set<CommitId>, h: CommitId)
    requires h in heads
    ensures h in RawUnion(store, depth, heads)
  {
    hide Raw;
    RawClosed(store, depth, h);
  }

  lemma AncestorsMonotone(store: Store, depth: Depth, keys: set<CommitId>, keys': set<CommitId>, head: CommitId)
    requires keys <= keys'
    ensures Ancestors(store, depth, keys, head) <= Ancestors(store, depth, keys', head)
    ensures AncestorRaw(store, depth, keys, head) <= AncestorRaw(store, depth, keys', head)
  {
    hide Reach, Raw, Boundary;
    var b := Boundary(store, depth, head);
    ReachMonotone(BoundaryGraph(store, depth, keys), b, BoundaryGraph(store, depth, keys'), b);
  }

  /** Fragments do not form cycles: boundary commits rank below the head they belong to. */
  ghost predicate Layered(store: Store, depth: Depth, rank: CommitId -> nat) {
    forall h, b :: depth(h) > 0 && b in Boundary(store, depth, h) ==> rank(b) < rank(h)
  }

  /** So it is in every acyclic history, and in many a cyclic one. */
  lemma AcyclicIsLayered(store: Store, depth: Depth, rank: CommitId -> nat)
    requires Ranked(store, rank)
    ensures Layered(store, depth, rank)
  {
    hide Raw, Boundary;
    forall h, b | depth(h) > 0 && b in Boundary(store, depth, h) ensures rank(b) < rank(h) {
      RawRanked(store, depth, h, rank);
    }
  }

  /** Ancestry is transitive, and never leads back up. */
  lemma AncestorsOfAncestor(store: Store, depth: Depth, keys: set<CommitId>, head: CommitId, a: CommitId,
                            rank: CommitId -> nat)
    requires Layered(store, depth, rank)
    requires a in Ancestors(store, depth, keys, head) && depth(head) > 0
    ensures Ancestors(store, depth, keys, a) <= Ancestors(store, depth, keys, head)
    ensures rank(a) < rank(head)
  {
    hide Reach, Boundary;
    var g, b := BoundaryGraph(store, depth, keys), Boundary(store, depth, head);
    BoundariesDeep(store, depth);
    ReachClosed(g, b);
    assert g[a] == Boundary(store, depth, a);
    ReachTransitive(g, b, Boundary(store, depth, a));
    ReachLeast(g, b, set x | x in Reach(g, b) && depth(x) > 0 && rank(x) < rank(head));
  }

  lemma BoundariesDeep(store: Store, depth: Depth)
    ensures forall h, b :: b in Boundary(store, depth, h) ==> depth(b) >= depth(h)
  {
    hide Raw;
  }

  /**
   However far the stripping has come, the ancestors of a fragment together still
   hold every raw member of every ancestor: what one has lost, a later one has.
   */
  lemma AncestorsHoldAll(store: Store, depth: Depth, known: Known, head: CommitId, rank: CommitId -> nat)
    requires Layered(store, depth, rank)
    requires Sound(store, depth, known) && depth(head) > 0
    ensures MembersOf(known, Ancestors(store, depth, known.Keys, head)) == AncestorRaw(store, depth, known.Keys, head)
  {
    hide Reach, Raw, Boundary;
    var anc := Ancestors(store, depth, known.Keys, head);
    forall a, m | a in anc && m in Raw(store, depth, a)
      ensures m in MembersOf(known, anc)
    {
      HolderOf(store, depth, known, head, a, m, rank);
    }
  }

  lemma {:induction false} HolderOf(store: Store, depth: Depth, known: Known, head: CommitId, a: CommitId, m: CommitId,
                                    rank: CommitId -> nat)
    requires Layered(store, depth, rank)
    requires Sound(store, depth, known)
    requires a in Ancestors(store, depth, known.Keys, head) && m in Raw(store, depth, a) && depth(head) > 0
    ensures exists h :: h in Ancestors(store, depth, known.Keys, head) && m in known[h].members
    decreases rank(a)
  {
    hide Reach, Raw, Boundary, BoundaryNodes, RawCheckpoints, Complete;
    if m !in known[a].members {
      assert Between(store, depth, known.Keys, a, known[a]);
      var a' :| a' in Ancestors(store, depth, known.Keys, a) && m in Raw(store, depth, a');
      AncestorsOfAncestor(store, depth, known.Keys, head, a, rank);
      AncestorsOfAncestor(store, depth, known.Keys, a, a', rank);
      HolderOf(store, depth, known, head, a', m, rank);
    }
  }

  // ----- The post-pass -----

  ghost function KnownGraph(known: Known): map<CommitId, set<CommitId>> {
    map k | k in known :: known[k].boundary.Keys
  }

  /** Walk the boundary chain through `known`, collecting members of the fragments met. */
  method TransitiveAncestorMembers(state: FragmentState, known: Known) returns (acc: set<CommitId>)
    ensures acc == MembersOf(known, Reach(KnownGraph(known), state.boundary.Keys))
  {
    hide Reach;
    ghost var g, roots := KnownGraph(known), state.boundary.Keys;
    ghost var all := Reach(g, roots);
    ReachClosed(g, roots);
    acc := {};
    var seen := {};
    var toVisit := Arrange(state.boundary.Keys);
    while toVisit != []
      invariant seen <= all && forall b :: b in toVisit ==> b in all
      invariant forall b :: b in roots ==> b in seen || b in toVisit
      invariant forall b, n :: b in seen && n in Next(g, b) ==> n in seen || n in toVisit
      invariant acc == MembersOf(known, seen)
      decreases all - seen, |toVisit|
    {
      var b := toVisit[|toVisit| - 1];
      LastOrBefore(toVisit);
      toVisit := toVisit[..|toVisit| - 1];
      if b in seen {
        continue;
      }
      seen := seen + {b};
      if b in known {
        acc := acc + known[b].members;
        var more := Arrange(known[b].boundary.Keys);
        assert Next(g, b) == known[b].boundary.Keys;
        toVisit := toVisit + more;
      }
    }
    ReachLeast(g, roots, seen);
  }

  /** Drop the given commits from members and checkpoints. */
  function Retain(state: FragmentState, gone: set<CommitId>): FragmentState {
    state.(members := state.members - gone, checkpoints := state.checkpoints - gone)
  }

  lemma SoundGraph(store: Store, depth: Depth, known: Known)
    requires Sound(store, depth, known)
    ensures KnownGraph(known) == BoundaryGraph(store, depth, known.Keys)
    ensures forall h :: h in known ==> known[h].boundary.Keys == Boundary(store, depth, h)
  {
    hide Complete, Raw, Boundary, BoundaryNodes, AncestorRaw, RawCheckpoints;
    forall h | h in known ensures known[h].boundary.Keys == Boundary(store, depth, h) {
      assert Between(store, depth, known.Keys, h, known[h]);
      CompleteBoundary(store, depth, h);
    }
  }

  /** One post-pass step. */
  ghost function Stripping(known: Known, head: CommitId): Known
    requires head in known
  {
    known[head := Retain(known[head], MembersOf(known, Reach(KnownGraph(known), known[head].boundary.Keys)))]
  }

  /** A step takes away what the ancestors hold, and on any store it leaves the map sound. */
  lemma StrippingStaysSound(store: Store, depth: Depth, known: Known, head: CommitId)
    requires Sound(store, depth, known) && head in known
    ensures var gone := MembersOf(known, Ancestors(store, depth, known.Keys, head));
            && Stripping(known, head) == known[head := Retain(known[head], gone)]
            && gone <= AncestorRaw(store, depth, known.Keys, head)
    ensures Sound(store, depth, Stripping(known, head))
  {
    hide Reach, Raw, Boundary;
    var keys := known.Keys;
    SoundGraph(store, depth, known);
    var reach := Reach(BoundaryGraph(store, depth, keys), Boundary(store, depth, head));
    assert MembersOf(known, reach) == MembersOf(known, keys * reach);
    forall h | h in keys ensures Between(store, depth, keys, h, known[h]) {
    }
    var known' := Stripping(known, head);
    assert known'.Keys == keys;
    forall h | h in known' ensures Between(store, depth, keys, h, known'[h]) {
    }
  }

  ghost function CanonicalMap(store: Store, depth: Depth, keys: set<CommitId>): Known {
    map h | h in keys :: Canonical(store, depth, keys, h)
  }

  /** In a sound map states are filed by head, and checkpoints are the deep members left besides it. */
  lemma SoundStates(store: Store, depth: Depth, known: Known)
    requires Sound(store, depth, known)
    ensures forall h :: h in known ==> known[h].headId == h
    ensures forall h :: h in known ==>
              known[h].checkpoints == set m | m in known[h].members && m != h && depth(m) > 0
  {
    hide Raw, Complete, BoundaryNodes, AncestorRaw;
    forall h | h in known ensures Between(store, depth, known.Keys, h, known[h]) {
    }
  }

  /** The canonical states together are sound, and no sound map over the same heads holds less. */
  lemma CanonicalIsLeast(store: Store, depth: Depth, known: Known)
    requires Sound(store, depth, known)
    ensures Sound(store, depth, CanonicalMap(store, depth, known.Keys))
    ensures forall h :: h in known ==> CanonicalMap(store, depth, known.Keys)[h].members <= known[h].members
  {
    hide Raw, Boundary, AncestorRaw;
    var keys := known.Keys;
    forall h | h in known
      ensures Between(store, depth, keys, h, Canonical(store, depth, keys, h))
      ensures Canonical(store, depth, keys, h).members <= known[h].members
    {
      assert Between(store, depth, keys, h, known[h]);
    }
    assert CanonicalMap(store, depth, keys).Keys == keys;
  }

  /**
   The step at `head` can be relied on: the fragment is its own ancestor, or even
   stripped to the limit its ancestors hold all that it shares with them.
   */
  ghost predicate Settles(store: Store, depth: Depth, keys: set<CommitId>, head: CommitId) {
    var anc := Ancestors(store, depth, keys, head);
    || head in anc
    || Raw(store, depth, head) * AncestorRaw(store, depth, keys, head) <=
       MembersOf(CanonicalMap(store, depth, keys), anc)
  }

  /** Then the step lands on the canonical form, from any point on the way. */
  lemma RetainIsCanonical(store: Store, depth: Depth, known: Known, head: CommitId)
    requires Sound(store, depth, known) && head in known
    requires Settles(store, depth, known.Keys, head)
    ensures Stripping(known, head)[head] == Canonical(store, depth, known.Keys, head)
  {
    hide Reach, Raw, Boundary, Ancestors;
    var keys, anc := known.Keys, Ancestors(store, depth, known.Keys, head);
    var gone := MembersOf(known, anc);
    StrippingStaysSound(store, depth, known, head);
    CanonicalIsLeast(store, depth, known);
    assert Between(store, depth, keys, head, known[head]);
    if head in anc {
      assert Raw(store, depth, head) <= AncestorRaw(store, depth, keys, head);
      assert known[head].members <= gone;
    } else {
      assert MembersOf(CanonicalMap(store, depth, keys), anc) <= gone by { LessHoldsLess(store, depth, known, anc); }
    }
  }

  lemma LessHoldsLess(store: Store, depth: Depth, known: Known, heads: set<CommitId>)
    requires Sound(store, depth, known)
    ensures MembersOf(CanonicalMap(store, depth, known.Keys), heads) <= MembersOf(known, heads)
  {
    hide Canonical, Sound;
    CanonicalIsLeast(store, depth, known);
  }

  /** And only then: it lands there from every sound map over these heads exactly if the head settles. */
  lemma RetainIsCanonicalIff(store: Store, depth: Depth, known: Known, head: CommitId)
    requires Sound(store, depth, known) && head in known
    ensures Settles(store, depth, known.Keys, head) <==>
            forall k :: Sound(store, depth, k) && k.Keys == known.Keys ==>
              Stripping(k, head)[head] == Canonical(store, depth, known.Keys, head)
  {
    hide Sound, Settles, Canonical, Reach, MembersOf, KnownGraph;
    var keys := known.Keys;
    if Settles(store, depth, keys, head) {
      forall k | Sound(store, depth, k) && k.Keys == keys
        ensures Stripping(k, head)[head] == Canonical(store, depth, keys, head)
      {
        RetainIsCanonical(store, depth, k, head);
      }
    } else {
      var k := MissesCanonical(store, depth, known, head);
    }
  }

  /** Strip everything else to the limit first, and an unsettled head keeps something its ancestors once held. */
  lemma MissesCanonical(store: Store, depth: Depth, known: Known, head: CommitId) returns (k: Known)
    requires Sound(store, depth, known) && head in known
    requires !Settles(store, depth, known.Keys, head)
    ensures Sound(store, depth, k) && k.Keys == known.Keys
    ensures Stripping(k, head)[head] != Canonical(store, depth, known.Keys, head)
  {
    hide Reach, Raw, Boundary, Ancestors;
    var keys, anc := known.Keys, Ancestors(store, depth, known.Keys, head);
    var least := CanonicalMap(store, depth, keys);
    CanonicalIsLeast(store, depth, known);
    assert Between(store, depth, keys, head, known[head]);
    k := least[head := Stripped(store, depth, head, {})];
    assert k.Keys == keys;
    forall h | h in k ensures Between(store, depth, keys, h, k[h]) {
      assert Between(store, depth, keys, h, least[h]);
    }
    assert MembersOf(k, anc) == MembersOf(least, anc);
    StrippingStaysSound(store, depth, k, head);
    var m :| m in Raw(store, depth, head) * AncestorRaw(store, depth, keys, head) && m !in MembersOf(least, anc);
    assert m in Stripping(k, head)[head].members;
  }

  /** Where fragments form no cycles, every head settles. */
  lemma LayeredSettles(store: Store, depth: Depth, known: Known, rank: CommitId -> nat)
    requires Layered(store, depth, rank)
    requires Sound(store, depth, known)
    ensures forall h :: h in known ==> Settles(store, depth, known.Keys, h)
  {
    hide Raw, Boundary, Ancestors, AncestorRaw, Canonical;
    CanonicalIsLeast(store, depth, known);
    assert CanonicalMap(store, depth, known.Keys).Keys == known.Keys;
    forall h | h in known ensures Settles(store, depth, known.Keys, h) {
      assert Between(store, depth, known.Keys, h, known[h]);
      AncestorsHoldAll(store, depth, CanonicalMap(store, depth, known.Keys), h, rank);
    }
  }

  /**
   The post-pass over a list of heads, which may repeat.  It mutates one state at
   a time and reads states it has already stripped; every listed fragment that
   settles nevertheless ends in its canonical form, and no other state changes.
   */
  method StripAncestors(known0: Known, heads: seq<CommitId>, ghost store: Store, ghost depth: Depth)
    returns (known: Known)
    requires Sound(store, depth, known0)
    requires forall h :: h in heads ==> h in known0
    ensures known.Keys == known0.Keys && Sound(store, depth, known)
    ensures forall h :: h in known && h !in heads ==> known[h] == known0[h]
    ensures forall h :: h in heads && Settles(store, depth, known.Keys, h) ==>
              known[h] == Canonical(store, depth, known.Keys, h)
  {
    hide Reach, Sound, Canonical, KnownGraph, MembersOf, Settles;
    known := known0;
    for i := 0 to |heads|
      invariant known.Keys == known0.Keys && Sound(store, depth, known)
      invariant forall h :: h in known && h !in heads[..i] ==> known[h] == known0[h]
      invariant forall h :: h in heads[..i] && Settles(store, depth, known.Keys, h) ==>
                  known[h] == Canonical(store, depth, known.Keys, h)
    {
      var head := heads[i];
      var gone := TransitiveAncestorMembers(known[head], known);
      StrippingStaysSound(store, depth, known, head);
      if Settles(store, depth, known.Keys, head) {
        RetainIsCanonical(store, depth, known, head);
      }
      if gone != {} {
        known := known[head := Retain(known[head], gone)];
      } else {
        assert Retain(known[head], gone) == known[head];
      }
      assert forall h :: h in heads[..i + 1] <==> h in heads[..i] || h == head;
    }
  }

  // ----- The sequential driver -----

  /** Heads that a build would construct a fragment for. */
  ghost predicate Buildable(store: Store, depth: Depth, known: Known, h: CommitId) {
    h !in known && depth(h) > 0 && Complete(store, depth, h)
  }

  /**
   Where a driver looks next from `h`: past loose commits to their parents, past a
   complete fragment to its boundary, and nowhere from an incomplete one.  Drivers
   differ in whether they look past fragments that were known beforehand.
   */
  ghost function DriverStep(store: Store, depth: Depth, known: Known, pastKnown: bool, h: CommitId): set<CommitId> {
    if h in known then
      if pastKnown then known[h].boundary.Keys else {}
    else if depth(h) == 0 then Next(store, h)
    else if Complete(store, depth, h) then Boundary(store, depth, h)
    else {}
  }

  ghost function DriverGraph(store: Store, depth: Depth, known: Known, pastKnown: bool): map<CommitId, set<CommitId>> {
    map h | h in store.Keys + known.Keys :: DriverStep(store, depth, known, pastKnown, h)
  }

  lemma DriverNext(store: Store, depth: Depth, known: Known, pastKnown: bool, h: CommitId)
    ensures Next(DriverGraph(store, depth, known, pastKnown), h) == DriverStep(store, depth, known, pastKnown, h)
  {
    if h !in store.Keys + known.Keys && Complete(store, depth, h) {
      RawClosed(store, depth, h);
    }
  }

  ghost function Discovered(store: Store, depth: Depth, known: Known, heads: set<CommitId>,
                            pastKnown: bool): set<CommitId> {
    Reach(DriverGraph(store, depth, known, pastKnown), heads)
  }

  ghost function FreshHeads(store: Store, depth: Depth, known: Known, heads: set<CommitId>,
                            pastKnown: bool): set<CommitId> {
    set h | h in Discovered(store, depth, known, heads, pastKnown) && Buildable(store, depth, known, h)
  }

  /** A fresh walk, stripped against its known direct boundary, may join the map. */
  lemma FreshIsSound(store: Store, depth: Depth, known: Known, read: Known, head: CommitId, state: FragmentState)
    requires Sound(store, depth, known) && Sound(store, depth, read) && read.Keys <= known.Keys
    requires depth(head) > 0 && Complete(store, depth, head)
    requires head in known ==> known[head] == state
    requires state == Stripped(store, depth, head, MembersOf(read, Boundary(store, depth, head)))
    ensures Sound(store, depth, known[head := state])
  {
    hide Reach, Raw, Boundary;
    var known', keys' := known[head := state], known.Keys + {head};
    assert known'.Keys == keys';
    var b := Boundary(store, depth, head);
    ReachClosed(BoundaryGraph(store, depth, keys'), b);
    forall m | m in MembersOf(read, b) ensures m in AncestorRaw(store, depth, keys', head) {
      var a :| a in b && a in read && m in read[a].members;
      assert Between(store, depth, read.Keys, a, read[a]);
      assert a in Ancestors(store, depth, keys', head);
    }
    forall h | h in known' ensures Between(store, depth, keys', h, known'[h]) {
      if h != head {
        assert Between(store, depth, known.Keys, h, known[h]);
        AncestorsMonotone(store, depth, known.Keys, keys', h);
      }
    }
  }

  /** One head of the sequential driver: build its fragment if there is one to build, and look past it. */
  method Visit(store: Store, head: CommitId, known0: Known, depth: Depth) returns (known: Known, next: seq<CommitId>)
    requires Sound(store, depth, known0)
    ensures Sound(store, depth, known)
    ensures forall h :: h in known <==> h in known0 || (h == head && Buildable(store, depth, known0, h))
    ensures forall h :: h in known0 ==> known[h] == known0[h]
    ensures forall n :: n in next <==> n in DriverStep(store, depth, known0, true, head)
  {
    hide Reach, Raw, Complete, Boundary, BoundaryNodes, MembersOf, Sound;
    known, next := known0, [];
    if head in known {
      next := Arrange(known[head].boundary.Keys);
    } else if depth(head) == 0 {
      if head in store {
        next := Arrange(store[head]);
      }
    } else {
      var r := CutFragment(store, head, known, depth);
      if r.Built? {
        FreshIsSound(store, depth, known, known, head, r.state);
        CompleteBoundary(store, depth, head);
        next := Arrange(r.state.boundary.Keys);
        known := known[head := r.state];
      }
    }
  }

  /** The discovery loop of the sequential driver. */
  method Discover(store: Store, heads: seq<CommitId>, known0: Known, depth: Depth)
    returns (known: Known, created: seq<CommitId>)
    requires Sound(store, depth, known0)
    ensures Sound(store, depth, known)
    ensures forall h :: h in created <==> h in FreshHeads(store, depth, known0, set x | x in heads, true)
    ensures forall i, j :: 0 <= i < j < |created| ==> created[i] != created[j]
    ensures forall h :: h in known <==> h in known0 || h in created
    ensures forall h :: h in known0 ==> known[h] == known0[h] && h !in created
  {
    hide Reach, Complete, Boundary, Sound, DriverGraph;
    ghost var roots := set x | x in heads;
    ghost var g := DriverGraph(store, depth, known0, true);
    ghost var all := Reach(g, roots);
    ReachClosed(g, roots);
    known, created := known0, [];
    var queue, visited := heads, {};
    while queue != []
      invariant visited <= all && forall h :: h in queue ==> h in all
      invariant forall h :: h in roots ==> h in visited || h in queue
      invariant forall h, n :: h in visited && n in Next(g, h) ==> n in visited || n in queue
      invariant Sound(store, depth, known)
      invariant forall h :: h in created <==> h in visited && Buildable(store, depth, known0, h)
      invariant forall i, j :: 0 <= i < j < |created| ==> created[i] != created[j]
      invariant forall h :: h in known <==> h in known0 || h in created
      invariant forall h :: h in known0 ==> known[h] == known0[h]
      decreases all - visited, |queue|
    {
      var head := queue[|queue| - 1];
      LastOrBefore(queue);
      queue := queue[..|queue| - 1];
      if head in visited {
        continue;
      }
      visited := visited + {head};
      DriverNext(store, depth, known0, true, head);
      var isNew, next := head !in known, [];
      known, next := Visit(store, head, known, depth);
      queue := queue + next;
      if isNew && head in known {
        created := created + [head];
      }
    }
    ReachLeast(g, roots, visited);
  }

  /**
   The sequential build.  For every order of the worklist: the fresh heads are
   the complete ones the driver can reach, each that settles ends in canonical form
   with respect to the final map, and the states known beforehand are untouched.
   */
  method BuildFragmentStore(store: Store, heads: seq<CommitId>, known0: Known, depth: Depth)
    returns (known: Known, created: seq<FragmentState>)
    requires Sound(store, depth, known0)
    ensures Sound(store, depth, known)
    ensures known.Keys == known0.Keys + FreshHeads(store, depth, known0, set x | x in heads, true)
    ensures forall h :: h in known0 ==> known[h] == known0[h]
    ensures forall h :: h in known && h !in known0 && Settles(store, depth, known.Keys, h) ==>
              known[h] == Canonical(store, depth, known.Keys, h)
    ensures forall h :: h in known ==> known[h].headId == h
    ensures forall h :: h in known ==>
              known[h].checkpoints == set m | m in known[h].members && m != h && depth(m) > 0
    ensures forall s :: s in created <==> exists h :: h in known && h !in known0 && s == known[h]
    ensures forall i, j :: 0 <= i < j < |created| ==> created[i].headId != created[j].headId
  {
    hide Sound, Canonical, FreshHeads, Settles;
    var freshHeads;
    known, freshHeads := Discover(store, heads, known0, depth);
    known := StripAncestors(known, freshHeads, store, depth);
    SoundStates(store, depth, known);
    created := seq(|freshHeads|, i requires 0 <= i < |freshHeads| => known[freshHeads[i]]);
    forall s ensures s in created <==> exists h :: h in known && h !in known0 && s == known[h] {
      if h :| h in known && h !in known0 && s == known[h] {
        var i :| 0 <= i < |freshHeads| && freshHeads[i] == h;
        assert created[i] == s;
      }
    }
  }
}
