/**
 Peers as the drivers and minimizations really leave them: their fragments are
 stripped, and the payload of each holds only part of its walk.
 */
module Payloads {
  import opened Graph
  import opened Ids
  import opened Walk
  import opened Build
  import opened Coverage
  import opened Strata
  import opened Trees
  import opened KeepSets
  import opened Simplify
  import opened Minimize
  import opened Sync
  import opened Convergence

  // ----- Who holds what -----

  /** Deeper, or as deep and further down the history. */
  ghost predicate Behind(depth: Depth, rank: CommitId -> nat, k: CommitId, y: CommitId) {
    depth(k) > depth(y) || (depth(k) == depth(y) && rank(k) < rank(y))
  }

  ghost function AllBehind(depth: Depth, rank: CommitId -> nat, keys: set<CommitId>, y: CommitId): set<CommitId> {
    set k | k in keys && Behind(depth, rank, k, y)
  }

  lemma BehindShrinks(depth: Depth, rank: CommitId -> nat, keys: set<CommitId>, k: CommitId, y: CommitId)
    requires k in keys && Behind(depth, rank, k, y)
    ensures AllBehind(depth, rank, keys, k) < AllBehind(depth, rank, keys, y)
  {
    assert k in AllBehind(depth, rank, keys, y) && k !in AllBehind(depth, rank, keys, k);
  }

  /** The state has the boundary of the walk of `h`, and some of its members and checkpoints. */
  ghost predicate PartOfWalk(store: Store, depth: Depth, h: CommitId, state: FragmentState) {
    && depth(h) > 0 && Complete(store, depth, h)
    && state.headId == h && state.boundary == BoundaryNodes(store, depth, h)
    && state.members <= Raw(store, depth, h)
    && state.checkpoints <= RawCheckpoints(store, depth, h)
  }

  /** `m` is held by the fragment of `y`, or by one behind it. */
  ghost predicate HeldFor(depth: Depth, rank: CommitId -> nat, known: Known, y: CommitId, m: CommitId) {
    exists k :: k in known && (k == y || Behind(depth, rank, k, y)) && m in known[k].members
  }

  /** Whatever belongs to the walk of a fragment is held, there or further back. */
  ghost predicate Stocked(store: Store, depth: Depth, rank: CommitId -> nat, known: Known) {
    && (forall h :: h in known ==> PartOfWalk(store, depth, h, known[h]))
    && (forall y, m :: y in known && m in Raw(store, depth, y) ==> HeldFor(depth, rank, known, y, m))
  }

  lemma Holder(store: Store, depth: Depth, rank: CommitId -> nat, known: Known, y: CommitId, m: CommitId)
    returns (k: CommitId)
    requires Stocked(store, depth, rank, known) && y in known && m in Raw(store, depth, y)
    ensures k in known && m in known[k].members && m in Raw(store, depth, k)
    ensures k == y || Behind(depth, rank, k, y)
  {
    hide Raw, Behind, Complete, BoundaryNodes;
    assert HeldFor(depth, rank, known, y, m);
    k :| k in known && (k == y || Behind(depth, rank, k, y)) && m in known[k].members;
    assert PartOfWalk(store, depth, k, known[k]);
  }

  lemma BehindTransitive(depth: Depth, rank: CommitId -> nat, x: CommitId, y: CommitId, z: CommitId)
    requires Behind(depth, rank, x, y) && (y == z || Behind(depth, rank, y, z))
    ensures Behind(depth, rank, x, z)
  {
  }

  lemma AncestorsDeep(store: Store, depth: Depth, keys: set<CommitId>, head: CommitId, a: CommitId)
    requires a in Ancestors(store, depth, keys, head)
    ensures depth(a) >= depth(head)
  {
    hide Raw, Reach, Boundary;
    var g, b := BoundaryGraph(store, depth, keys), Boundary(store, depth, head);
    BoundariesDeep(store, depth);
    ReachClosed(g, b);
    ReachLeast(g, b, set x | x in Reach(g, b) && depth(x) >= depth(head));
  }

  /** What the drivers leave is stocked. */
  lemma SoundIsStocked(store: Store, depth: Depth, rank: CommitId -> nat, known: Known)
    requires Layered(store, depth, rank) && Sound(store, depth, known)
    ensures Stocked(store, depth, rank, known)
  {
    hide Raw, Boundary, Complete, Ancestors, Layered;
    forall h | h in known ensures Between(store, depth, known.Keys, h, known[h]) {
    }
    forall y, m | y in known && m in Raw(store, depth, y) ensures HeldFor(depth, rank, known, y, m) {
      if m !in known[y].members {
        assert m in AncestorRaw(store, depth, known.Keys, y);
        AncestorsHoldAll(store, depth, known, y, rank);
        var a :| a in Ancestors(store, depth, known.Keys, y) && a in known && m in known[a].members;
        AncestorsDeep(store, depth, known.Keys, y, a);
        AncestorsOfAncestor(store, depth, known.Keys, y, a, rank);
        assert Behind(depth, rank, a, y);
      }
    }
  }

  /** The stored members add up to the walks. */
  lemma StockedMembers(store: Store, depth: Depth, rank: CommitId -> nat, known: Known)
    requires Stocked(store, depth, rank, known)
    ensures MembersOf(known, known.Keys) == RawUnion(store, depth, known.Keys)
  {
    hide Raw, Boundary, Complete, Behind;
    forall h | h in known ensures PartOfWalk(store, depth, h, known[h]) {
    }
    forall m | m in RawUnion(store, depth, known.Keys) ensures m in MembersOf(known, known.Keys) {
      var y :| y in known && m in Raw(store, depth, y);
      assert HeldFor(depth, rank, known, y, m);
    }
  }

  /** The states of two maps together, one of the two wherever both have one. */
  ghost predicate Mixes(a: Known, b: Known, mix: Known) {
    && mix.Keys == a.Keys + b.Keys
    && forall h :: h in mix ==> (h in a && mix[h] == a[h]) || (h in b && mix[h] == b[h])
  }

  lemma {:induction false} MixHolder(store: Store, depth: Depth, rank: CommitId -> nat, a: Known, b: Known, mix: Known,
                                     y: CommitId, m: CommitId)
    requires Stocked(store, depth, rank, a) && Stocked(store, depth, rank, b) && Mixes(a, b, mix)
    requires y in mix && m in Raw(store, depth, y)
    ensures HeldFor(depth, rank, mix, y, m)
    decreases AllBehind(depth, rank, mix.Keys, y)
  {
    hide Raw, Stocked, Behind;
    if m !in mix[y].members {
      var k := Holder(store, depth, rank, if y in a && mix[y] == a[y] then a else b, y, m);
      BehindShrinks(depth, rank, mix.Keys, k, y);
      MixHolder(store, depth, rank, a, b, mix, k, m);
      var k' :| k' in mix && (k' == k || Behind(depth, rank, k', k)) && m in mix[k'].members;
      if k' != k {
        BehindTransitive(depth, rank, k', k, y);
      }
    }
  }

  /** However two stocked maps are mixed, head by head, the result is stocked. */
  lemma MixIsStocked(store: Store, depth: Depth, rank: CommitId -> nat, a: Known, b: Known, mix: Known)
    requires Stocked(store, depth, rank, a) && Stocked(store, depth, rank, b) && Mixes(a, b, mix)
    ensures Stocked(store, depth, rank, mix)
  {
    hide Raw, PartOfWalk, HeldFor;
    forall y, m | y in mix && m in Raw(store, depth, y) ensures HeldFor(depth, rank, mix, y, m) {
      MixHolder(store, depth, rank, a, b, mix, y, m);
    }
  }

  /** Likewise, fragments stripped by different builds against different ancestors make a sound map together. */
  lemma SoundUnion(store: Store, depth: Depth, a: Known, b: Known, mix: Known)
    requires Sound(store, depth, a) && Sound(store, depth, b) && Mixes(a, b, mix)
    ensures Sound(store, depth, mix)
  {
    hide Raw, Boundary, Complete, Ancestors, AncestorRaw;
    forall h | h in mix ensures Between(store, depth, mix.Keys, h, mix[h]) {
      var part := if h in a && mix[h] == a[h] then a else b;
      assert Between(store, depth, part.Keys, h, part[h]);
      AncestorsMonotone(store, depth, part.Keys, mix.Keys, h);
    }
  }

  lemma UnionIsStocked(store: Store, depth: Depth, rank: CommitId -> nat, a: Known, b: Known)
    requires Stocked(store, depth, rank, a) && Stocked(store, depth, rank, b)
    ensures Stocked(store, depth, rank, a + b)
  {
    hide Stocked;
    MixIsStocked(store, depth, rank, a, b, a + b);
  }

  // ----- Peers -----

  /** A tree, and the states whose members are the payloads of its fragments. */
  datatype Peer = Peer(tree: Tree, known: Known)

  /** The commits whose payload the peer holds, loose or as a member of a fragment. */
  ghost function Payload(p: Peer): set<CommitId> {
    p.tree.commits.Keys + MembersOf(p.known, p.known.Keys)
  }

  /** The metadata is that of the state. */
  ghost predicate Describes(f: Fragment, state: FragmentState) {
    && f.Head() == state.headId && f.Boundary() == state.boundary.Keys
    && f.checkpoints == set c | c in state.checkpoints :: Truncate(c)
  }

  ghost predicate Carries(store: Store, p: Peer) {
    && p.tree.Valid() && FromStore(store, p.tree.commits)
    && p.tree.fragments.Keys == p.known.Keys
    && forall h :: h in p.known ==> Describes(p.tree.fragments[h], p.known[h])
  }

  /** Besides, the peer is stocked, and holds the payload of its own boundary commits. */
  ghost predicate Supplied(store: Store, depth: Depth, rank: CommitId -> nat, p: Peer) {
    Carries(store, p) && Stocked(store, depth, rank, p.known) && BoundaryIds(p.tree) <= Payload(p)
  }

  lemma DescribedIsPartial(store: Store, depth: Depth, f: Fragment, state: FragmentState)
    requires PartOfWalk(store, depth, f.Head(), state) && Describes(f, state)
    ensures PartialWalk(store, depth, f)
  {
    hide Raw, Boundary;
    CompleteBoundary(store, depth, f.Head());
  }

  lemma CarriedIsGrounded(store: Store, depth: Depth, rank: CommitId -> nat, p: Peer)
    requires Carries(store, p) && Stocked(store, depth, rank, p.known)
    ensures Grounded(store, depth, p.tree)
    ensures forall h :: h in p.known ==> PartialWalk(store, depth, p.tree.fragments[h])
  {
    hide PartOfWalk, Describes, HeldFor, Raw, Anchored, RawCheckpoints;
    forall h | h in p.known ensures PartialWalk(store, depth, p.tree.fragments[h]) {
      DescribedIsPartial(store, depth, p.tree.fragments[h], p.known[h]);
    }
  }

  /** Stripped or not, payloads add up to the cover. */
  lemma PayloadIsCover(store: Store, depth: Depth, rank: CommitId -> nat, p: Peer)
    requires Carries(store, p) && Stocked(store, depth, rank, p.known)
    ensures Payload(p) == Cover(store, depth, p.tree)
  {
    hide Stocked, RawUnion;
    StockedMembers(store, depth, rank, p.known);
  }

  // ----- Reconciliation -----

  ghost function RequestorPeer(d: Digests, p: Peer, q: Peer): Peer {
    Peer(RequestorAfter(d, p.tree, q.tree), q.known + p.known)
  }

  ghost function ResponderPeer(d: Digests, p: Peer, q: Peer): Peer {
    Peer(ResponderAfter(d, p.tree, q.tree), p.known + q.known)
  }

  lemma UnionCarries(store: Store, depth: Depth, p: Peer, q: Peer, t: Tree)
    requires Carries(store, p) && Carries(store, q) && Grounded(store, depth, t)
    requires t.fragments == Restrict(q.tree.fragments, q.tree.fragments.Keys - p.tree.fragments.Keys) + p.tree.fragments
    ensures Carries(store, Peer(t, q.known + p.known))
  {
    hide Describes, Anchored, FromStore;
    var known := q.known + p.known;
    assert t.fragments.Keys == known.Keys;
    forall h | h in known ensures Describes(t.fragments[h], known[h]) {
    }
  }

  /** After a round each peer holds its own states, and the other's for the heads it lacked; both are stocked. */
  lemma RoundCarries(store: Store, depth: Depth, rank: CommitId -> nat, d: Digests, p: Peer, q: Peer)
    requires Carries(store, p) && Stocked(store, depth, rank, p.known)
    requires Carries(store, q) && Stocked(store, depth, rank, q.known)
    ensures Carries(store, RequestorPeer(d, p, q)) && Stocked(store, depth, rank, RequestorPeer(d, p, q).known)
    ensures Carries(store, ResponderPeer(d, p, q)) && Stocked(store, depth, rank, ResponderPeer(d, p, q).known)
  {
    hide Carries, Stocked, Grounded, RequestorAfter, ResponderAfter, NoGap, Cover;
    CarriedIsGrounded(store, depth, rank, p);
    CarriedIsGrounded(store, depth, rank, q);
    RoundDeliversIff(store, depth, d, p.tree, q.tree);
    RoundFragments(d, p.tree, q.tree);
    UnionCarries(store, depth, p, q, RequestorAfter(d, p.tree, q.tree));
    UnionCarries(store, depth, q, p, ResponderAfter(d, p.tree, q.tree));
    UnionIsStocked(store, depth, rank, p.known, q.known);
    UnionIsStocked(store, depth, rank, q.known, p.known);
  }

  /** One round brings a peer every payload of the other exactly if it leaves no gap. */
  lemma PayloadsDeliverIff(store: Store, depth: Depth, rank: CommitId -> nat, d: Digests, p: Peer, q: Peer)
    requires Carries(store, p) && Stocked(store, depth, rank, p.known)
    requires Carries(store, q) && Stocked(store, depth, rank, q.known)
    ensures NoGap(store, depth, p.tree, q.tree) <==> Payload(RequestorPeer(d, p, q)) == Payload(p) + Payload(q)
    ensures NoGap(store, depth, q.tree, p.tree) <==> Payload(ResponderPeer(d, p, q)) == Payload(p) + Payload(q)
  {
    hide Carries, Stocked, Payload, Cover, Grounded, RequestorAfter, ResponderAfter, NoGap;
    CarriedIsGrounded(store, depth, rank, p);
    CarriedIsGrounded(store, depth, rank, q);
    RoundDeliversIff(store, depth, d, p.tree, q.tree);
    RoundCarries(store, depth, rank, d, p, q);
    PayloadIsCover(store, depth, rank, p);
    PayloadIsCover(store, depth, rank, q);
    PayloadIsCover(store, depth, rank, RequestorPeer(d, p, q));
    PayloadIsCover(store, depth, rank, ResponderPeer(d, p, q));
  }

  /** Between supplied peers there is none: a round leaves both with everything either held, and supplied again. */
  lemma PayloadsConverge(store: Store, depth: Depth, rank: CommitId -> nat, d: Digests, p: Peer, q: Peer)
    requires Supplied(store, depth, rank, p) && Supplied(store, depth, rank, q)
    ensures var p', q' := RequestorPeer(d, p, q), ResponderPeer(d, p, q);
            && Supplied(store, depth, rank, p') && Supplied(store, depth, rank, q')
            && Payload(p') == Payload(q') == Payload(p) + Payload(q)
  {
    hide Carries, Stocked, Payload, Cover, Grounded, RequestorAfter, ResponderAfter, BoundaryIds;
    CarriedIsGrounded(store, depth, rank, p);
    CarriedIsGrounded(store, depth, rank, q);
    PayloadIsCover(store, depth, rank, p);
    PayloadIsCover(store, depth, rank, q);
    RoundConverges(store, depth, d, p.tree, q.tree);
    RoundCarries(store, depth, rank, d, p, q);
    PayloadIsCover(store, depth, rank, RequestorPeer(d, p, q));
    PayloadIsCover(store, depth, rank, ResponderPeer(d, p, q));
  }

  // ----- Merging trees -----

  /** The states behind a merged tree: each head has that of the fragment the tie-break left. */
  ghost function MergedKnown(d: Digests, p: Peer, q: Peer): Known {
    var merged := MergedTree(d, p.tree, q.tree).fragments;
    map h | h in p.known.Keys + q.known.Keys ::
      if h in p.known && (h !in q.known || (h in p.tree.fragments && merged[h] == p.tree.fragments[h])) then p.known[h]
      else q.known[h]
  }

  ghost function MergedPeer(d: Digests, p: Peer, q: Peer): Peer {
    Peer(MergedTree(d, p.tree, q.tree), MergedKnown(d, p, q))
  }

  lemma MergeCarries(store: Store, d: Digests, p: Peer, q: Peer)
    requires Carries(store, p) && Carries(store, q)
    ensures Carries(store, MergedPeer(d, p, q)) && Mixes(p.known, q.known, MergedKnown(d, p, q))
  {
    hide Describes, FromStore;
    var merged := MergedPeer(d, p, q);
    assert FromStore(store, merged.tree.commits) by { MergedFromStore(store, d, p.tree, q.tree); }
    forall h | h in merged.known ensures Describes(merged.tree.fragments[h], merged.known[h]) {
    }
  }

  lemma MergedFromStore(store: Store, d: Digests, t: Tree, u: Tree)
    requires FromStore(store, t.commits) && FromStore(store, u.commits)
    ensures FromStore(store, MergedTree(d, t, u).commits)
  {
  }

  /** Whichever of two equivocating fragments the tie-break drops, no payload is lost. */
  lemma MergeSupplies(store: Store, depth: Depth, rank: CommitId -> nat, d: Digests, p: Peer, q: Peer)
    requires Supplied(store, depth, rank, p) && Supplied(store, depth, rank, q)
    ensures Supplied(store, depth, rank, MergedPeer(d, p, q))
    ensures Payload(MergedPeer(d, p, q)) == Payload(p) + Payload(q)
  {
    hide Carries, Stocked, Payload, Cover, BoundaryIds, MergedKnown, MergedTree, Mixes;
    MergeCarries(store, d, p, q);
    MixIsStocked(store, depth, rank, p.known, q.known, MergedKnown(d, p, q));
    PayloadIsCover(store, depth, rank, p);
    PayloadIsCover(store, depth, rank, q);
    PayloadIsCover(store, depth, rank, MergedPeer(d, p, q));
    MergeCovers(store, depth, d, p.tree, q.tree);
    BoundaryOfMerge(d, p.tree, q.tree);
  }

  // ----- Minimization -----

  /** Even stripped, a dominating fragment's walk contains the dominated one's. */
  lemma DominatedWithin(store: Store, depth: Depth, f: Fragment, g: Fragment)
    requires TruncationInjective(store.Keys)
    requires PartialWalk(store, depth, f) && PartialWalk(store, depth, g)
    requires Dominates(f, g, depth)
    ensures depth(f.Head()) > depth(g.Head())
    ensures Raw(store, depth, g.Head()) <= Raw(store, depth, f.Head())
  {
    hide Raw;
    var h, k := f.Head(), g.Head();
    RawClosed(store, depth, k);
    assert k !in Boundary(store, depth, h);
    var c :| c in RawCheckpoints(store, depth, h) && Truncate(c) == Truncate(k);
    assert c in store && k in store;
    Nesting(store, depth, h, k);
  }

  /** What truncated metadata says of a commit of the history, the state says of the commit itself. */
  lemma CheckpointIff(store: Store, depth: Depth, f: Fragment, state: FragmentState, id: CommitId)
    requires TruncationInjective(store.Keys)
    requires PartOfWalk(store, depth, f.Head(), state) && Describes(f, state) && id in store
    ensures Truncate(id) in f.checkpoints <==> id in state.checkpoints
  {
    hide Raw;
    if Truncate(id) in f.checkpoints {
      var c :| c in state.checkpoints && Truncate(c) == Truncate(id);
      assert c in store;
    }
  }

  /**
   Domination between stripped fragments, in terms of their states: the head is a
   checkpoint that is left, and so is each boundary commit, or it is on the outer
   boundary or the outer head.
   */
  lemma StrippedDominatesIff(store: Store, depth: Depth, f: Fragment, g: Fragment,
                             fs: FragmentState, gs: FragmentState)
    requires TruncationInjective(store.Keys)
    requires PartOfWalk(store, depth, f.Head(), fs) && Describes(f, fs)
    requires PartOfWalk(store, depth, g.Head(), gs) && Describes(g, gs)
    ensures Dominates(f, g, depth) <==>
            && depth(g.Head()) < depth(f.Head())
            && g.Head() in fs.checkpoints
            && Boundary(store, depth, g.Head()) <= fs.checkpoints + Boundary(store, depth, f.Head()) + {f.Head()}
  {
    hide Raw, Boundary, TruncationInjective;
    var h, k := f.Head(), g.Head();
    SupportsIff(f, g, depth);
    CompleteBoundary(store, depth, h);
    CompleteBoundary(store, depth, k);
    BoundariesDeep(store, depth);
    RawClosed(store, depth, k);
    forall id | id == k || id in Boundary(store, depth, k)
      ensures Truncate(id) in f.checkpoints <==> id in fs.checkpoints
    {
      CheckpointIff(store, depth, f, fs, id);
    }
  }

  /** So the fragments kept are those that no kept one so contains. */
  lemma StrippedKeepSet(store: Store, depth: Depth, rank: CommitId -> nat, p: Peer, x: CommitId)
    requires TruncationInjective(store.Keys)
    requires Carries(store, p) && Stocked(store, depth, rank, p.known) && x in p.known
    ensures x in KeepSet(p.tree.fragments, depth) <==>
            !exists y :: y in KeepSet(p.tree.fragments, depth) && y in p.known
                         && depth(x) < depth(y) && x in p.known[y].checkpoints
                         && Boundary(store, depth, x) <= p.known[y].checkpoints + Boundary(store, depth, y) + {y}
  {
    hide Raw, Boundary, KeepSet, Dominates, TruncationInjective, Describes, PartOfWalk, HeldFor, FromStore;
    var frags := p.tree.fragments;
    KeepSetUnique(frags, depth, KeepSet(frags, depth));
    KeptPresent(frags, depth);
    forall y | y in KeepSet(frags, depth)
      ensures Dominates(frags[y], frags[x], depth) <==>
              && depth(x) < depth(y) && x in p.known[y].checkpoints
              && Boundary(store, depth, x) <= p.known[y].checkpoints + Boundary(store, depth, y) + {y}
    {
      StrippedDominatesIff(store, depth, frags[y], frags[x], p.known[y], p.known[x]);
    }
  }

  /** Against stripped fragments a deep loose commit below a tip survives unless it is a head or a checkpoint left. */
  lemma StrippedSurvivesIff(store: Store, depth: Depth, rank: CommitId -> nat, p: Peer, frags: set<Fragment>,
                            c: CommitId)
    requires TruncationInjective(store.Keys)
    requires Carries(store, p) && Stocked(store, depth, rank, p.known)
    requires forall f :: f in frags ==> f.Head() in p.known && f == p.tree.fragments[f.Head()]
    requires c in p.tree.commits && depth(c) > 0
    ensures c in Survivors(p.tree.commits, depth, frags) <==>
            && c in BelowTips(p.tree.commits)
            && forall f :: f in frags ==> f.Head() != c && c !in p.known[f.Head()].checkpoints
  {
    hide Survivors, BelowTips, TruncationInjective, Describes, PartOfWalk, HeldFor;
    DeepSurvivesIff(p.tree.commits, depth, frags, c);
    forall f | f in frags ensures Truncate(c) in f.checkpoints <==> c in p.known[f.Head()].checkpoints {
      CheckpointIff(store, depth, f, p.known[f.Head()], c);
    }
  }

  /** Some kept fragment, this one or one behind it, still holds each member of its walk. */
  lemma {:induction false} KeptHolder(store: Store, depth: Depth, rank: CommitId -> nat, p: Peer,
                                      x: CommitId, m: CommitId) returns (k: CommitId)
    requires TruncationInjective(store.Keys)
    requires Carries(store, p) && Stocked(store, depth, rank, p.known)
    requires x in p.known && m in Raw(store, depth, x)
    ensures k in p.known && k in KeepSet(p.tree.fragments, depth) && m in p.known[k].members
    ensures k == x || Behind(depth, rank, k, x)
    decreases AllBehind(depth, rank, p.known.Keys, x)
  {
    hide Raw, KeepSet, Dominates, TruncationInjective, PartialWalk, Stocked, Grounded, Describes, FromStore;
    var frags := p.tree.fragments;
    KeepSetUnique(frags, depth, KeepSet(frags, depth));
    CarriedIsGrounded(store, depth, rank, p);
    k := Holder(store, depth, rank, p.known, x, m);
    if k !in KeepSet(frags, depth) {
      var y :| y in KeepSet(frags, depth) && Dominates(frags[y], frags[k], depth);
      DominatedWithin(store, depth, frags[y], frags[k]);
      BehindShrinks(depth, rank, p.known.Keys, y, x);
      k := KeptHolder(store, depth, rank, p, y, m);
    }
  }

  ghost function TidiedPeer(p: Peer, depth: Depth): Peer {
    var t := MinimizedTree(p.tree, depth);
    Peer(t, Restrict(p.known, t.fragments.Keys))
  }

  lemma TidyCarries(store: Store, depth: Depth, rank: CommitId -> nat, p: Peer)
    requires TruncationInjective(store.Keys)
    requires Carries(store, p) && Stocked(store, depth, rank, p.known)
    ensures Carries(store, TidiedPeer(p, depth)) && Stocked(store, depth, rank, TidiedPeer(p, depth).known)
    ensures TidiedPeer(p, depth).known.Keys == KeepSet(p.tree.fragments, depth)
  {
    hide Raw, KeepSet, Survives, TruncationInjective, Describes, PartOfWalk, Behind;
    var kept := TidiedPeer(p, depth);
    KeptPresent(p.tree.fragments, depth);
    forall y, m | y in kept.known && m in Raw(store, depth, y) ensures HeldFor(depth, rank, kept.known, y, m) {
      var k := KeptHolder(store, depth, rank, p, y, m);
      assert k in kept.known;
    }
  }

  /** Dropping dominated fragments loses no payload. */
  lemma KeptMembers(store: Store, depth: Depth, rank: CommitId -> nat, p: Peer)
    requires TruncationInjective(store.Keys)
    requires Carries(store, p) && Stocked(store, depth, rank, p.known)
    ensures MembersOf(p.known, KeepSet(p.tree.fragments, depth)) == MembersOf(p.known, p.known.Keys)
  {
    hide Carries, KeepSet, TruncationInjective, Raw, Behind;
    forall x, m | x in p.known && m in p.known[x].members
      ensures m in MembersOf(p.known, KeepSet(p.tree.fragments, depth))
    {
      assert PartOfWalk(store, depth, x, p.known[x]);
      var k := KeptHolder(store, depth, rank, p, x, m);
    }
  }

  /** Nor does the pruning of loose commits, if each lies below a tip or inside a fragment. */
  lemma TidySupplies(store: Store, depth: Depth, rank: CommitId -> nat, p: Peer)
    requires TruncationInjective(store.Keys)
    requires Supplied(store, depth, rank, p)
    requires p.tree.commits.Keys <= BelowTips(p.tree.commits) + RawUnion(store, depth, p.known.Keys)
    ensures Supplied(store, depth, rank, TidiedPeer(p, depth))
    ensures Payload(TidiedPeer(p, depth)) == Payload(p)
  {
    hide Carries, Stocked, TruncationInjective, BelowTips, RawUnion, BoundaryIds, KeepSet, Survives;
    hide PartialWalk, Grounded;
    var kept := TidiedPeer(p, depth);
    TidyCarries(store, depth, rank, p);
    KeptMembers(store, depth, rank, p);
    StockedMembers(store, depth, rank, p.known);
    assert MembersOf(kept.known, kept.known.Keys) == MembersOf(p.known, KeepSet(p.tree.fragments, depth));
    forall c | c in p.tree.commits && c !in kept.tree.commits ensures c in MembersOf(p.known, p.known.Keys) {
      if c in BelowTips(p.tree.commits) {
        PrunedIsHeld(store, depth, rank, p, c);
      }
    }
    MinimizedIsPart(p.tree, depth);
    BoundaryOfPart(p.tree, kept.tree);
  }

  lemma PrunedIsHeld(store: Store, depth: Depth, rank: CommitId -> nat, p: Peer, c: CommitId)
    requires TruncationInjective(store.Keys)
    requires Carries(store, p) && Stocked(store, depth, rank, p.known)
    requires c in BelowTips(p.tree.commits) && c in p.tree.commits && c !in TidiedPeer(p, depth).tree.commits
    ensures c in MembersOf(p.known, p.known.Keys)
  {
    hide Stocked, TruncationInjective, BelowTips, KeepSet, Survives, PartialWalk, Grounded, Raw, Describes;
    var frags := MinimizedTree(p.tree, depth).fragments;
    CarriedIsGrounded(store, depth, rank, p);
    StockedMembers(store, depth, rank, p.known);
    PrunedIsCovered(store, depth, p.tree.commits, frags.Values, c);
    var f :| f in frags.Values && c in Raw(store, depth, f.Head());
    assert f.Head() in p.known;
  }

  // ----- Where such peers come from -----

  function BuiltFragments(known: Known, treeId: seq<Byte>, blob: CommitId -> BlobMeta): Fragments {
    map h | h in known :: ToFragment(known[h], treeId, blob(h))
  }

  /** The peer that a driver's map makes, stripped as it is. */
  function BuiltPeer(known: Known, treeId: seq<Byte>, blob: CommitId -> BlobMeta): Peer {
    Peer(Tree(BuiltFragments(known, treeId, blob), map[]), known)
  }

  lemma BuiltIsCarried(store: Store, depth: Depth, known: Known, treeId: seq<Byte>, blob: CommitId -> BlobMeta)
    requires Sound(store, depth, known)
    ensures Carries(store, BuiltPeer(known, treeId, blob))
  {
    hide Raw, Boundary, Complete, AncestorRaw;
    forall h | h in known ensures known[h].headId == h {
      assert Between(store, depth, known.Keys, h, known[h]);
    }
  }

  /** The stripped fragments a driver left lose nothing when the dominated ones among them are dropped. */
  lemma BuiltStoreMinimizes(store: Store, depth: Depth, known: Known, treeId: seq<Byte>, blob: CommitId -> BlobMeta,
                            rank: CommitId -> nat)
    requires Layered(store, depth, rank) && TruncationInjective(store.Keys)
    requires Sound(store, depth, known)
    ensures MembersOf(known, KeepSet(BuiltFragments(known, treeId, blob), depth)) == MembersOf(known, known.Keys)
  {
    hide Sound, KeepSet, TruncationInjective, BuiltFragments, Stocked, Carries;
    SoundIsStocked(store, depth, rank, known);
    BuiltIsCarried(store, depth, known, treeId, blob);
    KeptMembers(store, depth, rank, BuiltPeer(known, treeId, blob));
  }

  /** A first build over complete history holds the payload of every boundary commit. */
  lemma FirstBuildHoldsBoundaries(store: Store, depth: Depth, heads: set<CommitId>, known: Known)
    requires Unshadowed(store, depth, known.Keys)
    requires Reach(store, heads) <= store.Keys
    requires Sound(store, depth, known)
    requires known.Keys == FreshHeads(store, depth, map[], heads, true)
    ensures forall h :: h in known ==> known[h].boundary.Keys <= MembersOf(known, known.Keys)
  {
    hide Reach, Raw, Boundary, Discovered, Unshadowed, MembersOf, Complete, AncestorRaw;
    FirstBuildCovers(store, depth, heads, known);
    assert Sound(store, depth, map[]);
    CoveredBelow(store, depth, heads, map[]);
    ReachClosed(store, heads);
    SoundGraph(store, depth, known);
    BoundariesDeep(store, depth);
    forall h | h in known ensures known[h].boundary.Keys <= MembersOf(known, known.Keys) {
      WalkStays(store, depth, h, Reach(store, heads));
      forall b | b in known[h].boundary.Keys ensures b in MembersOf(known, known.Keys) {
        assert b in Reach(store, heads) && depth(b) > 0;
      }
    }
  }

  /** So the peer it makes is supplied. */
  lemma FirstBuildSupplies(store: Store, depth: Depth, rank: CommitId -> nat, heads: set<CommitId>, known: Known,
                           treeId: seq<Byte>, blob: CommitId -> BlobMeta)
    requires Layered(store, depth, rank)
    requires Reach(store, heads) <= store.Keys
    requires Sound(store, depth, known)
    requires known.Keys == FreshHeads(store, depth, map[], heads, true)
    ensures Supplied(store, depth, rank, BuiltPeer(known, treeId, blob))
  {
    hide Reach, Sound, Unshadowed, FreshHeads, Stocked, MembersOf, Layered;
    LayeredUnshadowed(store, depth, known, rank);
    FirstBuildHoldsBoundaries(store, depth, heads, known);
    BuiltIsCarried(store, depth, known, treeId, blob);
    SoundIsStocked(store, depth, rank, known);
  }

  /** The states of unstripped walks. */
  ghost function WholeStates(store: Store, depth: Depth, heads: set<CommitId>): Known {
    map h | h in heads :: Stripped(store, depth, h, {})
  }

  /** A peer that holds true walks and covers its boundaries is supplied, and its payload is its cover. */
  lemma HonestIsSupplied(store: Store, depth: Depth, rank: CommitId -> nat, t: Tree)
    requires Honest(store, depth, t) && BoundaryCovered(store, depth, t)
    ensures var p := Peer(t, WholeStates(store, depth, t.fragments.Keys));
            Supplied(store, depth, rank, p) && Payload(p) == Cover(store, depth, t)
  {
    hide Raw, Boundary, Complete;
    var p := Peer(t, WholeStates(store, depth, t.fragments.Keys));
    forall h | h in p.known
      ensures PartOfWalk(store, depth, h, p.known[h]) && Describes(t.fragments[h], p.known[h])
    {
      assert TrueWalk(store, depth, t.fragments[h]);
      CompleteBoundary(store, depth, h);
    }
    assert forall y, m :: y in p.known && m in Raw(store, depth, y) ==> m in p.known[y].members;
    PayloadIsCover(store, depth, rank, p);
  }

  // A fragment of `f` above `g` and `a`, both above `b`: stripped of `b`, which `a` holds, it no longer dominates `g`.

  ghost predicate FourApart(f: CommitId, g: CommitId, a: CommitId, b: CommitId) {
    f != g && f != a && f != b && g != a && g != b && a != b
  }

  function Diamond(f: CommitId, g: CommitId, a: CommitId, b: CommitId): Store {
    map[f := {g, a}, g := {b}, a := {b}, b := {}]
  }

  function DiamondDepth(f: CommitId, g: CommitId, a: CommitId, b: CommitId): Depth {
    x => if x == f || x == a then 3 else if x == b then 2 else 1
  }

  lemma DiamondOuter(f: CommitId, g: CommitId, a: CommitId, b: CommitId)
    requires FourApart(f, g, a, b)
    ensures var store, depth := Diamond(f, g, a, b), DiamondDepth(f, g, a, b);
            Raw(store, depth, f) == {f, g, b} && Boundary(store, depth, f) == {a}
  {
    hide Raw;
    var store, depth := Diamond(f, g, a, b), DiamondDepth(f, g, a, b);
    RawClosed(store, depth, f);
    RawLeast(store, depth, f, {f, g, b});
    assert f in Raw(store, depth, f) && f in store && g in store[f] && depth(g) < depth(f);
    assert g in Raw(store, depth, f) && g in store && b in store[g] && depth(b) < depth(f);
    assert a in store[f] && depth(a) >= depth(f) && a in Boundary(store, depth, f);
  }

  lemma DiamondInner(f: CommitId, g: CommitId, a: CommitId, b: CommitId)
    requires FourApart(f, g, a, b)
    ensures var store, depth := Diamond(f, g, a, b), DiamondDepth(f, g, a, b);
            && Raw(store, depth, g) == {g} && Boundary(store, depth, g) == {b}
            && Raw(store, depth, a) == {a, b} && Boundary(store, depth, a) == {}
  {
    hide Raw;
    var store, depth := Diamond(f, g, a, b), DiamondDepth(f, g, a, b);
    RawClosed(store, depth, g);
    RawClosed(store, depth, a);
    RawLeast(store, depth, g, {g});
    RawLeast(store, depth, a, {a, b});
    assert g in Raw(store, depth, g) && g in store && b in store[g] && depth(b) >= depth(g);
    assert b in Boundary(store, depth, g);
    assert a in Raw(store, depth, a) && a in store && b in store[a] && depth(b) < depth(a);
  }

  /**
   Membership of the head decides between true walks only: here `g` is a member of
   the walk of `f`, and would be dropped beside it, but not once `f` is stripped.
   */
  lemma StrippedKeepsMore(f: CommitId, g: CommitId, a: CommitId, b: CommitId, treeId: seq<Byte>, blobMeta: BlobMeta)
    requires FourApart(f, g, a, b)
    requires TruncationInjective({f, g, a, b})
    ensures var store, depth := Diamond(f, g, a, b), DiamondDepth(f, g, a, b);
            var fs := FragmentState(f, {f, g}, {g}, map[a := {b}]);
            var gs := FragmentState(g, {g}, {}, map[b := {}]);
            && fs == Canonical(store, depth, {f, g, a}, f)
            && g in Raw(store, depth, f)
            && !Dominates(ToFragment(fs, treeId, blobMeta), ToFragment(gs, treeId, blobMeta), depth)
  {
    hide Raw, Boundary, Dominates, TruncationInjective, Canonical, Diamond;
    var store, depth := Diamond(f, g, a, b), DiamondDepth(f, g, a, b);
    var fs, gs := FragmentState(f, {f, g}, {g}, map[a := {b}]), FragmentState(g, {g}, {}, map[b := {}]);
    DiamondOuter(f, g, a, b);
    DiamondInner(f, g, a, b);
    DiamondStripped(f, g, a, b);
    assert store.Keys == {f, g, a, b} by { DiamondKeys(f, g, a, b); }
    StrippedDominatesIff(store, depth, ToFragment(fs, treeId, blobMeta), ToFragment(gs, treeId, blobMeta), fs, gs);
  }

  lemma DiamondKeys(f: CommitId, g: CommitId, a: CommitId, b: CommitId)
    ensures Diamond(f, g, a, b).Keys == {f, g, a, b}
  {
  }

  lemma DiamondStripped(f: CommitId, g: CommitId, a: CommitId, b: CommitId)
    requires FourApart(f, g, a, b)
    ensures var store, depth := Diamond(f, g, a, b), DiamondDepth(f, g, a, b);
            var fs := FragmentState(f, {f, g}, {g}, map[a := {b}]);
            var gs := FragmentState(g, {g}, {}, map[b := {}]);
            && fs == Canonical(store, depth, {f, g, a}, f)
            && PartOfWalk(store, depth, f, fs) && PartOfWalk(store, depth, g, gs)
  {
    hide Raw, Boundary, Reach;
    var store, depth := Diamond(f, g, a, b), DiamondDepth(f, g, a, b);
    DiamondOuter(f, g, a, b);
    DiamondInner(f, g, a, b);
    var graph := BoundaryGraph(store, depth, {f, g, a});
    ReachClosed(graph, {a});
    ReachLeast(graph, {a}, {a});
    assert Ancestors(store, depth, {f, g, a}, f) == {a};
    assert AncestorRaw(store, depth, {f, g, a}, f) == {a, b};
  }
}
