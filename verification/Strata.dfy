/**
 Fragment metadata and the support relation between strata
 (sedimentree_core/src/fragment.rs), and what it means for fragments that are
 true walks of one history.
 */
module Strata {
  import opened Graph
  import opened Ids
  import opened Walk

  datatype BlobMeta = BlobMeta(digest: seq<Byte>, size: nat)

  datatype LooseCommit = LooseCommit(treeId: seq<Byte>, head: CommitId, parents: set<CommitId>, blobMeta: BlobMeta)

  datatype FragmentSummary = FragmentSummary(head: CommitId, boundary: set<CommitId>, blobMeta: BlobMeta)

  datatype Fragment = Fragment(treeId: seq<Byte>, summary: FragmentSummary, checkpoints: set<Checkpoint>) {

    function Head(): CommitId { summary.head }

    function Boundary(): set<CommitId> { summary.boundary }

    /** Is `id` the head, a checkpoint or a boundary commit? */
    predicate SupportsBlock(id: CommitId) {
      summary.head == id || Truncate(id) in checkpoints || id in summary.boundary
    }

    predicate Supports(other: FragmentSummary, depth: Depth) {
      || summary == other
      || (&& depth(summary.head) >= depth(other.head)
          && SupportsBlock(other.head)
          && ((forall b :: b in other.boundary ==> SupportsBlock(b)) || other.boundary <= summary.boundary))
    }
  }

  /** The tests of `supports` come down to one: no deeper, and everything it names lies within the range. */
  lemma SupportsIff(f: Fragment, g: Fragment, depth: Depth)
    ensures f.Supports(g.summary, depth) <==>
            && depth(g.Head()) <= depth(f.Head())
            && forall id :: id == g.Head() || id in g.Boundary() ==>
                 id == f.Head() || id in f.Boundary() || Truncate(id) in f.checkpoints
  {
  }

  /** Metadata for a walk state (`FragmentState::to_fragment`). */
  function ToFragment(state: FragmentState, treeId: seq<Byte>, blobMeta: BlobMeta): Fragment {
    Fragment(treeId, FragmentSummary(state.headId, state.boundary.Keys, blobMeta),
             set c | c in state.checkpoints :: Truncate(c))
  }

  /** The fragment has the boundary of its head's walk through `store`, whatever was stripped from it. */
  ghost predicate Anchored(store: Store, depth: Depth, f: Fragment) {
    && depth(f.Head()) > 0
    && Complete(store, depth, f.Head())
    && f.Boundary() == Boundary(store, depth, f.Head())
  }

  /** Besides, its checkpoints are among those of the walk. */
  ghost predicate PartialWalk(store: Store, depth: Depth, f: Fragment) {
    Anchored(store, depth, f) && f.checkpoints <= set c | c in RawCheckpoints(store, depth, f.Head()) :: Truncate(c)
  }

  /** The fragment is the unstripped walk of its head through `store`. */
  ghost predicate TrueWalk(store: Store, depth: Depth, f: Fragment) {
    && Anchored(store, depth, f)
    && f.checkpoints == set c | c in RawCheckpoints(store, depth, f.Head()) :: Truncate(c)
  }

  /** A build with nothing known yields true walks. */
  method CutTrueWalk(store: Store, head: CommitId, depth: Depth, treeId: seq<Byte>, blobMeta: BlobMeta)
    returns (f: Option<Fragment>)
    ensures f.Some? <==> depth(head) > 0 && Complete(store, depth, head)
    ensures f.Some? ==> f.value.Head() == head && TrueWalk(store, depth, f.value)
  {
    hide Raw, Boundary;
    var r := CutFragment(store, head, map[], depth);
    if r.Failed? {
      return None;
    }
    CompleteBoundary(store, depth, head);
    assert MembersOf(map[], Boundary(store, depth, head)) == {};
    f := Some(ToFragment(r.state, treeId, blobMeta));
    assert r.state.checkpoints == RawCheckpoints(store, depth, head);
  }

  /**
   Nesting: if one head is a non-head member of another's walk, the whole inner
   walk lies within the outer one, and every inner boundary commit is a checkpoint
   or boundary commit of the outer walk (or, in a cyclic store, its head).
   */
  lemma Nesting(store: Store, depth: Depth, h: CommitId, g: CommitId)
    requires g in Raw(store, depth, h) && g != h && depth(g) > 0
    ensures depth(g) < depth(h)
    ensures Raw(store, depth, g) <= Raw(store, depth, h)
    ensures Boundary(store, depth, g) <= RawCheckpoints(store, depth, h) + Boundary(store, depth, h) + {h}
    ensures RawCheckpoints(store, depth, g) <= RawCheckpoints(store, depth, h)
  {
    hide Raw;
    RawShallower(store, depth, h);
    RawShallower(store, depth, g);
    RawClosed(store, depth, h);
    RawLeast(store, depth, g, Raw(store, depth, h));
  }

  lemma NestingAcyclic(store: Store, depth: Depth, h: CommitId, g: CommitId, rank: CommitId -> nat)
    requires Ranked(store, rank)
    requires g in Raw(store, depth, h) && g != h && depth(g) > 0
    ensures Boundary(store, depth, g) <= RawCheckpoints(store, depth, h) + Boundary(store, depth, h)
  {
    hide Raw, Boundary;
    Nesting(store, depth, h, g);
    RawRanked(store, depth, h, rank);
    RawRanked(store, depth, g, rank);
  }

  /** An outer walk supports every walk nested in it, whatever truncation does to checkpoints. */
  lemma NestingSupports(store: Store, depth: Depth, f: Fragment, g: Fragment)
    requires TrueWalk(store, depth, f) && TrueWalk(store, depth, g)
    requires g.Head() in Raw(store, depth, f.Head()) && g.Head() != f.Head()
    ensures f.Supports(g.summary, depth)
  {
    hide Raw, Boundary;
    var h, k := f.Head(), g.Head();
    Nesting(store, depth, h, k);
    assert k in RawCheckpoints(store, depth, h);
    forall b | b in g.Boundary() ensures f.SupportsBlock(b) {
      assert b in RawCheckpoints(store, depth, h) + Boundary(store, depth, h) + {h};
    }
  }

  /** `f` would drop `g` in a minimization. */
  predicate Dominates(f: Fragment, g: Fragment, depth: Depth) {
    depth(f.Head()) > depth(g.Head()) && f.Supports(g.summary, depth)
  }

  /** Between true walks, domination is membership of the head, given collision-free checkpoints. */
  lemma DominatesIff(store: Store, depth: Depth, f: Fragment, g: Fragment)
    requires TruncationInjective(store.Keys)
    requires TrueWalk(store, depth, f) && TrueWalk(store, depth, g)
    ensures Dominates(f, g, depth) <==> g.Head() in Raw(store, depth, f.Head()) && g.Head() != f.Head()
  {
    hide Raw;
    var h, k := f.Head(), g.Head();
    RawClosed(store, depth, k);
    if k in Raw(store, depth, h) && k != h {
      Nesting(store, depth, h, k);
      NestingSupports(store, depth, f, g);
    }
    if Dominates(f, g, depth) {
      assert k !in Boundary(store, depth, h);
      var c :| c in RawCheckpoints(store, depth, h) && Truncate(c) == Truncate(k);
      assert c in store && k in store;
    }
  }

  /**
   At equal depth a true walk supports another exactly if that one's head is on its
   boundary, with a boundary that reaches no further.
   */
  lemma LevelSupportIff(store: Store, depth: Depth, f: Fragment, g: Fragment)
    requires TruncationInjective(store.Keys)
    requires TrueWalk(store, depth, f) && TrueWalk(store, depth, g)
    requires f.Head() != g.Head() && depth(f.Head()) == depth(g.Head())
    ensures f.Supports(g.summary, depth) <==>
            && g.Head() in Boundary(store, depth, f.Head())
            && Boundary(store, depth, g.Head()) <= Boundary(store, depth, f.Head()) + {f.Head()}
  {
    hide Raw;
    var h := f.Head();
    RawShallower(store, depth, h);
    RawClosed(store, depth, g.Head());
    forall b | b in store && depth(b) >= depth(h) ensures Truncate(b) !in f.checkpoints {
      forall c | c in RawCheckpoints(store, depth, h) ensures Truncate(c) != Truncate(b) {
        assert c in store;
      }
    }
  }

  /** Two different walks of an acyclic history never support each other both ways. */
  lemma NoMutualSupport(store: Store, depth: Depth, f: Fragment, g: Fragment, rank: CommitId -> nat)
    requires Ranked(store, rank) && TruncationInjective(store.Keys)
    requires TrueWalk(store, depth, f) && TrueWalk(store, depth, g) && f.Head() != g.Head()
    ensures !(f.Supports(g.summary, depth) && g.Supports(f.summary, depth))
  {
    hide Raw, Boundary, TruncationInjective;
    if f.Supports(g.summary, depth) && g.Supports(f.summary, depth) {
      LevelSupportIff(store, depth, f, g);
      LevelSupportIff(store, depth, g, f);
      RawRanked(store, depth, f.Head(), rank);
      RawRanked(store, depth, g.Head(), rank);
      assert false;
    }
  }

  /** Domination between true walks is transitive. */
  lemma DominatesTransitive(store: Store, depth: Depth, e: Fragment, f: Fragment, g: Fragment)
    requires TruncationInjective(store.Keys)
    requires TrueWalk(store, depth, e) && TrueWalk(store, depth, f) && TrueWalk(store, depth, g)
    requires Dominates(e, f, depth) && Dominates(f, g, depth)
    ensures Dominates(e, g, depth)
    ensures Raw(store, depth, g.Head()) <= Raw(store, depth, f.Head()) <= Raw(store, depth, e.Head())
  {
    hide Raw, Boundary;
    DominatesIff(store, depth, e, f);
    DominatesIff(store, depth, f, g);
    DominatesIff(store, depth, e, g);
    Nesting(store, depth, e.Head(), f.Head());
    Nesting(store, depth, f.Head(), g.Head());
  }
}
