/**
 Minimization of whole trees (`minimize`, `minimize_in_place`, `keep_sets` in
 sedimentree_core/src/sedimentree.rs): what it keeps, and what it may not lose.
 */
module Minimize {
  import opened Graph
  import opened Ids
  import opened Walk
  import opened Build
  import opened Strata
  import opened Trees
  import opened KeepSets
  import opened Simplify
  import opened Agreement

  ghost function MinimizedTree(t: Tree, depth: Depth): Tree {
    var kept := Restrict(t.fragments, KeepSet(t.fragments, depth));
    Tree(kept, Pruned(t.commits, depth, kept.Values))
  }

  /** A minimized tree is determined by its keys. */
  lemma MinimizedIsPart(t: Tree, depth: Depth)
    ensures var u := MinimizedTree(t, depth);
            u == Tree(Restrict(t.fragments, u.fragments.Keys), Restrict(t.commits, u.commits.Keys))
  {
    hide KeepSet, Survives;
  }

  /** The heads that survive, for both forms of minimization. */
  method SurvivingHeads(t: Tree, depth: Depth) returns (fragmentHeads: set<CommitId>, commitHeads: set<CommitId>)
    ensures fragmentHeads == MinimizedTree(t, depth).fragments.Keys
    ensures commitHeads == MinimizedTree(t, depth).commits.Keys
    ensures fragmentHeads == KeepSet(t.fragments, depth)
    ensures commitHeads == Survivors(t.commits, depth, set h | h in fragmentHeads && h in t.fragments :: t.fragments[h])
  {
    hide Kept, Survives;
    fragmentHeads := SweepFragments(t.fragments, depth);
    var kept := Restrict(t.fragments, fragmentHeads);
    commitHeads := Simplified(t.commits, kept.Values, depth);
    assert kept.Values == set h | h in fragmentHeads && h in t.fragments :: t.fragments[h] by {
      forall h | h in fragmentHeads && h in t.fragments ensures t.fragments[h] in kept.Values {
        assert h in kept && kept[h] == t.fragments[h];
      }
    }
  }

  /** The rebuilding form: filter both maps and insert what is left into a new tree. */
  method MinimizeTree(d: Digests, t: Tree, depth: Depth) returns (u: Tree)
    requires t.Valid()
    ensures u == MinimizedTree(t, depth)
  {
    hide KeepSet, Survives;
    var fragmentHeads, commitHeads := SurvivingHeads(t, depth);
    var fm := Refile(d.fragment, FragmentHead, Restrict(t.fragments, fragmentHeads));
    var cm := Refile(d.commit, CommitHead, Restrict(t.commits, commitHeads));
    MinimizedIsPart(t, depth);
    u := Tree(fm, cm);
  }

  /** Inserting the values of a map filed by head into an empty one gives the map back. */
  method Refile<V(!new,==)>(digest: V -> nat, head: V -> CommitId, m0: map<CommitId, V>) returns (m: map<CommitId, V>)
    requires forall k :: k in m0 ==> head(m0[k]) == k
    ensures m == m0
  {
    var items := Arrange(m0.Values);
    m := Collect(digest, head, items);
    ghost var all := set v | v in items;
    assert all == m0.Values;
    forall k | k in m0 ensures k in m && m[k] == m0[k] {
      assert m0[k] in all;
      assert m[k] in m0.Values;
    }
    forall k | k in m ensures k in m0 {
      assert m[k] in m0.Values;
    }
  }

  // ----- Trees of true walks over one history -----

  ghost predicate Honest(store: Store, depth: Depth, t: Tree) {
    && t.Valid()
    && FromStore(store, t.commits)
    && forall k :: k in t.fragments ==> TrueWalk(store, depth, t.fragments[k])
  }

  /** The commits whose payload a tree carries, loose or inside a fragment. */
  ghost function Cover(store: Store, depth: Depth, t: Tree): set<CommitId> {
    t.commits.Keys + RawUnion(store, depth, t.fragments.Keys)
  }

  /** A fragment no other fragment of the tree swallows. */
  ghost predicate Maximal(store: Store, depth: Depth, frags: Fragments, x: CommitId) {
    forall y :: y in frags && y != x ==> x !in Raw(store, depth, y)
  }

  ghost predicate TrueWalks(store: Store, depth: Depth, frags: Fragments) {
    forall k :: k in frags ==> frags[k].Head() == k && TrueWalk(store, depth, frags[k])
  }

  /** Above every fragment there is a maximal one that contains its whole walk. */
  lemma {:induction false} MaximalAbove(store: Store, depth: Depth, frags: Fragments, x: CommitId)
    returns (top: CommitId)
    requires TrueWalks(store, depth, frags)
    requires x in frags
    ensures top in frags && Maximal(store, depth, frags, top)
    ensures Raw(store, depth, x) <= Raw(store, depth, top)
    ensures top == x || (x in Raw(store, depth, top) && depth(top) > depth(x))
    decreases Deeper(frags, depth, x)
  {
    hide Raw, Boundary, Complete;
    RawClosed(store, depth, x);
    if Maximal(store, depth, frags, x) {
      return x;
    }
    var y :| y in frags && y != x && x in Raw(store, depth, y);
    Nesting(store, depth, y, x);
    DeeperShrinks(frags, depth, x, y);
    top := MaximalAbove(store, depth, frags, y);
  }

  /** For true walks the kept fragments are exactly the maximal ones. */
  lemma KeepsTheMaximal(store: Store, depth: Depth, frags: Fragments)
    requires TruncationInjective(store.Keys)
    requires TrueWalks(store, depth, frags)
    ensures KeepSet(frags, depth) == set x | x in frags && Maximal(store, depth, frags, x)
  {
    hide Raw, Boundary, Complete, Dominates, KeepSet;
    var kept := set x | x in frags && Maximal(store, depth, frags, x);
    forall x | x in frags
      ensures x in kept <==> !exists y :: y in kept && Dominates(frags[y], frags[x], depth)
    {
      if y :| y in kept && Dominates(frags[y], frags[x], depth) {
        DominatesIff(store, depth, frags[y], frags[x]);
      }
      if x !in kept {
        var top := MaximalAbove(store, depth, frags, x);
        DominatesIff(store, depth, frags[top], frags[x]);
      }
    }
    KeepSetUnique(frags, depth, kept);
  }

  /** Minimization loses no fragment payload: a dropped walk lies within one kept, strictly deeper walk. */
  lemma DroppedWalkIsKept(store: Store, depth: Depth, frags: Fragments, x: CommitId) returns (top: CommitId)
    requires TruncationInjective(store.Keys)
    requires TrueWalks(store, depth, frags)
    requires x in frags && x !in KeepSet(frags, depth)
    ensures top in frags && top in KeepSet(frags, depth)
    ensures depth(top) > depth(x) && Raw(store, depth, x) <= Raw(store, depth, top)
  {
    hide Raw, Boundary, Complete, KeepSet;
    KeepsTheMaximal(store, depth, frags);
    top := MaximalAbove(store, depth, frags, x);
  }

  /** Which support is left among the kept fragments of true walks. */
  lemma KeptSupportIff(store: Store, depth: Depth, frags: Fragments, x: CommitId, y: CommitId)
    requires TruncationInjective(store.Keys)
    requires TrueWalks(store, depth, frags)
    requires x in KeepSet(frags, depth) && y in KeepSet(frags, depth) && x != y
    ensures frags[x].Supports(frags[y].summary, depth) <==>
            && depth(x) == depth(y) && y in Boundary(store, depth, x)
            && Boundary(store, depth, y) <= Boundary(store, depth, x) + {x}
  {
    hide Raw, Boundary, KeepSet, TruncationInjective;
    assert x in frags && y in frags by { KeptPresent(frags, depth); }
    if depth(x) == depth(y) {
      LevelSupportIff(store, depth, frags[x], frags[y]);
    } else if frags[x].Supports(frags[y].summary, depth) {
      KeptSupportIsLevel(frags, depth, x, y);
      assert false;
    }
  }

  lemma KeptPresent(frags: Fragments, depth: Depth)
    ensures KeepSet(frags, depth) <= frags.Keys
  {
  }

  /** Of two walks of equal depth the upper supports the lower, and both are kept. */
  lemma LevelSupportSurvives(k: CommitId, b: CommitId)
    requires k != b
    ensures var upper, lower := FlatFragment(k, {b}), FlatFragment(b, {});
            var frags: Fragments := map[k := upper, b := lower];
            && TrueWalks(Pair(k, b), FLAT, frags)
            && upper.Supports(lower.summary, FLAT)
            && KeepSet(frags, FLAT) == {k, b}
  {
    hide Raw, KeepSet, Boundary;
    PairWalks(k, b);
    var frags: Fragments := map[k := FlatFragment(k, {b}), b := FlatFragment(b, {})];
    assert RawCheckpoints(Pair(k, b), FLAT, k) == {} && RawCheckpoints(Pair(k, b), FLAT, b) == {};
    KeepSetUnique(frags, FLAT, {k, b});
  }

  function FlatFragment(head: CommitId, boundary: set<CommitId>): Fragment {
    Fragment([], FragmentSummary(head, boundary, BlobMeta([], 0)), {})
  }

  /**
   Minimizing an honest tree conserves its cover exactly when every loose commit
   lies below a tip or inside a fragment of the tree.
   */
  lemma MinimizeConservesCoverIff(store: Store, depth: Depth, t: Tree)
    requires TruncationInjective(store.Keys)
    requires Honest(store, depth, t)
    ensures Honest(store, depth, MinimizedTree(t, depth))
    ensures Cover(store, depth, MinimizedTree(t, depth)) == Cover(store, depth, t) <==>
            t.commits.Keys <= BelowTips(t.commits) + RawUnion(store, depth, t.fragments.Keys)
  {
    hide Raw, KeepSet, TrueWalk, Survives, TruncationInjective, BelowTips;
    var u := MinimizedTree(t, depth);
    assert Honest(store, depth, u);
    assert u.commits.Keys == Survivors(t.commits, depth, u.fragments.Values);
    forall x, c | x in t.fragments && c in Raw(store, depth, x) ensures c in Cover(store, depth, u) {
      if x !in u.fragments {
        var top := DroppedWalkIsKept(store, depth, t.fragments, x);
        assert top in u.fragments;
      }
    }
    forall c | c in t.commits && c in BelowTips(t.commits) ensures c in Cover(store, depth, u) {
      if c !in u.commits {
        forall f | f in u.fragments.Values ensures PartialWalk(store, depth, f) {
          TrueIsPartial(store, depth, f);
        }
        PrunedIsCovered(store, depth, t.commits, u.fragments.Values, c);
        var f :| f in u.fragments.Values && c in Raw(store, depth, f.Head());
      }
    }
    forall c | c in u.commits ensures c in BelowTips(t.commits) {
      SurvivorIsBelow(t.commits, depth, u.fragments.Values, c);
    }
    if Cover(store, depth, u) == Cover(store, depth, t) {
      forall c | c in t.commits ensures c in BelowTips(t.commits) + RawUnion(store, depth, t.fragments.Keys) {
        assert c in Cover(store, depth, u);
      }
    }
  }

  lemma TrueIsPartial(store: Store, depth: Depth, f: Fragment)
    requires TrueWalk(store, depth, f)
    ensures PartialWalk(store, depth, f)
  {
    hide Anchored;
  }

  lemma SurvivorIsBelow(commits: Commits, depth: Depth, frags: set<Fragment>, c: CommitId)
    requires c in Survivors(commits, depth, frags)
    ensures c in BelowTips(commits)
  {
    hide InRange, BelowTips;
    MetIsBelow(commits, depth);
  }

  /** An acyclic history is such a case. */
  lemma MinimizeConservesCover(store: Store, depth: Depth, t: Tree, rank: CommitId -> nat)
    requires Ranked(store, rank) && TruncationInjective(store.Keys)
    requires Honest(store, depth, t)
    ensures Honest(store, depth, MinimizedTree(t, depth))
    ensures Cover(store, depth, MinimizedTree(t, depth)) == Cover(store, depth, t)
  {
    hide TruncationInjective, BelowTips, RawUnion, TrueWalk, MinimizedTree, Cover;
    MinimizeConservesCoverIff(store, depth, t);
    forall x, y | x in t.commits && y in ParentGraph(t.commits)[x] ensures rank(y) < rank(x) {
      assert y in store[x];
    }
    forall c | c in t.commits ensures c in BelowTips(t.commits) {
      BelowSomeTip(t.commits, c, rank);
    }
  }

  /** A second minimization changes nothing exactly when the loose commits left lie below their own tips. */
  lemma MinimizeIdempotentIff(t: Tree, depth: Depth)
    ensures var u := MinimizedTree(t, depth);
            MinimizedTree(u, depth) == u <==> u.commits.Keys <= BelowTips(u.commits)
  {
    hide KeepSet, Survives, BelowTips;
    var u := MinimizedTree(t, depth);
    KeepSetIdempotent(t.fragments, depth);
    assert Restrict(u.fragments, KeepSet(u.fragments, depth)) == u.fragments;
    PruningIdempotentIff(t.commits, depth, u.fragments.Values);
  }

  lemma MinimizeIdempotent(t: Tree, depth: Depth, rank: CommitId -> nat)
    requires Ranked(ParentGraph(t.commits), rank)
    ensures MinimizedTree(MinimizedTree(t, depth), depth) == MinimizedTree(t, depth)
  {
    hide KeepSet, Survives, BelowTips;
    var u := MinimizedTree(t, depth);
    PruningIdempotent(t.commits, depth, u.fragments.Values, rank);
    PruningIdempotentIff(t.commits, depth, u.fragments.Values);
    MinimizeIdempotentIff(t, depth);
  }

  // ----- Minimization and merge -----

  ghost function MinimizedFragments(frags: Fragments, depth: Depth): Fragments {
    Restrict(frags, KeepSet(frags, depth))
  }

  /** Minimizing before a merge is absorbed by minimizing after it. */
  ghost predicate Confluent(digest: Fragment -> nat, a: Fragments, b: Fragments, depth: Depth) {
    MinimizedFragments(Merged(digest, MinimizedFragments(a, depth), MinimizedFragments(b, depth)), depth)
    == MinimizedFragments(Merged(digest, a, b), depth)
  }

  /** The same range, whatever the payload. */
  predicate SameRange(f: Fragment, g: Fragment) {
    f.Head() == g.Head() && f.Boundary() == g.Boundary() && f.checkpoints == g.checkpoints
  }

  lemma SameRangeSameVerdicts(f: Fragment, g: Fragment, f': Fragment, g': Fragment, depth: Depth)
    requires SameRange(f, f') && SameRange(g, g')
    ensures Dominates(f, g, depth) <==> Dominates(f', g', depth)
  {
    assert forall b :: f.SupportsBlock(b) <==> f'.SupportsBlock(b);
  }

  /** A part that still has everything the whole keeps, keeps the same. */
  lemma PartKeepsTheSame(m: Fragments, m': Fragments, depth: Depth)
    requires forall x :: x in m' ==> x in m && SameRange(m'[x], m[x])
    requires KeepSet(m, depth) <= m'.Keys
    ensures KeepSet(m', depth) == KeepSet(m, depth)
  {
    hide KeepSet, Dominates, SameRange;
    var k := KeepSet(m, depth);
    KeepSetUnique(m, depth, k);
    forall x, y | x in m' && y in m' ensures Dominates(m'[y], m'[x], depth) <==> Dominates(m[y], m[x], depth) {
      SameRangeSameVerdicts(m'[y], m'[x], m[y], m[x], depth);
    }
    KeepSetUnique(m', depth, k);
  }

  /** What the merge of two minimized maps holds. */
  lemma MergedMinimized(digest: Fragment -> nat, a: Fragments, b: Fragments, depth: Depth, m': Fragments)
    requires forall k :: k in a && k in b ==> SameRange(a[k], b[k])
    requires m' == Merged(digest, MinimizedFragments(a, depth), MinimizedFragments(b, depth))
    ensures m'.Keys == KeepSet(a, depth) + KeepSet(b, depth)
    ensures forall x :: x in m' ==> x in Merged(digest, a, b) && SameRange(m'[x], Merged(digest, a, b)[x])
  {
    hide KeepSet;
    KeptPresent(a, depth);
    KeptPresent(b, depth);
  }

  /** One side kept the item that the merge holds for `x`. */
  ghost predicate KeptItem(digest: Fragment -> nat, a: Fragments, b: Fragments, depth: Depth, x: CommitId) {
    var m := Merged(digest, a, b);
    x in m && ((x in KeepSet(a, depth) && x in a && a[x] == m[x]) || (x in KeepSet(b, depth) && x in b && b[x] == m[x]))
  }

  /** Maps of the same ranges merge confluently exactly if each item the merge keeps, one side kept. */
  lemma ConfluentIff(digest: Fragment -> nat, a: Fragments, b: Fragments, depth: Depth)
    requires forall k :: k in a && k in b ==> SameRange(a[k], b[k])
    ensures Confluent(digest, a, b, depth) <==>
            forall x :: x in KeepSet(Merged(digest, a, b), depth) ==> KeptItem(digest, a, b, depth, x)
  {
    hide KeepSet, SameRange;
    var m, m' := Merged(digest, a, b), Merged(digest, MinimizedFragments(a, depth), MinimizedFragments(b, depth));
    MergedMinimized(digest, a, b, depth, m');
    KeptPresent(m, depth);
    KeptPresent(m', depth);
    var r, r' := MinimizedFragments(m, depth), MinimizedFragments(m', depth);
    assert r.Keys == KeepSet(m, depth) && r'.Keys == KeepSet(m', depth);
    forall x | x in KeepSet(m, depth) && KeptItem(digest, a, b, depth, x) ensures x in m' && m'[x] == m[x] {
    }
    if forall x :: x in KeepSet(m, depth) ==> KeptItem(digest, a, b, depth, x) {
      PartKeepsTheSame(m, m', depth);
    }
    if Confluent(digest, a, b, depth) {
      forall x | x in KeepSet(m, depth) ensures KeptItem(digest, a, b, depth, x) {
        assert x in r && r[x] == r'[x];
      }
    }
  }

  ghost predicate TransitiveDomination(frags: Fragments, depth: Depth) {
    forall x, y, z :: x in frags && y in frags && z in frags ==>
      Dominates(frags[x], frags[y], depth) && Dominates(frags[y], frags[z], depth) ==>
        Dominates(frags[x], frags[z], depth)
  }

  /** Where domination is transitive, a fragment kept in a union was kept in each part that held it. */
  lemma KeptInParts(m: Fragments, a: Fragments, depth: Depth, x: CommitId)
    requires TransitiveDomination(m, depth)
    requires forall k :: k in a ==> k in m && SameRange(a[k], m[k])
    requires x in a && x in KeepSet(m, depth)
    ensures x in KeepSet(a, depth)
  {
    hide KeepSet, Dominates;
    KeepSetUnique(m, depth, KeepSet(m, depth));
    KeepSetUnique(a, depth, KeepSet(a, depth));
    forall y | y in KeepSet(a, depth) ensures !Dominates(a[y], a[x], depth) {
      SameRangeSameVerdicts(a[y], a[x], m[y], m[x], depth);
    }
  }

  /** So merging is confluent, even where the parts hold different payloads for one range. */
  lemma TransitiveConfluent(digest: Fragment -> nat, a: Fragments, b: Fragments, depth: Depth)
    requires forall k :: k in a && k in b ==> SameRange(a[k], b[k])
    requires TransitiveDomination(Merged(digest, a, b), depth)
    ensures Confluent(digest, a, b, depth)
  {
    hide KeepSet, TransitiveDomination;
    var m, m' := Merged(digest, a, b), Merged(digest, MinimizedFragments(a, depth), MinimizedFragments(b, depth));
    var k := KeepSet(m, depth);
    MergedMinimized(digest, a, b, depth, m');
    KeptPresent(m, depth);
    forall x | x in k ensures x in m' && m'[x] == m[x] {
      if x in a { KeptInParts(m, a, depth, x); }
      if x in b { KeptInParts(m, b, depth, x); }
    }
    PartKeepsTheSame(m, m', depth);
  }

  /** True walks of one history are such a case. */
  lemma MinimizeThenMerge(store: Store, depth: Depth, digest: Fragment -> nat, a: Fragments, b: Fragments)
    requires TruncationInjective(store.Keys)
    requires TrueWalks(store, depth, a) && TrueWalks(store, depth, b)
    ensures Confluent(digest, a, b, depth)
  {
    hide Dominates, TruncationInjective, Confluent, Raw, Boundary, Complete;
    var m := Merged(digest, a, b);
    assert TrueWalks(store, depth, m);
    forall x, y, z | x in m && y in m && z in m && Dominates(m[x], m[y], depth) && Dominates(m[y], m[z], depth)
      ensures Dominates(m[x], m[z], depth)
    {
      DominatesTransitive(store, depth, m[x], m[y], m[z]);
    }
    TransitiveConfluent(digest, a, b, depth);
  }

  // Three fragments whose metadata is not a walk: each dominates the next, and the first does not dominate the last.

  function Bare(head: CommitId, checkpoints: set<Checkpoint>): Fragment {
    Fragment([], FragmentSummary(head, {}, BlobMeta([], 0)), checkpoints)
  }

  function Steps(e: CommitId, f: CommitId): Depth {
    x => if x == e then 3 else if x == f then 2 else 1
  }

  /** On arbitrary metadata minimizing before a merge can drop what minimizing after it keeps. */
  lemma MinimizeThenMergeNeedsWalks(e: CommitId, f: CommitId, g: CommitId, digest: Fragment -> nat)
    requires Truncate(e) != Truncate(f) && Truncate(f) != Truncate(g) && Truncate(e) != Truncate(g)
    ensures var depth := Steps(e, f);
            var a := map[f := Bare(f, {Truncate(g)}), g := Bare(g, {})];
            var b := map[e := Bare(e, {Truncate(f)})];
            && MinimizedFragments(Merged(digest, a, b), depth).Keys == {e, g}
            && MinimizedFragments(a, depth).Keys == {f} && MinimizedFragments(b, depth).Keys == {e}
            && !Confluent(digest, a, b, depth)
  {
    hide KeepSet, Dominates, Confluent;
    var depth := Steps(e, f);
    var fe, ff, fg := Bare(e, {Truncate(f)}), Bare(f, {Truncate(g)}), Bare(g, {});
    BareVerdicts(e, f, g);
    var a: Fragments := map[f := ff, g := fg];
    var b: Fragments := map[e := fe];
    KeepSetUnique(a, depth, {f});
    KeepSetUnique(b, depth, {e});
    assert Merged(digest, a, b) == map[e := fe, f := ff, g := fg];
    KeepSetUnique(map[e := fe, f := ff, g := fg], depth, {e, g});
    ConfluentIff(digest, a, b, depth);
    assert g in KeepSet(Merged(digest, a, b), depth) && !KeptItem(digest, a, b, depth, g);
  }

  lemma BareVerdicts(e: CommitId, f: CommitId, g: CommitId)
    requires Truncate(e) != Truncate(f) && Truncate(f) != Truncate(g) && Truncate(e) != Truncate(g)
    ensures var depth := Steps(e, f);
            var fe, ff, fg := Bare(e, {Truncate(f)}), Bare(f, {Truncate(g)}), Bare(g, {});
            && Dominates(fe, ff, depth) && Dominates(ff, fg, depth) && !Dominates(fe, fg, depth)
            && !Dominates(fe, fe, depth) && !Dominates(ff, ff, depth) && !Dominates(fg, fg, depth)
            && !Dominates(ff, fe, depth) && !Dominates(fg, fe, depth) && !Dominates(fg, ff, depth)
  {
    assert Bare(e, {Truncate(f)}).SupportsBlock(f) && Bare(f, {Truncate(g)}).SupportsBlock(g);
  }
}
