/**
 What rounds of reconciliation achieve between peers over one history, whether
 their fragments are stripped or not.
 */
module Convergence {
  import opened Graph
  import opened Ids
  import opened Walk
  import opened Build
  import opened Strata
  import opened Trees
  import opened KeepSets
  import opened Simplify
  import opened Minimize
  import opened Sync

  /** Entries are filed by head, loose commits are of the history, and fragments have the boundaries of their walks. */
  ghost predicate Grounded(store: Store, depth: Depth, t: Tree) {
    && t.Valid()
    && FromStore(store, t.commits)
    && forall k :: k in t.fragments ==> Anchored(store, depth, t.fragments[k])
  }

  lemma HonestIsGrounded(store: Store, depth: Depth, t: Tree)
    requires Honest(store, depth, t)
    ensures Grounded(store, depth, t)
  {
    hide Anchored;
  }

  /** Every boundary commit of the peer's fragments is itself covered by the peer. */
  ghost predicate BoundaryCovered(store: Store, depth: Depth, t: Tree) {
    BoundaryIds(t) <= Cover(store, depth, t)
  }

  lemma MergeGrounded(store: Store, depth: Depth, d: Digests, t: Tree, u: Tree)
    requires Grounded(store, depth, t) && Grounded(store, depth, u)
    ensures Grounded(store, depth, MergedTree(d, t, u))
  {
    hide Anchored;
  }

  /** What a merge covers is what its parts cover. */
  lemma MergeCovers(store: Store, depth: Depth, d: Digests, t: Tree, u: Tree)
    ensures Cover(store, depth, MergedTree(d, t, u)) == Cover(store, depth, t) + Cover(store, depth, u)
  {
    hide RawUnion;
    var m := MergedTree(d, t, u);
    assert m.fragments.Keys == t.fragments.Keys + u.fragments.Keys;
    assert m.commits.Keys == t.commits.Keys + u.commits.Keys;
    RawUnionAdds(store, depth, t.fragments.Keys, u.fragments.Keys);
  }

  lemma PartGrounded(store: Store, depth: Depth, t: Tree, fs: set<CommitId>, cs: set<CommitId>)
    requires Grounded(store, depth, t)
    ensures Grounded(store, depth, Tree(Restrict(t.fragments, fs), Restrict(t.commits, cs)))
  {
    hide Anchored;
  }

  /** The parents met by the pruning walk stay within the requestor's fragments and their boundaries. */
  lemma WalkStaysWithin(store: Store, depth: Depth, to: Tree, f: CommitId, x: CommitId, p: CommitId)
    requires Grounded(store, depth, to) && f in to.fragments
    requires x in Raw(store, depth, f) && x in store && p in store[x]
    ensures p in RawUnion(store, depth, to.fragments.Keys) + Named(to)
  {
    hide Raw, Complete;
    RawParents(store, depth, f, x, p);
    assert Anchored(store, depth, to.fragments[f]);
  }

  /**
   Soundness of ancestry pruning: whatever the responder withholds, the requestor
   names itself or holds inside one of its fragments.
   */
  lemma PruningSound(store: Store, depth: Depth, to: Tree, from: Tree)
    requires Grounded(store, depth, to) && Grounded(store, depth, from)
    ensures Withheld(to, from) <= Named(to) + RawUnion(store, depth, to.fragments.Keys)
  {
    hide Reach, Raw, Anchored, Named;
    var g, roots := PrunedWalk(to, from), SharedHeads(to, from);
    var ok := Named(to) + RawUnion(store, depth, to.fragments.Keys);
    ReachClosed(g, roots);
    var s := set x | x in Reach(g, roots) && x in ok;
    forall x | x in roots ensures x in s {
      RawClosed(store, depth, x);
    }
    forall x, p | x in s && p in Next(g, x) ensures p in s {
      assert p in store[x];
      if x in roots {
        RawClosed(store, depth, x);
        WalkStaysWithin(store, depth, to, x, x, p);
      } else {
        var f :| f in to.fragments && x in Raw(store, depth, f);
        WalkStaysWithin(store, depth, to, f, x, p);
      }
    }
    ReachLeast(g, roots, s);
  }

  /**
   And it prunes: where the responder has the whole walk of a remote fragment loose, and
   the requestor names nothing in it but fragment heads, none of it is sent.
   */
  lemma PruningComplete(store: Store, depth: Depth, to: Tree, from: Tree, f: CommitId)
    requires Grounded(store, depth, from) && f in to.fragments
    requires Raw(store, depth, f) <= from.commits.Keys
    requires Raw(store, depth, f) * Named(to) <= to.fragments.Keys
    ensures Raw(store, depth, f) <= Withheld(to, from)
    ensures Sent(to, from).commits.Keys !! Raw(store, depth, f)
  {
    hide Reach, Raw, Named, Anchored;
    var walk, roots := PrunedWalk(to, from), SharedHeads(to, from);
    ReachClosed(walk, roots);
    RawClosed(store, depth, f);
    var s := set m | m in Raw(store, depth, f) && m in Reach(walk, roots);
    forall m, p | m in s && m in store && p in store[m] && depth(p) < depth(f) ensures p in s {
      assert m in from.commits && from.commits[m].parents == store[m];
      assert p in Next(walk, m);
    }
    RawLeast(store, depth, f, s);
  }

  /** A boundary commit that `to` names is withheld by `from`; unless `to` gets it otherwise, it stays missing. */
  ghost predicate NoGap(store: Store, depth: Depth, to: Tree, from: Tree) {
    forall b :: b in BoundaryIds(to) && b in from.commits ==>
      b in Cover(store, depth, to) + RawUnion(store, depth, from.fragments.Keys)
  }

  /**
   A tree built from `to` and those items of `from` that `to` does not already
   have, or name, or hold in a fragment.
   */
  lemma {:induction false} DeliveryIff(store: Store, depth: Depth, d: Digests, to: Tree, from: Tree, sent: Tree,
                                       held: set<CommitId>)
    requires Grounded(store, depth, to) && Grounded(store, depth, from)
    requires Named(to) <= held <= Named(to) + RawUnion(store, depth, to.fragments.Keys)
    requires sent == Tree(Restrict(from.fragments, from.fragments.Keys - to.fragments.Keys),
                          Restrict(from.commits, from.commits.Keys - held))
    ensures Grounded(store, depth, MergedTree(d, to, sent))
    ensures NoGap(store, depth, to, from) <==>
            Cover(store, depth, MergedTree(d, to, sent)) == Cover(store, depth, to) + Cover(store, depth, from)
  {
    hide Grounded, RawUnion, MergedTree;
    PartGrounded(store, depth, from, from.fragments.Keys - to.fragments.Keys, from.commits.Keys - held);
    MergeGrounded(store, depth, d, to, sent);
    MergeCovers(store, depth, d, to, sent);
    var got := Cover(store, depth, to) + Cover(store, depth, sent);
    assert to.fragments.Keys + sent.fragments.Keys == to.fragments.Keys + from.fragments.Keys;
    RawUnionAdds(store, depth, to.fragments.Keys, sent.fragments.Keys);
    RawUnionAdds(store, depth, to.fragments.Keys, from.fragments.Keys);
    if NoGap(store, depth, to, from) {
      forall c | c in from.commits ensures c in got {
        if c !in sent.commits && c !in RawUnion(store, depth, to.fragments.Keys) {
          assert c in Named(to);
          if c in to.fragments {
            HeadInUnion(store, depth, to.fragments.Keys, c);
          }
        }
      }
    }
    if got == Cover(store, depth, to) + Cover(store, depth, from) {
      forall b | b in BoundaryIds(to) && b in from.commits
        ensures b in Cover(store, depth, to) + RawUnion(store, depth, from.fragments.Keys)
      {
        assert b in got && b !in sent.commits;
      }
    }
  }

  /**
   One round brings each peer everything the other covers exactly when neither
   names a boundary commit that it lacks and the other holds as a loose commit.
   */
  lemma RoundDeliversIff(store: Store, depth: Depth, d: Digests, a: Tree, b: Tree)
    requires Grounded(store, depth, a) && Grounded(store, depth, b)
    ensures Grounded(store, depth, RequestorAfter(d, a, b)) && Grounded(store, depth, ResponderAfter(d, a, b))
    ensures NoGap(store, depth, a, b) <==>
            Cover(store, depth, RequestorAfter(d, a, b)) == Cover(store, depth, a) + Cover(store, depth, b)
    ensures NoGap(store, depth, b, a) <==>
            Cover(store, depth, ResponderAfter(d, a, b)) == Cover(store, depth, a) + Cover(store, depth, b)
  {
    hide Grounded, Raw, Reach, MergedTree, NoGap, Cover, RawUnion, Named;
    PruningSound(store, depth, a, b);
    DeliveryIff(store, depth, d, a, b, Sent(a, b), Withheld(a, b));
    DeliveryIff(store, depth, d, b, a, Answered(b, a), Named(b));
  }

  /** Under the standing assumption one round equalises the covers, and the assumption survives it. */
  lemma RoundConverges(store: Store, depth: Depth, d: Digests, a: Tree, b: Tree)
    requires Grounded(store, depth, a) && Grounded(store, depth, b)
    requires BoundaryCovered(store, depth, a) && BoundaryCovered(store, depth, b)
    ensures var a', b' := RequestorAfter(d, a, b), ResponderAfter(d, a, b);
            var all := Cover(store, depth, a) + Cover(store, depth, b);
            && Grounded(store, depth, a') && Grounded(store, depth, b')
            && Cover(store, depth, a') == Cover(store, depth, b') == all
            && BoundaryCovered(store, depth, a') && BoundaryCovered(store, depth, b')
  {
    hide Grounded, Raw, Reach, Cover, RawUnion;
    RoundDeliversIff(store, depth, d, a, b);
    assert NoGap(store, depth, a, b) && NoGap(store, depth, b, a);
    BoundaryOfMerge(d, a, Sent(a, b));
    BoundaryOfMerge(d, b, Answered(b, a));
    BoundaryOfPart(b, Sent(a, b));
    BoundaryOfPart(a, Answered(b, a));
  }

  /** Peers that hold true walks go on to do so. */
  lemma RoundHonest(store: Store, depth: Depth, d: Digests, a: Tree, b: Tree)
    requires Honest(store, depth, a) && Honest(store, depth, b)
    ensures Honest(store, depth, RequestorAfter(d, a, b)) && Honest(store, depth, ResponderAfter(d, a, b))
  {
    hide TrueWalk, Anchored, RequestorAfter, ResponderAfter, NoGap, Cover;
    HonestIsGrounded(store, depth, a);
    HonestIsGrounded(store, depth, b);
    RoundDeliversIff(store, depth, d, a, b);
    RoundFragments(d, a, b);
  }

  /** No round makes up a fragment. */
  lemma RoundFragments(d: Digests, a: Tree, b: Tree)
    ensures RequestorAfter(d, a, b).fragments ==
            Restrict(b.fragments, b.fragments.Keys - a.fragments.Keys) + a.fragments
    ensures ResponderAfter(d, a, b).fragments ==
            Restrict(a.fragments, a.fragments.Keys - b.fragments.Keys) + b.fragments
  {
    hide Withheld, Named;
  }

  lemma BoundaryOfMerge(d: Digests, t: Tree, u: Tree)
    ensures BoundaryIds(MergedTree(d, t, u)) <= BoundaryIds(t) + BoundaryIds(u)
  {
  }

  lemma BoundaryOfPart(t: Tree, u: Tree)
    requires forall k :: k in u.fragments ==> k in t.fragments && u.fragments[k] == t.fragments[k]
    ensures BoundaryIds(u) <= BoundaryIds(t)
  {
  }

  // ----- When there is nothing left to say -----

  /** A round between these peers would transfer nothing in either direction. */
  ghost predicate Quiet(a: Tree, b: Tree) {
    && Sent(a, b) == EMPTY
    && Named(a) <= Named(b)
    && a.fragments.Keys <= b.fragments.Keys
  }

  ghost function BoundaryUnion(store: Store, depth: Depth, heads: set<CommitId>): set<CommitId> {
    set h, b | h in heads && b in Boundary(store, depth, h) :: b
  }

  /** A grounded peer's boundary names follow from its fragment heads. */
  lemma BoundaryOfHeads(store: Store, depth: Depth, t: Tree)
    requires Grounded(store, depth, t)
    ensures BoundaryIds(t) == BoundaryUnion(store, depth, t.fragments.Keys)
  {
    hide Raw, Complete, Boundary;
    forall k | k in t.fragments ensures t.fragments[k].Boundary() == Boundary(store, depth, k) {
      assert Anchored(store, depth, t.fragments[k]);
    }
  }

  /** The keys of the two trees after a round. */
  lemma RoundKeys(d: Digests, a: Tree, b: Tree)
    ensures var a', b' := RequestorAfter(d, a, b), ResponderAfter(d, a, b);
            && a'.fragments.Keys == b'.fragments.Keys == a.fragments.Keys + b.fragments.Keys
            && a'.commits.Keys == a.commits.Keys + (b.commits.Keys - Withheld(a, b))
            && b'.commits.Keys == b.commits.Keys + (a.commits.Keys - Named(b))
  {
    hide Named, Withheld, Merged;
    MergedKeys(d.fragment, a.fragments, Sent(a, b).fragments);
    MergedKeys(d.commit, a.commits, Sent(a, b).commits);
    MergedKeys(d.fragment, b.fragments, Answered(b, a).fragments);
    MergedKeys(d.commit, b.commits, Answered(b, a).commits);
  }

  lemma MergedKeys<V>(digest: V -> nat, a: map<CommitId, V>, b: map<CommitId, V>)
    ensures Merged(digest, a, b).Keys == a.Keys + b.Keys
  {
  }

  /** The names the requestor will have after the round. */
  ghost function NamesAfter(a: Tree, b: Tree): set<CommitId> {
    a.commits.Keys + (b.commits.Keys - Withheld(a, b)) + HeadsAfter(a, b) + BoundaryIds(a) + BoundaryIds(b)
  }

  ghost function HeadsAfter(a: Tree, b: Tree): set<CommitId> {
    a.fragments.Keys + b.fragments.Keys
  }

  /** The pruning walk of the round after this one. */
  ghost function NextWalk(a: Tree, b: Tree): map<CommitId, set<CommitId>> {
    map id | id in b.commits.Keys + (a.commits.Keys - Named(b))
             && (id in HeadsAfter(a, b) || id !in NamesAfter(a, b)) ::
      if id in b.commits then b.commits[id].parents else a.commits[id].parents
  }

  lemma BoundaryAfter(store: Store, depth: Depth, d: Digests, a: Tree, b: Tree)
    requires Grounded(store, depth, a) && Grounded(store, depth, b)
    ensures BoundaryIds(RequestorAfter(d, a, b)) == BoundaryIds(a) + BoundaryIds(b)
    ensures BoundaryIds(ResponderAfter(d, a, b)) == BoundaryIds(a) + BoundaryIds(b)
  {
    hide Grounded, Withheld, Named, BoundaryIds, RequestorAfter, ResponderAfter, Cover, NoGap, Boundary;
    RoundDeliversIff(store, depth, d, a, b);
    RoundKeys(d, a, b);
    BoundaryOfHeads(store, depth, a);
    BoundaryOfHeads(store, depth, b);
    BoundaryOfHeads(store, depth, RequestorAfter(d, a, b));
    BoundaryOfHeads(store, depth, ResponderAfter(d, a, b));
  }

  /** What the peers name after a round. */
  lemma NextNames(store: Store, depth: Depth, d: Digests, a: Tree, b: Tree)
    requires Grounded(store, depth, a) && Grounded(store, depth, b)
    ensures var a', b' := RequestorAfter(d, a, b), ResponderAfter(d, a, b);
            && Named(a') == NamesAfter(a, b) && Named(a') <= Named(b')
            && SharedHeads(a', b') == HeadsAfter(a, b)
  {
    hide Grounded, Withheld, BoundaryIds, RequestorAfter, ResponderAfter;
    RoundKeys(d, a, b);
    BoundaryAfter(store, depth, d, a, b);
  }

  lemma ParentsOf(store: Store, depth: Depth, t: Tree)
    requires Grounded(store, depth, t)
    ensures forall c :: c in t.commits ==> c in store && t.commits[c].parents == store[c]
  {
    hide Anchored;
  }

  /** How the next round would walk. */
  lemma NextRound(store: Store, depth: Depth, d: Digests, a: Tree, b: Tree)
    requires Grounded(store, depth, a) && Grounded(store, depth, b)
    ensures PrunedWalk(RequestorAfter(d, a, b), ResponderAfter(d, a, b)) == NextWalk(a, b)
  {
    hide Grounded, Withheld, Named, RequestorAfter, ResponderAfter, Cover, NoGap, NamesAfter, HeadsAfter, SharedHeads;
    RoundDeliversIff(store, depth, d, a, b);
    RoundKeys(d, a, b);
    NextNames(store, depth, d, a, b);
    ParentsOf(store, depth, a);
    ParentsOf(store, depth, b);
    ParentsOf(store, depth, ResponderAfter(d, a, b));
  }

  /**
   One round leaves the peers quiet exactly when the next pruning walk, over the
   names and heads the round leaves behind, reaches every commit withheld in this
   one that the requestor does not name by then.
   */
  lemma RoundQuietsIff(store: Store, depth: Depth, d: Digests, a: Tree, b: Tree)
    requires Grounded(store, depth, a) && Grounded(store, depth, b)
    ensures Quiet(RequestorAfter(d, a, b), ResponderAfter(d, a, b)) <==>
            b.commits.Keys * Withheld(a, b) <= NamesAfter(a, b) + Reach(NextWalk(a, b), HeadsAfter(a, b))
  {
    hide Grounded, Reach, Named, RequestorAfter, ResponderAfter, NextWalk, PrunedWalk, SharedHeads;
    var a', b' := RequestorAfter(d, a, b), ResponderAfter(d, a, b);
    RoundKeys(d, a, b);
    NextNames(store, depth, d, a, b);
    NextRound(store, depth, d, a, b);
    assert Withheld(a', b') == NamesAfter(a, b) + Reach(NextWalk(a, b), HeadsAfter(a, b));
    QuietIff(a', b');
    NamedParts(a);
    assert b'.commits.Keys - b.commits.Keys <= NamesAfter(a, b);
  }

  /** Between peers that name and hold the same otherwise, quiet means that no commit is sent. */
  lemma QuietIff(a: Tree, b: Tree)
    requires Named(a) <= Named(b) && a.fragments.Keys == b.fragments.Keys
    ensures Quiet(a, b) <==> b.commits.Keys <= Withheld(a, b)
  {
    hide Named, Withheld;
    assert Sent(a, b).fragments == map[];
    assert Sent(a, b).commits.Keys == b.commits.Keys - Withheld(a, b);
    if b.commits.Keys <= Withheld(a, b) {
      assert Sent(a, b).commits == map[];
    } else {
      var c :| c in b.commits && c !in Withheld(a, b);
      assert c in Sent(a, b).commits;
    }
  }

  /** Between peers with the same fragment heads, the next walk goes wherever this one does. */
  lemma LevelWalk(store: Store, depth: Depth, a: Tree, b: Tree)
    requires Grounded(store, depth, a) && Grounded(store, depth, b)
    requires a.fragments.Keys == b.fragments.Keys
    ensures Reach(PrunedWalk(a, b), SharedHeads(a, b)) <= Reach(NextWalk(a, b), HeadsAfter(a, b))
    ensures Named(a) <= NamesAfter(a, b)
  {
    hide Grounded, Reach, BoundaryIds, Boundary;
    BoundaryOfHeads(store, depth, a);
    BoundaryOfHeads(store, depth, b);
    var g, g' := PrunedWalk(a, b), NextWalk(a, b);
    var roots := a.fragments.Keys;
    assert SharedHeads(a, b) == roots == HeadsAfter(a, b);
    ReachClosed(g, roots);
    ReachClosed(g', roots);
    var s := Reach(g, roots) * Reach(g', roots);
    forall x, y | x in s && y in Next(g, x) ensures y in s {
      assert x in Withheld(a, b);
      assert x in g' && g'[x] == g[x];
      assert y in Next(g', x);
    }
    ReachLeast(g, roots, s);
  }

  /** Once the fragment heads agree, one round leaves the peers quiet. */
  lemma LevelRoundQuiets(store: Store, depth: Depth, d: Digests, a: Tree, b: Tree)
    requires Grounded(store, depth, a) && Grounded(store, depth, b)
    requires a.fragments.Keys == b.fragments.Keys
    ensures Quiet(RequestorAfter(d, a, b), ResponderAfter(d, a, b))
  {
    hide Grounded, Reach, Named, Quiet, RequestorAfter, ResponderAfter, NextWalk, PrunedWalk, NamesAfter;
    RoundQuietsIff(store, depth, d, a, b);
    LevelWalk(store, depth, a, b);
  }

  lemma NamedWithheld(a: Tree, b: Tree)
    ensures Named(a) <= Withheld(a, b)
  {
    hide Named, Reach;
  }

  /** Two rounds, under any two seeds, leave nothing to transfer. */
  lemma TwoRoundsQuiet(store: Store, depth: Depth, d: Digests, a: Tree, b: Tree)
    requires Grounded(store, depth, a) && Grounded(store, depth, b)
    ensures var a1, b1 := RequestorAfter(d, a, b), ResponderAfter(d, a, b);
            Quiet(RequestorAfter(d, a1, b1), ResponderAfter(d, a1, b1))
  {
    hide Grounded, RequestorAfter, ResponderAfter, Quiet, Withheld, Named;
    RoundDeliversIff(store, depth, d, a, b);
    RoundKeys(d, a, b);
    LevelRoundQuiets(store, depth, d, RequestorAfter(d, a, b), ResponderAfter(d, a, b));
  }

  lemma MergeNothing(d: Digests, t: Tree)
    ensures MergedTree(d, t, EMPTY) == t
  {
  }

  /** A quiet pair is a fixpoint: a further round changes neither peer, and the wire carries nothing. */
  lemma QuietIsFixpoint(d: Digests, fp: Fingerprint, a: Tree, b: Tree)
    requires Quiet(a, b)
    ensures RequestorAfter(d, a, b) == a && ResponderAfter(d, a, b) == b
    ensures CollisionFree(fp, Mentioned(a, b)) ==> DiffOf(fp, b, Summarize(fp, a)) == Diff(map[], map[], {}, {})
  {
    hide Sent, CollisionFree, MergedTree, DiffOf, Named, Summarize;
    NamedParts(a);
    assert Answered(b, a) == EMPTY;
    MergeNothing(d, a);
    MergeNothing(d, b);
    if CollisionFree(fp, Mentioned(a, b)) {
      DiffByIds(fp, a, b);
    }
  }
}
