/** Two small networks that show what the assumptions of the convergence results are for. */
module Gaps {
  import opened Graph
  import opened Ids
  import opened Walk
  import opened Build
  import opened Strata
  import opened Trees
  import opened Minimize
  import opened Sync
  import opened Convergence

  // A deep commit `r` above `x` above `c`, and a second head `g` above `x`.

  ghost predicate Apart(r: CommitId, g: CommitId, x: CommitId, c: CommitId) {
    r != g && r != x && r != c && g != x && g != c && x != c
  }

  function History(r: CommitId, g: CommitId, x: CommitId, c: CommitId): Store {
    map[r := {x}, g := {x}, x := {c}, c := {}]
  }

  function Depths(r: CommitId, g: CommitId, x: CommitId): Depth {
    id => if id == r then 2 else if id == g || id == x then 1 else 0
  }

  const NO_BLOB := BlobMeta([], 0)

  function FragmentOfG(g: CommitId, x: CommitId): Fragment {
    Fragment([], FragmentSummary(g, {x}, NO_BLOB), {})
  }

  function FragmentOfR(r: CommitId, x: CommitId): Fragment {
    Fragment([], FragmentSummary(r, {}, NO_BLOB), {Truncate(x)})
  }

  function Loose(c: CommitId, parents: set<CommitId>): LooseCommit {
    LooseCommit([], c, parents, NO_BLOB)
  }

  lemma GWalk(r: CommitId, g: CommitId, x: CommitId, c: CommitId)
    requires Apart(r, g, x, c)
    ensures Raw(History(r, g, x, c), Depths(r, g, x), g) == {g}
    ensures TrueWalk(History(r, g, x, c), Depths(r, g, x), FragmentOfG(g, x))
  {
    hide Raw;
    var store, depth := History(r, g, x, c), Depths(r, g, x);
    RawClosed(store, depth, g);
    RawLeast(store, depth, g, {g});
    assert g in Raw(store, depth, g) && g in store && x in store[g] && depth(x) >= depth(g);
    assert x in Boundary(store, depth, g);
    assert Boundary(store, depth, g) == {x};
    assert RawCheckpoints(store, depth, g) == {};
  }

  lemma RWalk(r: CommitId, g: CommitId, x: CommitId, c: CommitId)
    requires Apart(r, g, x, c)
    ensures Raw(History(r, g, x, c), Depths(r, g, x), r) == {r, x, c}
    ensures TrueWalk(History(r, g, x, c), Depths(r, g, x), FragmentOfR(r, x))
  {
    hide Raw;
    var store, depth := History(r, g, x, c), Depths(r, g, x);
    RawClosed(store, depth, r);
    RawLeast(store, depth, r, {r, x, c});
    assert r in Raw(store, depth, r) && x in Raw(store, depth, r) && c in Raw(store, depth, r);
    assert Boundary(store, depth, r) == {};
    assert RawCheckpoints(store, depth, r) == {x};
  }

  function PeerWithG(g: CommitId, x: CommitId): Tree {
    Tree(map[g := FragmentOfG(g, x)], map[])
  }

  function PeerWithX(x: CommitId, c: CommitId): Tree {
    Tree(map[], map[x := Loose(x, {c})])
  }

  function PeerWithR(r: CommitId, x: CommitId): Tree {
    Tree(map[r := FragmentOfR(r, x)], map[])
  }

  function PeerWithHistory(r: CommitId, g: CommitId, x: CommitId, c: CommitId): Tree {
    Tree(map[g := FragmentOfG(g, x)], map[r := Loose(r, {x}), x := Loose(x, {c}), c := Loose(c, {})])
  }

  lemma FragmentPeersHonest(r: CommitId, g: CommitId, x: CommitId, c: CommitId)
    requires Apart(r, g, x, c)
    ensures Honest(History(r, g, x, c), Depths(r, g, x), PeerWithG(g, x))
    ensures Honest(History(r, g, x, c), Depths(r, g, x), PeerWithR(r, x))
  {
    hide TrueWalk, Raw, History;
    GWalk(r, g, x, c);
    RWalk(r, g, x, c);
  }

  lemma CommitPeersHonest(r: CommitId, g: CommitId, x: CommitId, c: CommitId)
    requires Apart(r, g, x, c)
    ensures Honest(History(r, g, x, c), Depths(r, g, x), PeerWithX(x, c))
    ensures Honest(History(r, g, x, c), Depths(r, g, x), PeerWithHistory(r, g, x, c))
  {
    hide TrueWalk, Raw;
    GWalk(r, g, x, c);
  }

  lemma PeerBoundaries(r: CommitId, g: CommitId, x: CommitId, c: CommitId)
    ensures BoundaryIds(PeerWithG(g, x)) == {x} && BoundaryIds(PeerWithR(r, x)) == {}
    ensures BoundaryIds(PeerWithHistory(r, g, x, c)) == {x}
  {
    assert x in PeerWithG(g, x).fragments[g].Boundary();
    assert x in PeerWithHistory(r, g, x, c).fragments[g].Boundary();
  }

  lemma GHoldsItself(r: CommitId, g: CommitId, x: CommitId, c: CommitId)
    requires Apart(r, g, x, c)
    ensures RawUnion(History(r, g, x, c), Depths(r, g, x), {g}) == {g}
  {
    hide Raw, History, Depths;
    GWalk(r, g, x, c);
  }

  /**
   A peer that names a boundary commit it does not hold never receives it: the
   other side takes the name for possession.
   */
  lemma NamedButMissing(d: Digests, r: CommitId, g: CommitId, x: CommitId, c: CommitId)
    requires Apart(r, g, x, c)
    ensures var store, depth, a, b := History(r, g, x, c), Depths(r, g, x), PeerWithG(g, x), PeerWithX(x, c);
            && Honest(store, depth, a) && Honest(store, depth, b)
            && x in Cover(store, depth, b)
            && x !in Cover(store, depth, RequestorAfter(d, a, b))
  {
    hide Honest, RawUnion, RequestorAfter, ResponderAfter, BoundaryIds, Withheld, History, Depths;
    var store, depth, a, b := History(r, g, x, c), Depths(r, g, x), PeerWithG(g, x), PeerWithX(x, c);
    FragmentPeersHonest(r, g, x, c);
    CommitPeersHonest(r, g, x, c);
    PeerBoundaries(r, g, x, c);
    RoundKeys(d, a, b);
    NamedWithheld(a, b);
    GHoldsItself(r, g, x, c);
    var a' := RequestorAfter(d, a, b);
    assert a'.fragments.Keys == {g} && a'.commits.Keys == {};
  }

  /**
   One round can level the covers and still not be quiet: the boundary it brings
   cuts the next pruning walk short, and a commit withheld before is sent after all.
   */
  lemma OneRoundMayNotQuiet(d: Digests, r: CommitId, g: CommitId, x: CommitId, c: CommitId)
    requires Apart(r, g, x, c)
    ensures var store, depth := History(r, g, x, c), Depths(r, g, x);
            var a, b := PeerWithR(r, x), PeerWithHistory(r, g, x, c);
            var a', b' := RequestorAfter(d, a, b), ResponderAfter(d, a, b);
            && Honest(store, depth, a) && Honest(store, depth, b)
            && BoundaryCovered(store, depth, a) && BoundaryCovered(store, depth, b)
            && Cover(store, depth, a') == Cover(store, depth, b')
            && !Quiet(a', b') && c in Sent(a', b').commits
  {
    hide Honest, Grounded, Quiet, RequestorAfter, ResponderAfter, BoundaryIds, RawUnion, History, Depths, Sent, Named;
    var store, depth := History(r, g, x, c), Depths(r, g, x);
    var a, b := PeerWithR(r, x), PeerWithHistory(r, g, x, c);
    FragmentPeersHonest(r, g, x, c);
    CommitPeersHonest(r, g, x, c);
    PeerBoundaries(r, g, x, c);
    HonestIsGrounded(store, depth, a);
    HonestIsGrounded(store, depth, b);
    RoundConverges(store, depth, d, a, b);
    FirstWalk(a, b, r, g, x, c);
    SecondWalk(a, b, r, g, x, c);
    RoundQuietsIff(store, depth, d, a, b);
    WithheldNoMore(store, depth, d, a, b, c);
  }

  /** A commit the responder holds, and the next round neither names nor walks over, is sent in that round. */
  lemma WithheldNoMore(store: Store, depth: Depth, d: Digests, a: Tree, b: Tree, c: CommitId)
    requires Grounded(store, depth, a) && Grounded(store, depth, b)
    requires c in b.commits && c !in NamesAfter(a, b) + Reach(NextWalk(a, b), HeadsAfter(a, b))
    ensures c in Sent(RequestorAfter(d, a, b), ResponderAfter(d, a, b)).commits
  {
    hide Grounded, Reach, Named, RequestorAfter, ResponderAfter, NextWalk, PrunedWalk, SharedHeads, NamesAfter;
    RoundKeys(d, a, b);
    NextNames(store, depth, d, a, b);
    NextRound(store, depth, d, a, b);
  }

  lemma FirstWalk(a: Tree, b: Tree, r: CommitId, g: CommitId, x: CommitId, c: CommitId)
    requires Apart(r, g, x, c)
    requires a.fragments.Keys == {r} && a.commits.Keys == {} && BoundaryIds(a) == {}
    requires b.commits.Keys == {r, x, c} && b.commits[r].parents == {x} && b.commits[x].parents == {c}
    ensures {r, x, c} <= Withheld(a, b)
  {
    hide Reach;
    var walk, roots := PrunedWalk(a, b), SharedHeads(a, b);
    ReachClosed(walk, roots);
    assert Named(a) == {r} && r in roots;
    assert x in Next(walk, r) && c in Next(walk, x);
  }

  lemma SecondWalk(a: Tree, b: Tree, r: CommitId, g: CommitId, x: CommitId, c: CommitId)
    requires Apart(r, g, x, c) && {r, x, c} <= Withheld(a, b)
    requires a.fragments.Keys == {r} && a.commits.Keys == {} && BoundaryIds(a) == {}
    requires b.fragments.Keys == {g} && BoundaryIds(b) == {x}
    requires b.commits.Keys == {r, x, c} && b.commits[r].parents == {x}
    ensures c !in NamesAfter(a, b) + Reach(NextWalk(a, b), HeadsAfter(a, b))
  {
    hide Reach, Withheld;
    assert NamesAfter(a, b) == {r, g, x} && HeadsAfter(a, b) == {r, g};
    ReachLeast(NextWalk(a, b), HeadsAfter(a, b), {r, g, x});
  }
}
