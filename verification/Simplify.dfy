/**
 Which loose commits survive minimization (`CommitDag::simplify` in
 sedimentree_core/src/sedimentree/commit_dag.rs).

 The index-linked adjacency lists of the source are modelled as the parent
 relation restricted to the commits present.
 */
module Simplify {
  import opened Graph
  import opened Ids
  import opened Walk
  import opened Strata

  type Commits = map<CommitId, LooseCommit>

  /** A commit met on the way down from a tip, with the last fragment-eligible commit passed. */
  type Node = (CommitId, Option<CommitId>)

  /** The parents of a commit that are themselves present. */
  function InTree(commits: Commits, c: CommitId): set<CommitId> {
    if c in commits then commits[c].parents * commits.Keys else {}
  }

  ghost function ParentGraph(commits: Commits): map<CommitId, set<CommitId>> {
    map c | c in commits :: InTree(commits, c)
  }

  /** Commits that are no commit's parent. */
  function Tips(commits: Commits): set<CommitId> {
    set c | c in commits && forall d :: d in commits ==> c !in commits[d].parents
  }

  /** Stepping onto a fragment-eligible commit starts a range of its own. */
  function Enter(depth: Depth, id: CommitId, range: Option<CommitId>): Node {
    (id, if depth(id) > 0 then Some(id) else range)
  }

  ghost function Ranges(commits: Commits): set<Option<CommitId>> {
    {None} + set c | c in commits :: Some(c)
  }

  ghost function RangeGraph(commits: Commits, depth: Depth): map<Node, set<Node>> {
    map c, r | c in commits && r in Ranges(commits) :: (c, r) := set p | p in InTree(commits, c) :: Enter(depth, p, r)
  }

  ghost function Starts(commits: Commits, depth: Depth): set<Node> {
    set t | t in Tips(commits) :: Enter(depth, t, None)
  }

  /** Every commit with every range it lies in. */
  ghost function InRange(commits: Commits, depth: Depth): set<Node> {
    Reach(RangeGraph(commits, depth), Starts(commits, depth))
  }

  /** Heads and checkpoints establish payload coverage of the ranges they head. */
  predicate CoversRange(f: Fragment, r: CommitId) {
    f.Head() == r || Truncate(r) in f.checkpoints
  }

  ghost predicate Survives(commits: Commits, depth: Depth, frags: set<Fragment>, c: CommitId) {
    || (c, None) in InRange(commits, depth)
    || exists r :: (c, Some(r)) in InRange(commits, depth) && !exists f :: f in frags && CoversRange(f, r)
  }

  ghost function Survivors(commits: Commits, depth: Depth, frags: set<Fragment>): set<CommitId> {
    set c | c in commits && Survives(commits, depth, frags, c)
  }

  // ----- Facts about the range walk -----

  /** Nodes are proper: a commit of this tree, in no range, its own range, or, if it is loose, another's. */
  ghost predicate Proper(commits: Commits, depth: Depth, n: Node) {
    && n.0 in commits
    && (n.1.Some? ==> n.1.value in commits && depth(n.1.value) > 0)
    && (depth(n.0) > 0 ==> n.1 == Some(n.0))
  }

  lemma StepsProper(commits: Commits, depth: Depth, n: Node)
    requires Proper(commits, depth, n)
    ensures Next(RangeGraph(commits, depth), n) == set p | p in InTree(commits, n.0) :: Enter(depth, p, n.1)
    ensures forall p :: p in InTree(commits, n.0) ==> Proper(commits, depth, Enter(depth, p, n.1))
  {
    assert n.1 in Ranges(commits);
    assert n == (n.0, n.1);
  }

  lemma InRangeClosed(commits: Commits, depth: Depth)
    ensures forall t :: t in Tips(commits) ==> Enter(depth, t, None) in InRange(commits, depth)
    ensures forall n :: n in InRange(commits, depth) ==> Proper(commits, depth, n)
    ensures forall n, p :: n in InRange(commits, depth) && p in InTree(commits, n.0)
              ==> Enter(depth, p, n.1) in InRange(commits, depth)
  {
    hide Reach, RangeGraph, Tips;
    var g, starts := RangeGraph(commits, depth), Starts(commits, depth);
    ReachClosed(g, starts);
    var s := set n | n in InRange(commits, depth) && Proper(commits, depth, n);
    assert forall t :: t in Tips(commits) ==> t in commits by { TipsPresent(commits); }
    forall n, m | n in s && m in Next(g, n) ensures m in s {
      StepsProper(commits, depth, n);
    }
    ReachLeast(g, starts, s);
    forall n, p | n in InRange(commits, depth) && p in InTree(commits, n.0)
      ensures Enter(depth, p, n.1) in InRange(commits, depth)
    {
      StepsProper(commits, depth, n);
      assert Enter(depth, p, n.1) in Next(g, n);
    }
  }

  lemma TipsPresent(commits: Commits)
    ensures Tips(commits) <= commits.Keys
  {
  }

  /** A set of proper nodes that holds the starts and is closed under steps holds every node in range. */
  lemma InRangeLeast(commits: Commits, depth: Depth, s: set<Node>)
    requires forall t :: t in Tips(commits) ==> Enter(depth, t, None) in s
    requires forall n :: n in s ==> Proper(commits, depth, n)
    requires forall n, p :: n in s && p in InTree(commits, n.0) ==> Enter(depth, p, n.1) in s
    ensures InRange(commits, depth) <= s
  {
    hide Reach, RangeGraph, Tips;
    var g := RangeGraph(commits, depth);
    forall n, m | n in s && m in Next(g, n) ensures m in s {
      StepsProper(commits, depth, n);
    }
    ReachLeast(g, Starts(commits, depth), s);
  }

  /** The commits that lie below some tip. */
  ghost function BelowTips(commits: Commits): set<CommitId> {
    Reach(ParentGraph(commits), Tips(commits))
  }

  /** The commits in some range, or in none, are exactly those below a tip. */
  lemma MetIsBelow(commits: Commits, depth: Depth)
    ensures forall c :: c in BelowTips(commits) <==> exists r :: (c, r) in InRange(commits, depth)
  {
    hide InRange, Reach, Tips;
    var g, below := ParentGraph(commits), BelowTips(commits);
    ReachClosed(g, Tips(commits));
    InRangeClosed(commits, depth);
    var s := set n | n in InRange(commits, depth) && n.0 in below;
    forall n, p | n in s && p in InTree(commits, n.0) ensures Enter(depth, p, n.1) in s {
      assert p in Next(g, n.0);
    }
    InRangeLeast(commits, depth, s);
    var met := set n | n in InRange(commits, depth) :: n.0;
    forall t | t in Tips(commits) ensures t in met {
      assert Enter(depth, t, None).0 == t;
    }
    forall c, p | c in met && p in Next(g, c) ensures p in met {
      var n :| n in InRange(commits, depth) && n.0 == c;
      assert Enter(depth, p, n.1) in InRange(commits, depth);
    }
    ReachLeast(g, Tips(commits), met);
    forall c | c in below ensures exists r :: (c, r) in InRange(commits, depth) {
      var n :| n in InRange(commits, depth) && n.0 == c;
      assert n == (c, n.1);
    }
  }

  ghost function Above(commits: Commits, c: CommitId, rank: CommitId -> nat): set<CommitId> {
    set d | d in commits && rank(d) > rank(c)
  }

  /** Without cycles every commit lies below some tip. */
  lemma {:induction false} BelowSomeTip(commits: Commits, c: CommitId, rank: CommitId -> nat)
    requires Ranked(ParentGraph(commits), rank)
    requires c in commits
    ensures c in BelowTips(commits)
    decreases Above(commits, c, rank)
  {
    hide Reach;
    ReachClosed(ParentGraph(commits), Tips(commits));
    if c !in Tips(commits) {
      var d :| d in commits && c in commits[d].parents;
      assert c in InTree(commits, d) && c in Next(ParentGraph(commits), d);
      assert d in Above(commits, c, rank) && d !in Above(commits, d, rank);
      BelowSomeTip(commits, d, rank);
    }
  }

  // ----- The walk itself -----

  /** Attach a range to each of a list of commits. */
  method Tagged(ids: set<CommitId>, range: Option<CommitId>) returns (q: seq<Node>)
    ensures forall n :: n in q <==> n.0 in ids && n.1 == range
  {
    var order := Arrange(ids);
    q := seq(|order|, i requires 0 <= i < |order| => (order[i], range));
    forall n: Node | n.0 in ids && n.1 == range ensures n in q {
      var i :| 0 <= i < |order| && order[i] == n.0;
      assert q[i] == (n.0, n.1) == n;
    }
  }

  /** Walk down from the tips, carrying the range head along each path. */
  method RangeWalk(commits: Commits, depth: Depth) returns (visited: set<Node>)
    ensures visited == InRange(commits, depth)
  {
    hide InRange, RangeGraph, Tips;
    ghost var all := InRange(commits, depth);
    InRangeClosed(commits, depth);
    visited := {};
    var stack := Tagged(Tips(commits), None);
    while stack != []
      invariant forall n :: n in stack ==> Enter(depth, n.0, n.1) in all
      invariant visited <= all
      invariant forall t :: t in Tips(commits) ==> Enter(depth, t, None) in visited || (t, None) in stack
      invariant forall n, p :: n in visited && p in InTree(commits, n.0) ==>
                  Enter(depth, p, n.1) in visited || (p, n.1) in stack
      decreases all - visited, |stack|
    {
      var top := stack[|stack| - 1];
      LastOrBefore(stack);
      stack := stack[..|stack| - 1];
      var node := Enter(depth, top.0, top.1);
      if node !in visited {
        visited := visited + {node};
        var more := Tagged(InTree(commits, node.0), node.1);
        stack := stack + more;
      }
    }
    InRangeLeast(commits, depth, visited);
  }

  /** The commits that survive: in no range, or in some range that no fragment covers. */
  method Simplified(commits: Commits, frags: set<Fragment>, depth: Depth) returns (kept: set<CommitId>)
    ensures kept == Survivors(commits, depth, frags)
  {
    hide InRange;
    InRangeClosed(commits, depth);
    var visited := RangeWalk(commits, depth);
    var uncovered := set n | n in visited && n.1.Some? && !exists f :: f in frags && CoversRange(f, n.1.value);
    kept := (set n | n in visited && n.1.None? :: n.0) + (set n | n in uncovered :: n.0);
    forall c ensures c in kept <==> c in Survivors(commits, depth, frags) {
      if c in Survivors(commits, depth, frags) {
        if (c, None) in visited {
        } else {
          var r :| (c, Some(r)) in visited && !exists f :: f in frags && CoversRange(f, r);
          assert (c, Some(r)) in uncovered;
        }
      }
      if n :| n in visited && n.1.None? && n.0 == c {
        assert n == (c, None);
      } else if n :| n in uncovered && n.0 == c {
        assert n == (c, Some(n.1.value));
      }
    }
  }

  // ----- Pruning twice, and pruning against nothing -----

  ghost function Pruned(commits: Commits, depth: Depth, frags: set<Fragment>): Commits {
    map c | c in commits && Survives(commits, depth, frags, c) :: commits[c]
  }

  ghost predicate Uncovered(frags: set<Fragment>, n: Node) {
    n.1.None? || !exists f :: f in frags && CoversRange(f, n.1.value)
  }

  /** Every uncovered node is still met after pruning, if what is left lies below its own tips. */
  lemma UncoveredStay(commits: Commits, depth: Depth, frags: set<Fragment>)
    requires var kept := Pruned(commits, depth, frags); kept.Keys <= BelowTips(kept)
    ensures forall n :: n in InRange(commits, depth) && Uncovered(frags, n) ==>
              n in InRange(Pruned(commits, depth, frags), depth)
  {
    hide InRange, BelowTips;
    var kept := Pruned(commits, depth, frags);
    InRangeClosed(commits, depth);
    InRangeClosed(kept, depth);
    MetIsBelow(kept, depth);
    forall n | n in InRange(commits, depth) && Uncovered(frags, n) ensures n.0 in kept {
      assert n == (n.0, n.1);
      if n.1.Some? {
        assert (n.0, Some(n.1.value)) in InRange(commits, depth);
      }
    }
    var s := set n | n in InRange(commits, depth) && (Uncovered(frags, n) ==> n in InRange(kept, depth));
    forall t | t in Tips(commits) ensures Enter(depth, t, None) in s {
      if Uncovered(frags, Enter(depth, t, None)) {
        assert t in Tips(kept);
      }
    }
    forall n, p | n in s && p in InTree(commits, n.0) ensures Enter(depth, p, n.1) in s {
      var m := Enter(depth, p, n.1);
      if Uncovered(frags, m) && depth(p) == 0 {
        assert p in InTree(kept, n.0);
      }
    }
    InRangeLeast(commits, depth, s);
  }

  /** Pruning twice is pruning once exactly when every survivor of the first lies below a tip of what is left. */
  lemma PruningIdempotentIff(commits: Commits, depth: Depth, frags: set<Fragment>)
    ensures var kept := Pruned(commits, depth, frags);
            Pruned(kept, depth, frags) == kept <==> kept.Keys <= BelowTips(kept)
  {
    hide InRange, BelowTips;
    var kept := Pruned(commits, depth, frags);
    MetIsBelow(kept, depth);
    if kept.Keys <= BelowTips(kept) {
      UncoveredStay(commits, depth, frags);
      forall c | c in kept ensures Survives(kept, depth, frags, c) {
        if (c, None) in InRange(commits, depth) {
          assert Uncovered(frags, (c, None));
        } else {
          var r :| (c, Some(r)) in InRange(commits, depth) && !exists f :: f in frags && CoversRange(f, r);
          assert Uncovered(frags, (c, Some(r)));
        }
      }
    }
    if Pruned(kept, depth, frags) == kept {
      forall c | c in kept ensures c in BelowTips(kept) {
        assert c in Pruned(kept, depth, frags) && Survives(kept, depth, frags, c);
      }
    }
  }

  /** Acyclic commits are such a case, whatever is pruned from them. */
  lemma PruningIdempotent(commits: Commits, depth: Depth, frags: set<Fragment>, rank: CommitId -> nat)
    requires Ranked(ParentGraph(commits), rank)
    ensures Pruned(Pruned(commits, depth, frags), depth, frags) == Pruned(commits, depth, frags)
  {
    hide InRange, BelowTips, Survives;
    var kept := Pruned(commits, depth, frags);
    forall x, y | x in kept && y in ParentGraph(kept)[x] ensures rank(y) < rank(x) {
      assert y in ParentGraph(commits)[x];
    }
    forall c | c in kept ensures c in BelowTips(kept) {
      BelowSomeTip(kept, c, rank);
    }
    PruningIdempotentIff(commits, depth, frags);
  }

  /**
   With no fragments at all, what survives is what lies below a tip.  So pruning is
   lossless there exactly when every commit does, which a cycle can prevent.
   */
  lemma SurvivorsWithoutFragments(commits: Commits, depth: Depth)
    ensures Survivors(commits, depth, {}) == BelowTips(commits)
  {
    hide InRange, BelowTips;
    MetIsBelow(commits, depth);
    InRangeClosed(commits, depth);
    forall c | c in BelowTips(commits) ensures c in Survivors(commits, depth, {}) {
      var r :| (c, r) in InRange(commits, depth);
      assert r.Some? ==> (c, Some(r.value)) in InRange(commits, depth);
    }
  }

  /** A commit that names itself as a parent is dropped though nothing covers it. */
  lemma SelfParentVanishes(c: LooseCommit, depth: Depth)
    requires c.head in c.parents
    ensures Survivors(map[c.head := c], depth, {}) == {}
  {
    var commits: Commits := map[c.head := c];
    SurvivorsWithoutFragments(commits, depth);
    assert c.head !in Tips(commits);
    ReachLeast(ParentGraph(commits), Tips(commits), {});
  }

  /**
   Pruning can leave a cycle without a tip: `t` is covered and goes first, and then
   `p` and `q`, which have each other as parents, go with nothing covering them.
   */
  lemma CycleGoesSecond(t: LooseCommit, p: LooseCommit, q: LooseCommit, f: Fragment, depth: Depth)
    requires t.head != p.head && t.head != q.head && p.head != q.head
    requires t.parents == {p.head} && p.parents == {q.head} && q.parents == {p.head}
    requires depth(t.head) > 0 && depth(p.head) > 0 && depth(q.head) > 0
    requires f.Head() == t.head && f.checkpoints == {}
    ensures var commits: Commits := map[t.head := t, p.head := p, q.head := q];
            && Pruned(commits, depth, {f}) == map[p.head := p, q.head := q]
            && Pruned(Pruned(commits, depth, {f}), depth, {f}) == map[]
  {
    hide InRange;
    var commits: Commits := map[t.head := t, p.head := p, q.head := q];
    InRangeClosed(commits, depth);
    assert t.head in Tips(commits);
    assert Enter(depth, t.head, None) in InRange(commits, depth);
    assert Enter(depth, p.head, Some(t.head)) in InRange(commits, depth);
    assert Enter(depth, q.head, Some(p.head)) in InRange(commits, depth);
    var kept: Commits := map[p.head := p, q.head := q];
    assert Pruned(commits, depth, {f}) == kept;
    assert Tips(kept) == {} by {
      assert p.head in kept[q.head].parents && q.head in kept[p.head].parents;
    }
    InRangeLeast(kept, depth, {});
  }

  // ----- Survival without ranges -----

  /** The steps down to loose parents. */
  ghost function LooseDown(commits: Commits, depth: Depth): map<CommitId, set<CommitId>> {
    map c | c in commits :: set p | p in commits[c].parents && p in commits && depth(p) == 0
  }

  /** A loose tip, or a deep commit below some tip that is no fragment's head or checkpoint. */
  ghost predicate Opens(commits: Commits, depth: Depth, frags: set<Fragment>, x: CommitId) {
    if depth(x) == 0 then x in commits && forall d :: d in commits ==> x !in commits[d].parents
    else x in BelowTips(commits) && forall f :: f in frags ==> f.Head() != x && Truncate(x) !in f.checkpoints
  }

  /** Where a node of the range walk comes from: a loose tip, or the deep commit that heads its range. */
  ghost predicate Sourced(commits: Commits, depth: Depth, n: Node) {
    match n.1
    case None => exists t :: t in Tips(commits) && depth(t) == 0 && n.0 in Reach(LooseDown(commits, depth), {t})
    case Some(r) => depth(r) > 0 && r in BelowTips(commits) && n.0 in Reach(LooseDown(commits, depth), {r})
  }

  lemma AllSourced(commits: Commits, depth: Depth)
    ensures forall n :: n in InRange(commits, depth) ==> Sourced(commits, depth, n)
  {
    hide InRange, BelowTips, Reach, Tips;
    InRangeClosed(commits, depth);
    MetIsBelow(commits, depth);
    var down := LooseDown(commits, depth);
    forall x ensures x in Reach(down, {x}) {
      ReachClosed(down, {x});
    }
    var s := set n | n in InRange(commits, depth) && Sourced(commits, depth, n);
    forall n, p | n in s && p in InTree(commits, n.0) ensures Enter(depth, p, n.1) in s {
      var m := Enter(depth, p, n.1);
      assert m == (p, m.1);
      if depth(p) == 0 {
        assert p in Next(down, n.0);
        if n.1.None? {
          var t :| t in Tips(commits) && depth(t) == 0 && n.0 in Reach(down, {t});
          ReachClosed(down, {t});
        } else {
          ReachClosed(down, {n.1.value});
        }
      }
    }
    forall t | t in Tips(commits) ensures Enter(depth, t, None) in s {
      assert Enter(depth, t, None) == (t, Enter(depth, t, None).1);
    }
    InRangeLeast(commits, depth, s);
  }

  /** A range reaches every loose commit below what it started from. */
  lemma RangeReaches(commits: Commits, depth: Depth, x: CommitId, range: Option<CommitId>, c: CommitId)
    requires (x, range) in InRange(commits, depth) && c in Reach(LooseDown(commits, depth), {x})
    ensures (c, range) in InRange(commits, depth)
  {
    hide InRange, Reach;
    InRangeClosed(commits, depth);
    var met := set n | n in InRange(commits, depth) && n.1 == range :: n.0;
    assert x in met by { assert (x, range).0 == x; }
    forall y, p | y in met && p in Next(LooseDown(commits, depth), y) ensures p in met {
      var n :| n in InRange(commits, depth) && n.1 == range && n.0 == y;
      assert p in InTree(commits, n.0) && Enter(depth, p, n.1) == (p, range);
    }
    ReachLeast(LooseDown(commits, depth), {x}, met);
    var n :| n in InRange(commits, depth) && n.1 == range && n.0 == c;
    assert n == (c, range);
  }

  lemma SurvivorOpens(commits: Commits, depth: Depth, frags: set<Fragment>, c: CommitId) returns (x: CommitId)
    requires c in Survivors(commits, depth, frags)
    ensures Opens(commits, depth, frags, x) && c in Reach(LooseDown(commits, depth), {x})
  {
    hide InRange, BelowTips, Reach, LooseDown;
    AllSourced(commits, depth);
    if (c, None) in InRange(commits, depth) {
      assert Sourced(commits, depth, (c, None));
      x :| x in Tips(commits) && depth(x) == 0 && c in Reach(LooseDown(commits, depth), {x});
    } else {
      x :| (c, Some(x)) in InRange(commits, depth) && !exists f :: f in frags && CoversRange(f, x);
      assert Sourced(commits, depth, (c, Some(x)));
    }
  }

  lemma OpeningMet(commits: Commits, depth: Depth, frags: set<Fragment>, x: CommitId)
    requires Opens(commits, depth, frags, x)
    ensures (x, if depth(x) == 0 then None else Some(x)) in InRange(commits, depth)
  {
    hide InRange, BelowTips;
    InRangeClosed(commits, depth);
    MetIsBelow(commits, depth);
    if depth(x) == 0 {
      assert x in Tips(commits) && Enter(depth, x, None) == (x, None);
    } else {
      var r :| (x, r) in InRange(commits, depth);
      assert Proper(commits, depth, (x, r));
    }
  }

  /**
   What survives, for any commits and any metadata: the loose tips, the deep commits
   below a tip that are no head or checkpoint of a fragment, and what hangs from
   either through loose commits only.
   */
  lemma SurvivesIff(commits: Commits, depth: Depth, frags: set<Fragment>, c: CommitId)
    ensures c in Survivors(commits, depth, frags) <==>
            exists x :: Opens(commits, depth, frags, x) && c in Reach(LooseDown(commits, depth), {x})
  {
    hide InRange, BelowTips, Reach, LooseDown, Tips;
    if c in Survivors(commits, depth, frags) {
      var x := SurvivorOpens(commits, depth, frags, c);
    }
    if x :| Opens(commits, depth, frags, x) && c in Reach(LooseDown(commits, depth), {x}) {
      var range := if depth(x) == 0 then None else Some(x);
      OpeningMet(commits, depth, frags, x);
      RangeReaches(commits, depth, x, range, c);
      InRangeClosed(commits, depth);
      assert Proper(commits, depth, (c, range));
    }
  }

  /** Only loose commits hang from anything. */
  lemma DeepHangsAlone(commits: Commits, depth: Depth, x: CommitId, c: CommitId)
    requires c in Reach(LooseDown(commits, depth), {x}) && depth(c) > 0
    ensures c == x
  {
    hide Reach;
    var down := LooseDown(commits, depth);
    ReachClosed(down, {x});
    ReachLeast(down, {x}, set y | y in Reach(down, {x}) && (y == x || depth(y) == 0));
  }

  /** So a deep commit survives exactly if it opens. */
  lemma DeepSurvivesIff(commits: Commits, depth: Depth, frags: set<Fragment>, c: CommitId)
    requires depth(c) > 0
    ensures c in Survivors(commits, depth, frags) <==> Opens(commits, depth, frags, c)
  {
    hide Survivors, Opens, Reach, LooseDown;
    SurvivesIff(commits, depth, frags, c);
    ReachClosed(LooseDown(commits, depth), {c});
    if c in Survivors(commits, depth, frags) {
      var x :| Opens(commits, depth, frags, x) && c in Reach(LooseDown(commits, depth), {x});
      DeepHangsAlone(commits, depth, x, c);
    }
  }

  // ----- What it means for the history -----

  /** The loose commits are commits of the shared history. */
  ghost predicate FromStore(store: Store, commits: Commits) {
    forall c :: c in commits ==> commits[c].head == c && c in store && commits[c].parents == store[c]
  }

  /** A range lies within every walk that contains its head. */
  lemma RangeWithinWalk(store: Store, depth: Depth, commits: Commits, c: CommitId, r: CommitId, h: CommitId)
    requires FromStore(store, commits)
    requires (c, Some(r)) in InRange(commits, depth)
    requires depth(h) > 0 && r in Raw(store, depth, h)
    ensures c in Raw(store, depth, h)
  {
    hide InRange, Raw;
    InRangeClosed(commits, depth);
    RawClosed(store, depth, h);
    var raw := Raw(store, depth, h);
    var s := set n | n in InRange(commits, depth) && (n.1.Some? && n.1.value in raw ==> n.0 in raw);
    InRangeLeast(commits, depth, s);
  }

  /** A pruned commit below some tip is a raw member of one of the fragments. */
  lemma PrunedIsCovered(store: Store, depth: Depth, commits: Commits, frags: set<Fragment>, c: CommitId)
    requires TruncationInjective(store.Keys)
    requires FromStore(store, commits)
    requires forall f :: f in frags ==> PartialWalk(store, depth, f)
    requires c in BelowTips(commits) && c in commits && c !in Survivors(commits, depth, frags)
    ensures exists f :: f in frags && c in Raw(store, depth, f.Head())
  {
    hide InRange, Raw, Boundary, BelowTips;
    MetIsBelow(commits, depth);
    InRangeClosed(commits, depth);
    var n :| (c, n) in InRange(commits, depth);
    assert n.Some?;
    var r := n.value;
    var f :| f in frags && CoversRange(f, r);
    RawClosed(store, depth, r);
    RawClosed(store, depth, f.Head());
    assert r in store;
    if f.Head() != r {
      var k :| k in RawCheckpoints(store, depth, f.Head()) && Truncate(k) == Truncate(r);
      assert k in store && k == r;
    }
    RangeWithinWalk(store, depth, commits, c, r, f.Head());
  }

  /** Against true walks, a deep commit opens exactly if it lies below a tip and in no fragment. */
  lemma OpensIff(store: Store, depth: Depth, commits: Commits, frags: set<Fragment>, c: CommitId)
    requires TruncationInjective(store.Keys)
    requires c in store && depth(c) > 0
    requires forall f :: f in frags ==> TrueWalk(store, depth, f)
    ensures Opens(commits, depth, frags, c) <==>
            c in BelowTips(commits) && forall f :: f in frags ==> c !in Raw(store, depth, f.Head())
  {
    hide Raw, BelowTips;
    forall f | f in frags
      ensures c in Raw(store, depth, f.Head()) <==> f.Head() == c || Truncate(c) in f.checkpoints
    {
      RawClosed(store, depth, f.Head());
      if Truncate(c) in f.checkpoints {
        var k :| k in RawCheckpoints(store, depth, f.Head()) && Truncate(k) == Truncate(c);
        assert k in store;
      }
    }
  }

  /** Pruning against true walks: a deep commit survives exactly if it lies below a tip and in no fragment. */
  lemma WalkSurvivesIff(store: Store, depth: Depth, commits: Commits, frags: set<Fragment>, c: CommitId)
    requires TruncationInjective(store.Keys) && FromStore(store, commits)
    requires forall f :: f in frags ==> TrueWalk(store, depth, f)
    requires c in commits && depth(c) > 0
    ensures c in Survivors(commits, depth, frags) <==>
            c in BelowTips(commits) && forall f :: f in frags ==> c !in Raw(store, depth, f.Head())
  {
    hide TrueWalk, Opens, Survivors, BelowTips, TruncationInjective;
    DeepSurvivesIff(commits, depth, frags, c);
    OpensIff(store, depth, commits, frags, c);
  }
}
