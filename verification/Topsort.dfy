/**
 Kahn's algorithm over fragments and loose commits (`topsorted_blob_order` in
 sedimentree_core/src/sedimentree.rs).
 */
module Topsort {
  import opened Graph
  import opened Ids
  import opened Strata
  import opened Trees

  datatype Item = FragmentItem(index: nat) | LooseCommitItem(index: nat)

  datatype Order = Sorted(items: seq<Item>) | Cycle(total: nat, sorted: nat)

  ghost predicate Distinct<T>(s: seq<T>) {
    forall i, j :: 0 <= i < j < |s| ==> s[i] != s[j]
  }

  // ----- The dependency graph -----

  /** Indices of the fragments headed by one of `ids`. */
  ghost function HeadedBy(frags: seq<Fragment>, ids: set<CommitId>): set<nat> {
    set j: nat | j < |frags| && frags[j].Head() in ids
  }

  /** Items are numbered fragments first; an item depends on those whose heads it names. */
  ghost function DependsOn(frags: seq<Fragment>, loose: seq<LooseCommit>, i: nat): set<nat>
    requires i < |frags| + |loose|
  {
    if i < |frags| then HeadedBy(frags, frags[i].Boundary())
    else
      var parents := loose[i - |frags|].parents;
      HeadedBy(frags, parents) + set l: nat | l < |loose| && loose[l].head in parents :: |frags| + l
  }

  ghost function DependencyGraph(frags: seq<Fragment>, loose: seq<LooseCommit>): map<nat, set<nat>> {
    map i: nat | i < |frags| + |loose| :: DependsOn(frags, loose, i)
  }

  ghost predicate OnCycle(g: map<nat, set<nat>>, y: nat) {
    y in Reach(g, Next(g, y))
  }

  /** Some cycle lies at or behind `x`. */
  ghost predicate Stuck(g: map<nat, set<nat>>, x: nat) {
    exists y :: y in Reach(g, {x}) && OnCycle(g, y)
  }

  // ----- Kahn's algorithm -----

  /** Each edge is listed once, under the item depended on. */
  ghost predicate Listed(dependents: seq<seq<nat>>, deps: seq<set<nat>>) {
    && |dependents| == |deps|
    && forall j :: 0 <= j < |deps| ==> ListedUnder(dependents[j], deps, j)
  }

  ghost predicate ListedUnder(dependents: seq<nat>, deps: seq<set<nat>>, j: nat) {
    Distinct(dependents) && forall x :: x in dependents <==> 0 <= x < |deps| && j in deps[x]
  }

  /** How many dependencies are still to be emitted. */
  ghost function Waiting(s: set<nat>, emitted: set<nat>): nat {
    |s - emitted|
  }

  lemma OneFewer(s: set<nat>, emitted: set<nat>, i: nat)
    requires i !in emitted
    ensures Waiting(s, emitted) == Waiting(s, emitted + {i}) + (if i in s then 1 else 0)
    ensures Waiting(s, emitted + {i}) == 0 <==> s <= emitted + {i}
  {
    var after := emitted + {i};
    assert s - emitted == (s - after) + (if i in s then {i} else {});
    assert s - after == {} <==> s <= after;
  }

  ghost predicate Counted(inDegree: seq<nat>, deps: seq<set<nat>>, emitted: set<nat>) {
    |inDegree| == |deps| && forall x :: 0 <= x < |deps| ==> inDegree[x] == Waiting(deps[x], emitted)
  }

  ghost predicate InBounds(deps: seq<set<nat>>) {
    forall x, j :: 0 <= x < |deps| && j in deps[x] ==> j < |deps|
  }

  ghost function AsGraph(deps: seq<set<nat>>): map<nat, set<nat>> {
    map i: nat | i < |deps| :: deps[i]
  }

  /** Count one dependency down for each dependent of `i`; none can go below zero. */
  method Release(inDegree: array<nat>, dependents: seq<nat>, ghost deps: seq<set<nat>>, ghost i: nat,
                 ghost emitted: set<nat>)
    returns (ready: seq<nat>)
    requires i !in emitted
    requires ListedUnder(dependents, deps, i)
    requires Counted(inDegree[..], deps, emitted)
    modifies inDegree
    ensures Counted(inDegree[..], deps, emitted + {i})
    ensures forall x :: x in ready <==> 0 <= x < |deps| && i in deps[x] && deps[x] <= emitted + {i}
    ensures Distinct(ready)
  {
    hide Waiting;
    ready := [];
    ghost var after, done := emitted + {i}, {};
    for k := 0 to |dependents|
      invariant inDegree.Length == |deps|
      invariant forall m :: 0 <= m < k ==> dependents[m] in done
      invariant forall m :: k <= m < |dependents| ==> dependents[m] !in done
      invariant forall x :: x in done ==> 0 <= x < |deps| && i in deps[x]
      invariant forall x :: 0 <= x < |deps| ==> inDegree[x] == Waiting(deps[x], if x in done then after else emitted)
      invariant forall x :: x in ready <==> x in done && deps[x] <= after
      invariant Distinct(ready)
    {
      var dep := dependents[k];
      assert dep in dependents;
      OneFewer(deps[dep], emitted, i);
      inDegree[dep] := inDegree[dep] - 1;
      if inDegree[dep] == 0 {
        ready := ready + [dep];
      }
      done := done + {dep};
    }
    forall x | 0 <= x < |deps| ensures inDegree[x] == Waiting(deps[x], after) {
      if x !in done {
        assert x !in dependents;
        OneFewer(deps[x], emitted, i);
      }
    }
  }

  /** Each listed item comes after everything it depends on. */
  ghost predicate DependenciesFirst(deps: seq<set<nat>>, order: seq<nat>) {
    && (forall x :: x in order ==> x < |deps|)
    && forall k, j :: 0 <= k < |order| && order[k] < |deps| && j in deps[order[k]] ==> j in order[..k]
  }

  /** Queued or emitted are exactly the items whose dependencies have all been emitted; each once. */
  ghost predicate Frontier(deps: seq<set<nat>>, order: seq<nat>, queue: seq<nat>) {
    && Distinct(order + queue)
    && (forall x :: x in order + queue <==> 0 <= x < |deps| && deps[x] <= Elements(order))
    && DependenciesFirst(deps, order)
  }

  lemma FrontierStep(deps: seq<set<nat>>, order: seq<nat>, queue: seq<nat>, ready: seq<nat>)
    requires Frontier(deps, order, queue) && queue != []
    requires Distinct(ready)
    requires forall x :: x in ready <==>
              0 <= x < |deps| && queue[0] in deps[x] && deps[x] <= Elements(order) + {queue[0]}
    ensures Frontier(deps, order + [queue[0]], queue[1..] + ready)
    ensures Elements(order + [queue[0]]) == Elements(order) + {queue[0]}
  {
    var i, order', queue' := queue[0], order + [queue[0]], queue[1..] + ready;
    assert (order + queue)[|order|] == i;
    assert order' + queue[1..] == order + queue;
    FrontierMember(deps, order, queue);
    assert Elements(order') == Elements(order) + {i};
    forall x | x in ready ensures x !in order + queue {
      assert !(deps[x] <= Elements(order));
    }
    DistinctConcat(order + queue, ready);
    assert order' + queue' == (order + queue) + ready;
    forall x ensures x in order' + queue' <==> 0 <= x < |deps| && deps[x] <= Elements(order') {
      assert x in order' + queue' <==> x in order + queue || x in ready;
    }
    assert i in order + queue;
    forall k, j | 0 <= k < |order'| && order'[k] < |deps| && j in deps[order'[k]] ensures j in order'[..k] {
      if k < |order| {
        assert order'[..k] == order[..k];
      } else {
        assert order'[..k] == order;
      }
    }
  }

  lemma DistinctConcat<T>(a: seq<T>, b: seq<T>)
    requires Distinct(a) && Distinct(b) && forall x :: x in b ==> x !in a
    ensures Distinct(a + b)
  {
    forall i, j | 0 <= i < j < |a + b| ensures (a + b)[i] != (a + b)[j] {
      if j >= |a| {
        assert b[j - |a|] in b;
      }
    }
  }

  lemma FrontierMember(deps: seq<set<nat>>, order: seq<nat>, queue: seq<nat>)
    requires Frontier(deps, order, queue) && queue != []
    ensures 0 <= queue[0] < |deps| && queue[0] !in Elements(order)
  {
    assert (order + queue)[|order|] == queue[0];
    assert queue[0] in order + queue;
    forall k | 0 <= k < |order| ensures order[k] != queue[0] {
      assert (order + queue)[k] == order[k];
    }
  }

  lemma NoElements<T>()
    ensures Elements<T>([]) == {}
  {
  }

  method Kahn(inDegree: array<nat>, dependents: seq<seq<nat>>, ghost deps: seq<set<nat>>) returns (order: seq<nat>)
    requires Counted(inDegree[..], deps, {}) && Listed(dependents, deps)
    modifies inDegree
    ensures Frontier(deps, order, [])
  {
    hide Frontier, Counted, Elements;
    var queue := InitialQueue(inDegree, deps);
    order := [];
    assert Elements(order) == {} by { NoElements<nat>(); }
    while queue != []
      invariant Counted(inDegree[..], deps, Elements(order))
      invariant Frontier(deps, order, queue)
      decreases UpTo(|deps|) - Elements(order)
    {
      var i := queue[0];
      FrontierMember(deps, order, queue);
      var ready := Release(inDegree, dependents[i], deps, i, Elements(order));
      FrontierStep(deps, order, queue, ready);
      order := order + [i];
      queue := queue[1..] + ready;
    }
  }

  /** The items with nothing to wait for. */
  method InitialQueue(inDegree: array<nat>, ghost deps: seq<set<nat>>) returns (queue: seq<nat>)
    requires Counted(inDegree[..], deps, {})
    ensures Frontier(deps, [], queue)
  {
    assert forall x :: 0 <= x < |deps| ==> deps[x] - {} == deps[x];
    queue := [];
    for i := 0 to inDegree.Length
      invariant inDegree.Length == |deps|
      invariant forall x :: x in queue <==> 0 <= x < i && deps[x] == {}
      invariant Distinct(queue)
    {
      if inDegree[i] == 0 {
        queue := queue + [i];
      }
    }
    assert [] + queue == queue;
  }

  ghost function UpTo(n: nat): (s: set<nat>)
    ensures |s| == n && forall x :: x in s <==> 0 <= x < n
  {
    if n == 0 then {} else UpTo(n - 1) + {n - 1}
  }

  lemma {:induction false} DistinctCard<T>(s: seq<T>)
    requires Distinct(s)
    ensures |Elements(s)| == |s|
  {
    if s != [] {
      var rest := s[..|s| - 1];
      DistinctCard(rest);
      assert Elements(s) == Elements(rest) + {s[|s| - 1]};
    }
  }

  lemma Subset<T>(a: set<T>, b: set<T>)
    requires a <= b
    ensures |a| <= |b|
    ensures |a| == |b| ==> a == b
  {
    assert b == a + (b - a);
  }

  // ----- What is left over is what a cycle holds up -----

  lemma EmittedIsFree(deps: seq<set<nat>>, order: seq<nat>, x: nat)
    requires DependenciesFirst(deps, order) && x in order
    ensures !Stuck(AsGraph(deps), x)
  {
    hide Reach;
    var g := AsGraph(deps);
    forall k | 0 <= k <= |order| ensures Closed(g, Elements(order[..k])) {
      forall y, z | y in Elements(order[..k]) && z in Next(g, y) ensures z in Elements(order[..k]) {
        var m :| 0 <= m < k && order[m] == y;
        assert z in order[..m];
      }
    }
    assert order[..|order|] == order;
    ReachLeast(g, {x}, Elements(order));
    forall y | y in Reach(g, {x}) ensures !OnCycle(g, y) {
      var m := FirstIndex(order, y);
      ReachLeast(g, Next(g, y), Elements(order[..m]));
    }
  }

  lemma {:induction false} FirstIndex(order: seq<nat>, y: nat) returns (m: nat)
    requires y in order
    ensures m < |order| && order[m] == y && y !in order[..m]
  {
    if order[0] == y {
      return 0;
    }
    m := FirstIndex(order[1..], y);
    assert order[..m + 1] == [order[0]] + order[1..][..m];
    m := m + 1;
  }

  lemma GraphNext(deps: seq<set<nat>>, x: nat)
    requires x < |deps|
    ensures Next(AsGraph(deps), x) == deps[x]
  {
  }

  /** A cycle through `x` or behind one of its successors holds `x` up. */
  lemma StuckFrom(g: map<nat, set<nat>>, x: nat, j: nat)
    requires j in Next(g, x)
    requires x in Reach(g, {j}) || Stuck(g, j)
    ensures Stuck(g, x)
  {
    hide Reach;
    ReachClosed(g, {x});
    ReachClosed(g, Next(g, x));
    ReachTransitive(g, {x}, {j});
    ReachTransitive(g, Next(g, x), {j});
    if x in Reach(g, {j}) {
      assert OnCycle(g, x);
    }
  }

  ghost predicate HeldUp(deps: seq<set<nat>>, left: set<nat>, y: nat) {
    y < |deps| && deps[y] * left != {}
  }

  /** Where every item waits for another of the same set, each waits for a cycle. */
  lemma {:induction false} WaitingIsStuck(deps: seq<set<nat>>, left: set<nat>, x: nat)
    requires x in left
    requires forall y :: y in left ==> HeldUp(deps, left, y)
    ensures Stuck(AsGraph(deps), x)
    decreases Reach(AsGraph(deps), {x})
  {
    hide Reach, AsGraph, Stuck;
    var g := AsGraph(deps);
    assert HeldUp(deps, left, x);
    var j :| j in deps[x] * left;
    GraphNext(deps, x);
    if x !in Reach(g, {j}) {
      ReachClosed(g, {x});
      ReachTransitive(g, {x}, {j});
      WaitingIsStuck(deps, left, j);
    }
    StuckFrom(g, x, j);
  }

  ghost function LeftOver(deps: seq<set<nat>>, order: seq<nat>): set<nat> {
    UpTo(|deps|) - Elements(order)
  }

  lemma FrontierEnd(deps: seq<set<nat>>, order: seq<nat>)
    requires Frontier(deps, order, []) && InBounds(deps)
    ensures Distinct(order) && DependenciesFirst(deps, order)
    ensures forall y :: y in LeftOver(deps, order) ==> HeldUp(deps, LeftOver(deps, order), y)
  {
    assert order + [] == order;
    var left := LeftOver(deps, order);
    forall y | y in left ensures HeldUp(deps, left, y) {
      assert !(deps[y] <= Elements(order));
      var j :| j in deps[y] && j !in Elements(order);
      assert j in deps[y] * left;
    }
  }

  ghost function FreeItems(g: map<nat, set<nat>>, n: nat): set<nat> {
    set x | x in UpTo(n) && !Stuck(g, x)
  }

  /** Kahn's algorithm emits exactly the items with no cycle among their ancestors. */
  lemma EmitsTheFree(deps: seq<set<nat>>, order: seq<nat>)
    requires Frontier(deps, order, []) && InBounds(deps)
    ensures Distinct(order) && DependenciesFirst(deps, order)
    ensures Elements(order) == FreeItems(AsGraph(deps), |deps|) && |order| == |FreeItems(AsGraph(deps), |deps|)|
  {
    hide Stuck, Frontier, AsGraph, HeldUp;
    var g, n := AsGraph(deps), |deps|;
    FrontierEnd(deps, order);
    var left := LeftOver(deps, order);
    forall x | x in UpTo(n) ensures x in Elements(order) <==> !Stuck(g, x) {
      if x in order {
        EmittedIsFree(deps, order, x);
      } else {
        WaitingIsStuck(deps, left, x);
      }
    }
    assert Elements(order) == FreeItems(g, n);
    DistinctCard(order);
  }

  /** All items are free exactly when there is no cycle. */
  lemma FreeIffAcyclic(deps: seq<set<nat>>)
    requires InBounds(deps)
    ensures |FreeItems(AsGraph(deps), |deps|)| == |deps| <==>
            forall y :: y in UpTo(|deps|) ==> !OnCycle(AsGraph(deps), y)
  {
    hide Stuck, AsGraph, OnCycle;
    var g, all, free := AsGraph(deps), UpTo(|deps|), FreeItems(AsGraph(deps), |deps|);
    Subset(free, all);
    CycleIsStuck(deps);
    if forall x :: x in all ==> x in free {
      assert free == all;
    } else {
      var x :| x in all && x !in free;
      assert free != all;
    }
  }

  lemma CycleIsStuck(deps: seq<set<nat>>)
    requires InBounds(deps)
    ensures (exists y :: y in UpTo(|deps|) && OnCycle(AsGraph(deps), y)) <==>
            exists x :: x in UpTo(|deps|) && Stuck(AsGraph(deps), x)
  {
    hide Reach;
    var g := AsGraph(deps);
    forall y | y in UpTo(|deps|) && OnCycle(g, y) ensures Stuck(g, y) {
      ReachClosed(g, {y});
    }
    forall x | x in UpTo(|deps|) && Stuck(g, x) ensures exists y :: y in UpTo(|deps|) && OnCycle(g, y) {
      ReachLeast(g, {x}, UpTo(|deps|));
    }
  }

  // ----- Building the tallies -----

  /** Record that `i` depends on `j`. */
  method Link(inDegree: array<nat>, dependents: array<seq<nat>>, i: nat, j: nat, ghost deps: seq<set<nat>>)
    requires Counted(inDegree[..], deps, {}) && Listed(dependents[..], deps)
    requires i < |deps| && j < |deps| && j !in deps[i]
    modifies inDegree, dependents
    ensures Counted(inDegree[..], deps[i := deps[i] + {j}], {}) && Listed(dependents[..], deps[i := deps[i] + {j}])
  {
    ghost var deps' := deps[i := deps[i] + {j}];
    assert deps[i] - {} == deps[i] && deps'[i] - {} == deps[i] + {j};
    inDegree[i] := inDegree[i] + 1;
    assert ListedUnder(dependents[..][j], deps, j);
    dependents[j] := dependents[j] + [i];
    forall k | 0 <= k < |deps| ensures ListedUnder(dependents[..][k], deps', k) {
      assert ListedUnder(old(dependents[..])[k], deps, k);
    }
  }

  /** Positions by head. */
  method IndexHeads(heads: seq<CommitId>) returns (index: map<CommitId, nat>)
    requires Distinct(heads)
    ensures forall id :: id in index <==> id in heads
    ensures forall id :: id in index ==> index[id] < |heads| && heads[index[id]] == id
  {
    index := map[];
    for i := 0 to |heads|
      invariant forall id :: id in index <==> id in heads[..i]
      invariant forall id :: id in index ==> index[id] < i && heads[index[id]] == id
    {
      index := index[heads[i] := i];
    }
  }

  ghost function DependencyList(frags: seq<Fragment>, loose: seq<LooseCommit>): seq<set<nat>> {
    seq(|frags| + |loose|, i requires 0 <= i < |frags| + |loose| => DependsOn(frags, loose, i))
  }

  ghost function LooseHeadedBy(loose: seq<LooseCommit>, base: nat, ids: set<CommitId>): set<nat> {
    set l: nat | l < |loose| && loose[l].head in ids :: base + l
  }

  ghost predicate IndexesFragments(frags: seq<Fragment>, index: map<CommitId, nat>) {
    && (forall j :: 0 <= j < |frags| ==> frags[j].Head() in index && index[frags[j].Head()] == j)
    && (forall id :: id in index ==> index[id] < |frags| && frags[index[id]].Head() == id)
  }

  ghost predicate IndexesLoose(loose: seq<LooseCommit>, index: map<CommitId, nat>) {
    && (forall j :: 0 <= j < |loose| ==> loose[j].head in index && index[loose[j].head] == j)
    && (forall id :: id in index ==> index[id] < |loose| && loose[index[id]].head == id)
  }

  /** One more identifier adds the item it heads, if there is one. */
  lemma HeadedByMore(frags: seq<Fragment>, index: map<CommitId, nat>, done: set<CommitId>, id: CommitId)
    requires IndexesFragments(frags, index)
    ensures HeadedBy(frags, done + {id}) == HeadedBy(frags, done) + (if id in index then {index[id]} else {})
    ensures id !in done && id in index ==> index[id] !in HeadedBy(frags, done)
  {
  }

  lemma LooseHeadedByMore(loose: seq<LooseCommit>, base: nat, index: map<CommitId, nat>, done: set<CommitId>,
                          id: CommitId)
    requires IndexesLoose(loose, index)
    ensures LooseHeadedBy(loose, base, done + {id}) ==
            LooseHeadedBy(loose, base, done) + (if id in index then {base + index[id]} else {})
    ensures id !in done && id in index ==> base + index[id] !in LooseHeadedBy(loose, base, done)
  {
  }

  /** Link fragment `i` to the fragments that head its boundary. */
  method LinkFragment(frags: seq<Fragment>, index: map<CommitId, nat>, i: nat,
                      inDegree: array<nat>, dependents: array<seq<nat>>, ghost deps0: seq<set<nat>>)
    requires i < |frags| <= |deps0| && deps0[i] == {}
    requires IndexesFragments(frags, index)
    requires Counted(inDegree[..], deps0, {}) && Listed(dependents[..], deps0)
    modifies inDegree, dependents
    ensures var deps := deps0[i := HeadedBy(frags, frags[i].Boundary())];
            Counted(inDegree[..], deps, {}) && Listed(dependents[..], deps)
  {
    hide Counted, Listed, HeadedBy;
    var ids := Arrange(frags[i].Boundary());
    ghost var deps, done := deps0, {};
    NoneHeaded(frags, [], 0);
    for k := 0 to |ids|
      invariant forall m :: 0 <= m < k ==> ids[m] in done
      invariant forall m :: k <= m < |ids| ==> ids[m] !in done
      invariant done <= frags[i].Boundary()
      invariant |deps| == |deps0| && deps == deps0[i := HeadedBy(frags, done)]
      invariant Counted(inDegree[..], deps, {}) && Listed(dependents[..], deps)
    {
      var id := ids[k];
      HeadedByMore(frags, index, done, id);
      if id in index {
        Link(inDegree, dependents, i, index[id], deps);
        deps := deps[i := deps[i] + {index[id]}];
      }
      done := done + {id};
      assert deps[i] == HeadedBy(frags, done);
    }
    assert done == frags[i].Boundary();
  }

  /** Link loose commit `l` to the fragments and loose commits that head its parents, each once. */
  method LinkLoose(frags: seq<Fragment>, loose: seq<LooseCommit>, fragIndex: map<CommitId, nat>,
                   looseIndex: map<CommitId, nat>,
                   l: nat, inDegree: array<nat>, dependents: array<seq<nat>>, ghost deps0: seq<set<nat>>)
    requires l < |loose| && |deps0| == |frags| + |loose| && deps0[|frags| + l] == {}
    requires IndexesFragments(frags, fragIndex) && IndexesLoose(loose, looseIndex)
    requires Counted(inDegree[..], deps0, {}) && Listed(dependents[..], deps0)
    modifies inDegree, dependents
    ensures var parents := loose[l].parents;
            var deps := deps0[|frags| + l := HeadedBy(frags, parents) + LooseHeadedBy(loose, |frags|, parents)];
            Counted(inDegree[..], deps, {}) && Listed(dependents[..], deps)
  {
    hide Counted, Listed, HeadedBy, LooseHeadedBy;
    var i := |frags| + l;
    var ids := Arrange(loose[l].parents);
    var seen: set<nat> := {};
    ghost var deps, done := deps0, {};
    NoneHeaded(frags, loose, |frags|);
    for k := 0 to |ids|
      invariant forall m :: 0 <= m < k ==> ids[m] in done
      invariant forall m :: k <= m < |ids| ==> ids[m] !in done
      invariant done <= loose[l].parents
      invariant seen == HeadedBy(frags, done) + LooseHeadedBy(loose, |frags|, done)
      invariant deps == deps0[i := seen]
      invariant Counted(inDegree[..], deps, {}) && Listed(dependents[..], deps)
    {
      var id := ids[k];
      HeadedByMore(frags, fragIndex, done, id);
      LooseHeadedByMore(loose, |frags|, looseIndex, done, id);
      if id in fragIndex && fragIndex[id] !in seen {
        Link(inDegree, dependents, i, fragIndex[id], deps);
        seen := seen + {fragIndex[id]};
        deps := deps[i := seen];
      }
      if id in looseIndex && |frags| + looseIndex[id] !in seen {
        Link(inDegree, dependents, i, |frags| + looseIndex[id], deps);
        seen := seen + {|frags| + looseIndex[id]};
        deps := deps[i := seen];
      }
      done := done + {id};
    }
    assert done == loose[l].parents;
  }

  lemma NoneHeaded(frags: seq<Fragment>, loose: seq<LooseCommit>, base: nat)
    ensures HeadedBy(frags, {}) == {} && LooseHeadedBy(loose, base, {}) == {}
  {
  }

  ghost predicate DistinctHeads(frags: seq<Fragment>, loose: seq<LooseCommit>) {
    && (forall i, j :: 0 <= i < j < |frags| ==> frags[i].Head() != frags[j].Head())
    && (forall i, j :: 0 <= i < j < |loose| ==> loose[i].head != loose[j].head)
  }

  method IndexItems(frags: seq<Fragment>, loose: seq<LooseCommit>)
    returns (fragIndex: map<CommitId, nat>, looseIndex: map<CommitId, nat>)
    requires DistinctHeads(frags, loose)
    ensures IndexesFragments(frags, fragIndex) && IndexesLoose(loose, looseIndex)
  {
    var fragHeads := seq(|frags|, i requires 0 <= i < |frags| => frags[i].Head());
    var looseHeads := seq(|loose|, i requires 0 <= i < |loose| => loose[i].head);
    fragIndex := IndexHeads(fragHeads);
    looseIndex := IndexHeads(looseHeads);
    forall j | 0 <= j < |frags| ensures frags[j].Head() in fragIndex {
      assert fragHeads[j] in fragHeads;
    }
    forall j | 0 <= j < |loose| ensures loose[j].head in looseIndex {
      assert looseHeads[j] in looseHeads;
    }
  }

  /** In-degrees and adjacency lists of the dependency graph. */
  method TallyEdges(frags: seq<Fragment>, loose: seq<LooseCommit>)
    returns (inDegree: array<nat>, dependents: array<seq<nat>>)
    requires DistinctHeads(frags, loose)
    ensures fresh(inDegree) && fresh(dependents)
    ensures Counted(inDegree[..], DependencyList(frags, loose), {})
    ensures Listed(dependents[..], DependencyList(frags, loose))
  {
    hide Counted, Listed, HeadedBy;
    var n := |frags| + |loose|;
    var fragIndex, looseIndex := IndexItems(frags, loose);
    inDegree := new nat[n](_ => 0);
    dependents := new seq<nat>[n](_ => []);
    ghost var goal := DependencyList(frags, loose);
    ghost var deps: seq<set<nat>> := seq(n, _ => {});
    NothingTallied(inDegree[..], dependents[..], deps);
    for i := 0 to |frags|
      invariant deps == goal[..i] + seq(n - i, _ => {})
      invariant Counted(inDegree[..], deps, {}) && Listed(dependents[..], deps)
    {
      LinkFragment(frags, fragIndex, i, inDegree, dependents, deps);
      deps := deps[i := goal[i]];
    }
    for l := 0 to |loose|
      invariant deps == goal[..|frags| + l] + seq(|loose| - l, _ => {})
      invariant Counted(inDegree[..], deps, {}) && Listed(dependents[..], deps)
    {
      LinkLoose(frags, loose, fragIndex, looseIndex, l, inDegree, dependents, deps);
      assert goal[|frags| + l] == HeadedBy(frags, loose[l].parents) + LooseHeadedBy(loose, |frags|, loose[l].parents);
      deps := deps[|frags| + l := goal[|frags| + l]];
    }
    assert deps == goal;
  }

  lemma NothingTallied(inDegree: seq<nat>, dependents: seq<seq<nat>>, deps: seq<set<nat>>)
    requires |inDegree| == |dependents| == |deps|
    requires forall i :: 0 <= i < |deps| ==> inDegree[i] == 0 && dependents[i] == [] && deps[i] == {}
    ensures Counted(inDegree, deps, {}) && Listed(dependents, deps)
  {
    assert forall i :: 0 <= i < |deps| ==> deps[i] - {} == {};
  }

  /** The item numbered `i`. */
  function AsItem(n: nat, i: nat): Item {
    if i < n then FragmentItem(i) else LooseCommitItem(i - n)
  }

  function NumberOf(n: nat, item: Item): nat {
    match item
    case FragmentItem(i) => i
    case LooseCommitItem(l) => n + l
  }

  function Numbers(n: nat, items: seq<Item>): seq<nat> {
    seq(|items|, k requires 0 <= k < |items| => NumberOf(n, items[k]))
  }

  /** Every item of the tree once, each after all it depends on. */
  ghost predicate SortedOrder(frags: seq<Fragment>, loose: seq<LooseCommit>, items: seq<Item>) {
    var order := Numbers(|frags|, items);
    && (forall k :: 0 <= k < |items| ==> items[k] == AsItem(|frags|, order[k]))
    && Distinct(order)
    && Elements(order) == UpTo(|frags| + |loose|)
    && DependenciesFirst(DependencyList(frags, loose), order)
  }

  // ----- The same law on heads alone -----

  ghost predicate IsItem(frags: seq<Fragment>, loose: seq<LooseCommit>, x: Item) {
    match x
    case FragmentItem(i) => i < |frags|
    case LooseCommitItem(l) => l < |loose|
  }

  /** `x` names the head of `y`: a fragment in its boundary, a loose commit among its parents. */
  ghost predicate Leans(frags: seq<Fragment>, loose: seq<LooseCommit>, x: Item, y: Item) {
    && IsItem(frags, loose, x) && IsItem(frags, loose, y)
    && match x {
         case FragmentItem(i) => y.FragmentItem? && frags[y.index].Head() in frags[i].Boundary()
         case LooseCommitItem(l) =>
           if y.FragmentItem? then frags[y.index].Head() in loose[l].parents
           else loose[y.index].head in loose[l].parents
       }
  }

  ghost predicate AllItems(frags: seq<Fragment>, loose: seq<LooseCommit>, items: seq<Item>) {
    forall p :: 0 <= p < |items| ==>
      match items[p]
      case FragmentItem(i) => i < |frags|
      case LooseCommitItem(l) => l < |loose|
  }

  /** No fragment is listed before one that heads its boundary, no loose commit before what heads its parents. */
  ghost predicate HeadsFirst(frags: seq<Fragment>, loose: seq<LooseCommit>, items: seq<Item>)
    requires AllItems(frags, loose, items)
  {
    forall p, q :: 0 <= p <= q < |items| ==>
      match (items[p], items[q])
      case (FragmentItem(i), FragmentItem(j)) => frags[j].Head() !in frags[i].Boundary()
      case (FragmentItem(_), LooseCommitItem(_)) => true
      case (LooseCommitItem(l), FragmentItem(j)) => frags[j].Head() !in loose[l].parents
      case (LooseCommitItem(l), LooseCommitItem(j)) => loose[j].head !in loose[l].parents
  }

  /** Items that hold each other up: each names the head of one of them, perhaps its own. */
  ghost predicate Knot(frags: seq<Fragment>, loose: seq<LooseCommit>, s: set<Item>) {
    s != {} && forall x :: x in s ==> LeansOn(frags, loose, s, x)
  }

  ghost predicate LeansOn(frags: seq<Fragment>, loose: seq<LooseCommit>, s: set<Item>, x: Item) {
    exists y :: y in s && Leans(frags, loose, x, y)
  }

  lemma LeansIff(frags: seq<Fragment>, loose: seq<LooseCommit>, x: nat, y: nat)
    requires x < |frags| + |loose|
    ensures y in DependsOn(frags, loose, x) <==>
            y < |frags| + |loose| && Leans(frags, loose, AsItem(|frags|, x), AsItem(|frags|, y))
  {
    if x >= |frags| && y >= |frags| {
      assert y == |frags| + (y - |frags|);
    }
  }

  lemma {:induction false} ItemCard(n: nat, s: set<nat>)
    ensures |set k | k in s :: AsItem(n, k)| == |s|
  {
    if s != {} {
      var k :| k in s;
      ItemCard(n, s - {k});
      var rest := set j | j in s - {k} :: AsItem(n, j);
      assert (set j | j in s :: AsItem(n, j)) == rest + {AsItem(n, k)};
      assert AsItem(n, k) !in rest;
    }
  }

  /** The items that are not emitted are the largest knot, or there is none. */
  ghost function LeftItems(frags: seq<Fragment>, loose: seq<LooseCommit>, order: seq<nat>): set<Item> {
    set k | k in LeftOver(DependencyList(frags, loose), order) :: AsItem(|frags|, k)
  }

  lemma LeftIsKnot(frags: seq<Fragment>, loose: seq<LooseCommit>, order: seq<nat>)
    requires Frontier(DependencyList(frags, loose), order, []) && LeftItems(frags, loose, order) != {}
    ensures Knot(frags, loose, LeftItems(frags, loose, order))
  {
    hide Frontier, DependsOn, Leans;
    var deps, s := DependencyList(frags, loose), LeftItems(frags, loose, order);
    ListIsGraph(frags, loose);
    FrontierEnd(deps, order);
    forall x | x in s ensures LeansOn(frags, loose, s, x) {
      var k :| k in LeftOver(deps, order) && x == AsItem(|frags|, k);
      assert HeldUp(deps, LeftOver(deps, order), k);
      var j :| j in deps[k] * LeftOver(deps, order);
      LeansIff(frags, loose, k, j);
      assert AsItem(|frags|, j) in s;
    }
  }

  lemma KnotIsHeld(frags: seq<Fragment>, loose: seq<LooseCommit>, s: set<Item>, held: set<nat>)
    requires Knot(frags, loose, s) && held == set x | x in s :: NumberOf(|frags|, x)
    ensures forall k :: k in held ==> HeldUp(DependencyList(frags, loose), held, k)
    ensures forall x :: x in s ==> IsItem(frags, loose, x)
  {
    hide DependencyList, Leans, LeansOn, HeldUp;
    forall x | x in s
      ensures IsItem(frags, loose, x) && HeldUp(DependencyList(frags, loose), held, NumberOf(|frags|, x))
    {
      ItemIsHeld(frags, loose, s, held, x);
    }
  }

  lemma ItemIsHeld(frags: seq<Fragment>, loose: seq<LooseCommit>, s: set<Item>, held: set<nat>, x: Item)
    requires x in s && LeansOn(frags, loose, s, x) && held == set x | x in s :: NumberOf(|frags|, x)
    ensures IsItem(frags, loose, x) && HeldUp(DependencyList(frags, loose), held, NumberOf(|frags|, x))
  {
    hide DependsOn, Leans;
    var y :| y in s && Leans(frags, loose, x, y);
    LeansAreItems(frags, loose, x, y);
    var k, j := NumberOf(|frags|, x), NumberOf(|frags|, y);
    LeansIff(frags, loose, k, j);
    assert j in DependencyList(frags, loose)[k] * held;
  }

  lemma KnotIsLeft(frags: seq<Fragment>, loose: seq<LooseCommit>, order: seq<nat>, s: set<Item>)
    requires Frontier(DependencyList(frags, loose), order, []) && Knot(frags, loose, s)
    ensures s <= LeftItems(frags, loose, order)
  {
    hide Frontier, DependencyList, Stuck, AsGraph, Knot, HeldUp, InBounds;
    var n, deps := |frags|, DependencyList(frags, loose);
    var held := set x | x in s :: NumberOf(n, x);
    ListIsGraph(frags, loose);
    KnotIsHeld(frags, loose, s, held);
    EmitsTheFree(deps, order);
    forall x | x in s ensures x in LeftItems(frags, loose, order) {
      var k := NumberOf(n, x);
      assert k in held && k < |deps| && AsItem(n, k) == x;
      WaitingIsStuck(deps, held, k);
      assert k in LeftOver(deps, order);
    }
  }

  lemma LeansAreItems(frags: seq<Fragment>, loose: seq<LooseCommit>, x: Item, y: Item)
    requires Leans(frags, loose, x, y)
    ensures IsItem(frags, loose, x) && IsItem(frags, loose, y)
  {
  }

  lemma LeftCount(frags: seq<Fragment>, loose: seq<LooseCommit>, order: seq<nat>)
    requires Frontier(DependencyList(frags, loose), order, [])
    ensures |LeftItems(frags, loose, order)| == |frags| + |loose| - |order|
  {
    hide Frontier, DependsOn, Stuck, AsGraph, FreeItems;
    var deps := DependencyList(frags, loose);
    ListIsGraph(frags, loose);
    EmitsTheFree(deps, order);
    FreeWithin(AsGraph(deps), |deps|);
    DistinctCard(order);
    var all, done := UpTo(|deps|), Elements(order);
    assert all == done + (all - done);
    ItemCard(|frags|, LeftOver(deps, order));
  }

  lemma FreeWithin(g: map<nat, set<nat>>, n: nat)
    ensures FreeItems(g, n) <= UpTo(n)
  {
  }

  /** In a sorted order no item comes before one whose head it names. */
  lemma SortedHeads(frags: seq<Fragment>, loose: seq<LooseCommit>, items: seq<Item>, p: nat, q: nat)
    requires SortedOrder(frags, loose, items)
    requires p < |items| && q < |items| && Leans(frags, loose, items[p], items[q])
    ensures q < p
  {
    hide DependsOn, Leans;
    var order, deps := Numbers(|frags|, items), DependencyList(frags, loose);
    assert order[p] in Elements(order) && order[q] in Elements(order);
    ListIsGraph(frags, loose);
    LeansIff(frags, loose, order[p], order[q]);
    assert order[q] in deps[order[p]];
    assert order[q] in order[..p];
    var k :| 0 <= k < p && order[k] == order[q];
  }

  /**
   Sorting succeeds exactly when the dependency graph has no cycle.  Then the
   result lists every item once, after all its dependencies; otherwise the error
   counts the items that no cycle holds up.  On heads: a sorted order puts every
   fragment after those that head its boundary and every loose commit after all
   that head its parents; a cycle is reported exactly if some items hold each other
   up, and the items left out are all that do.
   */
  method TopsortedBlobOrder(frags: seq<Fragment>, loose: seq<LooseCommit>) returns (r: Order)
    requires DistinctHeads(frags, loose)
    ensures var g, n := DependencyGraph(frags, loose), |frags| + |loose|;
            && (r.Sorted? <==> forall y :: y in UpTo(n) ==> !OnCycle(g, y))
            && (r.Cycle? ==> r.total == n && r.sorted == |FreeItems(g, n)|)
    ensures r.Sorted? ==> SortedOrder(frags, loose, r.items)
    ensures r.Sorted? ==> |r.items| == |frags| + |loose| && Distinct(r.items)
    ensures r.Sorted? ==> AllItems(frags, loose, r.items) && HeadsFirst(frags, loose, r.items)
    ensures r.Cycle? <==> exists s :: Knot(frags, loose, s)
    ensures r.Cycle? ==> exists s :: Knot(frags, loose, s) && r.sorted + |s| == |frags| + |loose|
                                     && forall t :: Knot(frags, loose, t) ==> t <= s
  {
    hide Knot, Leans, LeftItems;
    hide Frontier, DependencyList, DependencyGraph, OnCycle, Counted, Listed, FreeItems, SortedOrder;
    hide DistinctHeads, InBounds;
    var n := |frags| + |loose|;
    ghost var deps := DependencyList(frags, loose);
    ListIsGraph(frags, loose);
    var inDegree, dependents := TallyEdges(frags, loose);
    var order := Kahn(inDegree, dependents[..], deps);
    EmitsTheFree(deps, order);
    FreeIffAcyclic(deps);
    LeftCount(frags, loose, order);
    forall s | Knot(frags, loose, s) ensures s <= LeftItems(frags, loose, order) && s != {} {
      KnotIsLeft(frags, loose, order, s);
      assert s != {} by { KnotIsSome(frags, loose, s); }
    }
    if |order| != n {
      LeftIsKnot(frags, loose, order);
      return Cycle(n, |order|);
    }
    r := Sorted(seq(n, k requires 0 <= k < n => AsItem(|frags|, order[k])));
    AllSorted(frags, loose, order, r.items);
    SortedOnHeads(frags, loose, r.items);
  }

  /** The values of a map keyed by head, in some order. */
  method Values<V>(m: map<CommitId, V>, head: V -> CommitId) returns (q: seq<V>)
    requires forall k :: k in m ==> head(m[k]) == k
    ensures |q| == |m| && forall v :: v in q <==> head(v) in m && m[head(v)] == v
    ensures forall i, j :: 0 <= i < j < |q| ==> head(q[i]) != head(q[j])
  {
    var keys := Arrange(m.Keys);
    ArrangedCard(m.Keys, keys);
    q := seq(|keys|, i requires 0 <= i < |keys| => m[keys[i]]);
    forall v | head(v) in m && m[head(v)] == v ensures v in q {
      var i :| 0 <= i < |keys| && keys[i] == head(v);
      assert q[i] == v;
    }
  }

  /** The order for the tree itself, over its items in iteration order. */
  method TopsortTree(t: Tree) returns (frags: seq<Fragment>, loose: seq<LooseCommit>, r: Order)
    requires t.Valid()
    ensures |frags| == |t.fragments|
    ensures forall f :: f in frags <==> f.Head() in t.fragments && t.fragments[f.Head()] == f
    ensures |loose| == |t.commits| && forall c :: c in loose <==> c.head in t.commits && t.commits[c.head] == c
    ensures r.Cycle? <==> exists s :: Knot(frags, loose, s)
    ensures r.Sorted? ==> |r.items| == |t.fragments| + |t.commits| && Distinct(r.items)
    ensures r.Sorted? ==> AllItems(frags, loose, r.items) && HeadsFirst(frags, loose, r.items)
  {
    hide Knot, AllItems, HeadsFirst;
    frags := Values(t.fragments, (f: Fragment) => f.Head());
    loose := Values(t.commits, (c: LooseCommit) => c.head);
    r := TopsortedBlobOrder(frags, loose);
  }

  lemma ArrangedCard(s: set<CommitId>, q: seq<CommitId>)
    requires Distinct(q) && forall x :: x in q <==> x in s
    ensures |q| == |s|
  {
    DistinctCard(q);
    assert Elements(q) == s;
  }

  lemma KnotIsSome(frags: seq<Fragment>, loose: seq<LooseCommit>, s: set<Item>)
    requires Knot(frags, loose, s)
    ensures s != {}
  {
  }

  lemma SortedOnHeads(frags: seq<Fragment>, loose: seq<LooseCommit>, items: seq<Item>)
    requires SortedOrder(frags, loose, items)
    ensures Distinct(items) && AllItems(frags, loose, items) && HeadsFirst(frags, loose, items)
  {
    var order := Numbers(|frags|, items);
    forall p | 0 <= p < |items| ensures IsItem(frags, loose, items[p]) {
      assert order[p] in Elements(order);
    }
    hide SortedOrder;
    forall p: nat, q: nat | p <= q < |items| ensures !Leans(frags, loose, items[p], items[q]) {
      if Leans(frags, loose, items[p], items[q]) {
        SortedHeads(frags, loose, items, p, q);
        assert false;
      }
    }
  }

  lemma AllSorted(frags: seq<Fragment>, loose: seq<LooseCommit>, order: seq<nat>, items: seq<Item>)
    requires Distinct(order) && DependenciesFirst(DependencyList(frags, loose), order)
    requires |order| == |frags| + |loose|
    requires |items| == |order| && forall k :: 0 <= k < |items| ==> items[k] == AsItem(|frags|, order[k])
    ensures SortedOrder(frags, loose, items)
  {
    hide DependsOn;
    assert Numbers(|frags|, items) == order;
    DistinctCard(order);
    Subset(Elements(order), UpTo(|order|));
  }

  lemma ListIsGraph(frags: seq<Fragment>, loose: seq<LooseCommit>)
    ensures var deps := DependencyList(frags, loose);
            InBounds(deps) && |deps| == |frags| + |loose| && AsGraph(deps) == DependencyGraph(frags, loose)
  {
  }
}
