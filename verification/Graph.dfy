/**
 Reachability in finite directed graphs.

 Every worklist loop of the repository (fragment walks, the two store drivers,
 ancestor collection, range propagation, the covered-set walk) computes a set of
 this kind.  `Reach` is the intersection of all closed sets that contain the
 roots, so a fact about everything reachable is proved by exhibiting a closed
 set (`ReachLeast`), without paths or step counts.
 */
module Graph {

  /** The successors of `x`; a vertex without an entry has none. */
  function Next<T(==)>(g: map<T, set<T>>, x: T): set<T> {
    if x in g then g[x] else {}
  }

  ghost predicate Closed<T>(g: map<T, set<T>>, s: set<T>) {
    forall x, y :: x in s && y in Next(g, x) ==> y in s
  }

  ghost function Targets<T>(g: map<T, set<T>>): set<T> {
    set x, y | x in g && y in g[x] :: y
  }

  ghost predicate Inescapable<T(!new)>(g: map<T, set<T>>, roots: set<T>, x: T) {
    forall s: set<T> {:trigger Closed(g, s)} :: roots <= s && Closed(g, s) ==> x in s
  }

  ghost function Reach<T(!new)>(g: map<T, set<T>>, roots: set<T>): set<T> {
    set x | x in roots + Targets(g) && Inescapable(g, roots, x)
  }

  /** The reachable set contains the roots and is closed. */
  lemma ReachClosed<T(!new)>(g: map<T, set<T>>, roots: set<T>)
    ensures roots <= Reach(g, roots)
    ensures Closed(g, Reach(g, roots))
  {
    var r := Reach(g, roots);
    forall x, y | x in r && y in Next(g, x) ensures y in r {
      assert y in Targets(g);
      forall s: set<T> | roots <= s && Closed(g, s) ensures y in s {
        assert x in s;
      }
    }
  }

  /** It is the least such set. */
  lemma ReachLeast<T(!new)>(g: map<T, set<T>>, roots: set<T>, s: set<T>)
    requires roots <= s
    requires Closed(g, s)
    ensures Reach(g, roots) <= s
  {
    forall x | x in Reach(g, roots) ensures x in s {
      assert Inescapable(g, roots, x);
    }
  }

  /** Adding edges or roots only adds reachable vertices. */
  lemma ReachMonotone<T(!new)>(g: map<T, set<T>>, roots: set<T>, g': map<T, set<T>>, roots': set<T>)
    requires roots <= roots'
    requires forall x :: x in g ==> g[x] <= Next(g', x)
    ensures Reach(g, roots) <= Reach(g', roots')
  {
    hide Reach;
    ReachClosed(g', roots');
    ReachLeast(g, roots, Reach(g', roots'));
  }

  /** What is reachable from a reachable set of roots was reachable already. */
  lemma ReachTransitive<T(!new)>(g: map<T, set<T>>, roots: set<T>, mid: set<T>)
    requires mid <= Reach(g, roots)
    ensures Reach(g, mid) <= Reach(g, roots)
  {
    ReachClosed(g, roots);
    ReachLeast(g, mid, Reach(g, roots));
  }

  /** Every edge leads to a vertex of lower rank. */
  ghost predicate Ranked<T(!new)>(g: map<T, set<T>>, rank: T -> nat) {
    forall x, y :: x in g && y in g[x] ==> rank(y) < rank(x)
  }

  /** No vertex can be reached back from one of its successors. */
  ghost predicate Acyclic<T(!new)>(g: map<T, set<T>>) {
    forall x, y :: x in g && y in g[x] ==> x !in Reach(g, {y})
  }

  ghost function ReachSize<T(!new)>(g: map<T, set<T>>, x: T): nat {
    |Reach(g, {x})|
  }

  /** Ranks exist exactly for acyclic graphs. */
  lemma RankedIffAcyclic<T(!new)>(g: map<T, set<T>>)
    ensures (exists rank: T -> nat :: Ranked(g, rank)) <==> Acyclic(g)
  {
    hide Reach;
    if rank: T -> nat :| Ranked(g, rank) {
      forall x, y | x in g && y in g[x] ensures x !in Reach(g, {y}) {
        var below := set z | z in Reach(g, {y}) && rank(z) <= rank(y);
        ReachClosed(g, {y});
        ReachLeast(g, {y}, below);
      }
    }
    if Acyclic(g) {
      var rank: T -> nat := x => ReachSize(g, x);
      forall x, y | x in g && y in g[x] ensures rank(y) < rank(x) {
        ReachShrinks(g, x, y);
      }
      assert Ranked(g, rank);
    }
  }

  lemma ReachShrinks<T(!new)>(g: map<T, set<T>>, x: T, y: T)
    requires x in g && y in g[x] && x !in Reach(g, {y})
    ensures |Reach(g, {y})| < |Reach(g, {x})|
  {
    hide Reach;
    ReachClosed(g, {x});
    ReachTransitive(g, {x}, {y});
    var rest := Reach(g, {x}) - Reach(g, {y});
    assert x in rest;
    assert Reach(g, {x}) == Reach(g, {y}) + rest;
  }
}
