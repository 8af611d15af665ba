/** Which fragments survive minimization (`keep_sets` in sedimentree_core/src/sedimentree.rs). */
module KeepSets {
  import opened Ids
  import opened Strata

  type Fragments = map<CommitId, Fragment>

  /** `kept` holds exactly the fragments that no strictly deeper fragment of `kept` supports. */
  ghost predicate IsKeepSet(frags: Fragments, depth: Depth, kept: set<CommitId>) {
    && kept <= frags.Keys
    && forall x :: x in frags ==>
         (x in kept <==> !exists y :: y in kept && Dominates(frags[y], frags[x], depth))
  }

  ghost function Deeper(frags: Fragments, depth: Depth, x: CommitId): set<CommitId>
    requires x in frags
  {
    set y | y in frags && depth(frags[y].Head()) > depth(frags[x].Head())
  }

  ghost predicate Kept(frags: Fragments, depth: Depth, x: CommitId)
    requires x in frags
    decreases Deeper(frags, depth, x)
  {
    forall y :: y in Deeper(frags, depth, x) && Dominates(frags[y], frags[x], depth) ==>
      (DeeperShrinks(frags, depth, x, y); !Kept(frags, depth, y))
  }

  lemma DeeperShrinks(frags: Fragments, depth: Depth, x: CommitId, y: CommitId)
    requires x in frags && y in Deeper(frags, depth, x)
    ensures Deeper(frags, depth, y) < Deeper(frags, depth, x)
  {
    assert y !in Deeper(frags, depth, y);
  }

  ghost function KeepSet(frags: Fragments, depth: Depth): set<CommitId> {
    set x | x in frags && Kept(frags, depth, x)
  }

  /** There is one such set, and only one. */
  lemma KeepSetUnique(frags: Fragments, depth: Depth, kept: set<CommitId>)
    ensures IsKeepSet(frags, depth, kept) <==> kept == KeepSet(frags, depth)
  {
    assert IsKeepSet(frags, depth, KeepSet(frags, depth)) by {
      forall x, y | x in frags && y in frags && Dominates(frags[y], frags[x], depth)
        ensures y in Deeper(frags, depth, x)
      {
      }
    }
    if IsKeepSet(frags, depth, kept) {
      forall x | x in frags ensures x in kept <==> Kept(frags, depth, x) {
        SameVerdict(frags, depth, kept, x);
      }
    }
  }

  lemma {:induction false} SameVerdict(frags: Fragments, depth: Depth, kept: set<CommitId>, x: CommitId)
    requires IsKeepSet(frags, depth, kept) && x in frags
    ensures x in kept <==> Kept(frags, depth, x)
    decreases Deeper(frags, depth, x)
  {
    forall y | y in Deeper(frags, depth, x) ensures y in kept <==> Kept(frags, depth, y) {
      DeeperShrinks(frags, depth, x, y);
      SameVerdict(frags, depth, kept, y);
    }
  }

  function Restrict<V>(m: map<CommitId, V>, keys: set<CommitId>): map<CommitId, V> {
    map k | k in m && k in keys :: m[k]
  }

  /** Whatever the metadata, one kept fragment supports another only at equal depth. */
  lemma KeptSupportIsLevel(frags: Fragments, depth: Depth, x: CommitId, y: CommitId)
    requires x in KeepSet(frags, depth) && y in KeepSet(frags, depth)
    requires frags[x].Supports(frags[y].summary, depth)
    ensures depth(frags[x].Head()) == depth(frags[y].Head())
  {
    KeepSetUnique(frags, depth, KeepSet(frags, depth));
  }

  /** Minimizing fragments twice is minimizing them once. */
  lemma KeepSetIdempotent(frags: Fragments, depth: Depth)
    ensures var kept := Restrict(frags, KeepSet(frags, depth)); KeepSet(kept, depth) == kept.Keys
  {
    var k := KeepSet(frags, depth);
    KeepSetUnique(frags, depth, k);
    var kept := Restrict(frags, k);
    KeepSetUnique(kept, depth, kept.Keys);
  }

  /** The distinct depths, deepest first. */
  method DescendingDepths(ds: set<nat>) returns (q: seq<nat>)
    ensures forall d :: d in q <==> d in ds
    ensures forall i, j :: 0 <= i < j < |q| ==> q[i] > q[j]
  {
    q := [];
    var rest := ds;
    while rest != {}
      invariant rest <= ds
      invariant forall d :: d in q <==> d in ds && d !in rest
      invariant forall i, j :: 0 <= i < j < |q| ==> q[i] > q[j]
      invariant forall i, d :: 0 <= i < |q| && d in rest ==> q[i] > d
      decreases rest
    {
      var m := Largest(rest);
      assert m !in q;
      q, rest := q + [m], rest - {m};
    }
  }

  method Largest(s: set<nat>) returns (m: nat)
    requires s != {}
    ensures m in s && forall d :: d in s ==> d <= m
  {
    m :| m in s;
    var rest := s - {m};
    while rest != {}
      invariant rest < s && m in s && m !in rest
      invariant forall d :: d in s && d !in rest ==> d <= m
      decreases rest
    {
      var d :| d in rest;
      rest := rest - {d};
      if d > m {
        m := d;
      }
    }
  }

  /** Group the fragments by depth, in some order within each group. */
  method GroupByDepth(frags: Fragments, depth: Depth) returns (byDepth: map<nat, seq<CommitId>>)
    ensures forall d, x :: d in byDepth && x in byDepth[d] ==> x in frags && depth(frags[x].Head()) == d
    ensures forall x :: x in frags ==> depth(frags[x].Head()) in byDepth && x in byDepth[depth(frags[x].Head())]
  {
    byDepth := map[];
    var order := Arrange(frags.Keys);
    for i := 0 to |order|
      invariant forall d, x :: d in byDepth && x in byDepth[d] ==> x in frags && depth(frags[x].Head()) == d
      invariant forall x :: x in order[..i] ==>
                depth(frags[x].Head()) in byDepth && x in byDepth[depth(frags[x].Head())]
    {
      var d := depth(frags[order[i]].Head());
      byDepth := byDepth[d := (if d in byDepth then byDepth[d] else []) + [order[i]]];
    }
  }

  /** A verdict needs only the kept fragments of greater depth. */
  lemma VerdictFrom(frags: Fragments, depth: Depth, kept: set<CommitId>, x: CommitId)
    requires x in frags && kept <= frags.Keys
    requires forall y :: y in Deeper(frags, depth, x) ==> (y in kept <==> Kept(frags, depth, y))
    ensures Kept(frags, depth, x) <==> !exists y :: y in kept && Dominates(frags[y], frags[x], depth)
  {
    forall y | y in kept && Dominates(frags[y], frags[x], depth) ensures y in Deeper(frags, depth, x) {
    }
  }

  /** One group of the sweep: candidates of depth `d` against everything kept that is deeper. */
  method SweepGroup(frags: Fragments, depth: Depth, group: seq<CommitId>, d: nat, kept0: set<CommitId>)
    returns (kept: set<CommitId>)
    requires forall x :: x in group ==> x in frags && depth(frags[x].Head()) == d
    requires forall x :: x in kept0 <==> x in frags && depth(frags[x].Head()) > d && Kept(frags, depth, x)
    ensures forall x :: x in kept <==> x in kept0 || (x in group && Kept(frags, depth, x))
  {
    hide Kept;
    kept := kept0;
    for n := 0 to |group|
      invariant kept <= frags.Keys
      invariant forall x :: x in kept <==> x in kept0 || (x in group[..n] && Kept(frags, depth, x))
    {
      var x := group[n];
      var dominated := exists y :: y in kept && Dominates(frags[y], frags[x], depth);
      VerdictFrom(frags, depth, kept, x);
      if !dominated {
        kept := kept + {x};
      }
    }
  }

  /** The deepest-first sweep.  For every iteration order it computes the one keep set. */
  method SweepFragments(frags: Fragments, depth: Depth) returns (kept: set<CommitId>)
    ensures kept == KeepSet(frags, depth)
  {
    hide Kept;
    var byDepth := GroupByDepth(frags, depth);
    var depths := DescendingDepths(byDepth.Keys);
    kept := {};
    for i := 0 to |depths|
      invariant forall x :: x in kept <==> x in frags && depth(frags[x].Head()) in depths[..i] && Kept(frags, depth, x)
    {
      var d := depths[i];
      assert forall e :: e in byDepth && e > d ==> e in depths[..i] by {
        forall e | e in byDepth && e > d ensures e in depths[..i] {
          var j :| 0 <= j < |depths| && depths[j] == e;
          assert j < i;
        }
      }
      kept := SweepGroup(frags, depth, byDepth[d], d, kept);
    }
  }
}
