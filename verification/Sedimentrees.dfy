/**
 The mutable Sedimentree (sedimentree_core/src/sedimentree.rs), and what holds of
 it after every run.
 */
module Sedimentrees {
  import opened Ids
  import opened Strata
  import opened Trees
  import opened KeepSets
  import Minimize

  class Sedimentree {
    var fragments: map<CommitId, Fragment>
    var commits: map<CommitId, LooseCommit>

    function Value(): Tree
      reads this
    {
      Tree(fragments, commits)
    }

    constructor (d: Digests, fs: seq<Fragment>, cs: seq<LooseCommit>)
      ensures Value().Valid()
      ensures Holds(d, Value(), set f | f in fs, set c | c in cs)
    {
      var fm := Collect(d.fragment, FragmentHead, fs);
      var cm := Collect(d.commit, CommitHead, cs);
      fragments, commits := fm, cm;
    }

    method AddCommit(d: Digests, c: LooseCommit) returns (added: bool)
      modifies this`commits
      ensures added == (c.head !in old(commits))
      ensures Value() == WithCommit(d, old(Value()), c)
    {
      added := c.head !in commits;
      if added || d.commit(c) < d.commit(commits[c.head]) {
        commits := commits[c.head := c];
      }
    }

    method AddFragment(d: Digests, f: Fragment) returns (added: bool)
      modifies this`fragments
      ensures added == (f.Head() !in old(fragments))
      ensures Value() == WithFragment(d, old(Value()), f)
    {
      added := f.Head() !in fragments;
      if added || d.fragment(f) < d.fragment(fragments[f.Head()]) {
        fragments := fragments[f.Head() := f];
      }
    }

    method Merge(d: Digests, other: Tree)
      modifies this
      ensures Value() == MergedTree(d, old(Value()), other)
    {
      fragments := MergeInto(d.fragment, fragments, other.fragments);
      commits := MergeInto(d.commit, commits, other.commits);
    }

    /** Drop dominated fragments and covered loose commits from both maps. */
    method MinimizeInPlace(depth: Depth)
      modifies this
      ensures Value() == Minimize.MinimizedTree(old(Value()), depth)
    {
      hide Minimize.MinimizedTree;
      var fragmentHeads, commitHeads := Minimize.SurvivingHeads(Value(), depth);
      ghost var before := Value();
      fragments := Restrict(fragments, fragmentHeads);
      commits := Restrict(commits, commitHeads);
      Minimize.MinimizedIsPart(before, depth);
    }
  }

  // ----- Every run of every replica -----

  /** How a replica came to its state: merging takes in the state of another run. */
  datatype Run =
    | New(fs: seq<Fragment>, cs: seq<LooseCommit>)
    | AddedFragment(before: Run, f: Fragment)
    | AddedCommit(before: Run, c: LooseCommit)
    | MergedWith(before: Run, other: Run)

  ghost function FragmentsOf(r: Run): set<Fragment> {
    match r
    case New(fs, _) => set f | f in fs
    case AddedFragment(before, f) => FragmentsOf(before) + {f}
    case AddedCommit(before, _) => FragmentsOf(before)
    case MergedWith(before, other) => FragmentsOf(before) + FragmentsOf(other)
  }

  ghost function CommitsOf(r: Run): set<LooseCommit> {
    match r
    case New(_, cs) => set c | c in cs
    case AddedFragment(before, _) => CommitsOf(before)
    case AddedCommit(before, c) => CommitsOf(before) + {c}
    case MergedWith(before, other) => CommitsOf(before) + CommitsOf(other)
  }

  /** `t` is a state the run can end in. */
  ghost predicate Yields(d: Digests, r: Run, t: Tree)
    decreases r
  {
    match r
    case New(fs, cs) => Holds(d, t, set f | f in fs, set c | c in cs)
    case AddedFragment(before, f) => exists u :: Yields(d, before, u) && t == WithFragment(d, u, f)
    case AddedCommit(before, c) => exists u :: Yields(d, before, u) && t == WithCommit(d, u, c)
    case MergedWith(before, other) =>
      exists u, v :: Yields(d, before, u) && Yields(d, other, v) && t == MergedTree(d, u, v)
  }

  /** Whatever the run, the tree holds per head the lowest item ever delivered to it. */
  lemma {:induction false} RunHoldsLowest(d: Digests, r: Run, t: Tree)
    requires Yields(d, r, t)
    ensures Holds(d, t, FragmentsOf(r), CommitsOf(r))
    decreases r
  {
    match r
    case New(fs, cs) =>
    case AddedFragment(before, f) =>
      var u :| Yields(d, before, u) && t == WithFragment(d, u, f);
      RunHoldsLowest(d, before, u);
      InsertLowest(d.fragment, FragmentHead, u.fragments, FragmentsOf(before), f);
    case AddedCommit(before, c) =>
      var u :| Yields(d, before, u) && t == WithCommit(d, u, c);
      RunHoldsLowest(d, before, u);
      InsertLowest(d.commit, CommitHead, u.commits, CommitsOf(before), c);
    case MergedWith(before, other) =>
      var u, v :| Yields(d, before, u) && Yields(d, other, v) && t == MergedTree(d, u, v);
      RunHoldsLowest(d, before, u);
      RunHoldsLowest(d, other, v);
      MergeLowest(d.fragment, FragmentHead, u.fragments, v.fragments, FragmentsOf(before), FragmentsOf(other));
      MergeLowest(d.commit, CommitHead, u.commits, v.commits, CommitsOf(before), CommitsOf(other));
  }

  /** Strong eventual consistency: the same items, in any order and multiplicity, give equal trees. */
  lemma SameItemsSameTree(d: Digests, r: Run, t: Tree, r': Run, t': Tree)
    requires NoTie(d.fragment, FragmentHead, FragmentsOf(r)) && NoTie(d.commit, CommitHead, CommitsOf(r))
    requires Yields(d, r, t) && Yields(d, r', t')
    requires FragmentsOf(r) == FragmentsOf(r') && CommitsOf(r) == CommitsOf(r')
    ensures t == t'
  {
    RunHoldsLowest(d, r, t);
    RunHoldsLowest(d, r', t');
    LowestUnique(d.fragment, FragmentHead, t.fragments, t'.fragments, FragmentsOf(r));
    LowestUnique(d.commit, CommitHead, t.commits, t'.commits, CommitsOf(r));
  }

  /** Fragments that tie diverge: whichever comes first stays. */
  lemma TieDiverges(d: Digests, f: Fragment, g: Fragment)
    requires f.Head() == g.Head() && d.fragment(f) == d.fragment(g) && f != g
    ensures var none := New([], []);
            var r, r' := AddedFragment(AddedFragment(none, f), g), AddedFragment(AddedFragment(none, g), f);
            && FragmentsOf(r) == FragmentsOf(r') && CommitsOf(r) == CommitsOf(r')
            && Yields(d, r, Tree(map[f.Head() := f], map[])) && Yields(d, r', Tree(map[g.Head() := g], map[]))
  {
    OneAfterOther(d, f, g);
    OneAfterOther(d, g, f);
  }

  lemma OneAfterOther(d: Digests, f: Fragment, g: Fragment)
    requires f.Head() == g.Head() && d.fragment(f) <= d.fragment(g)
    ensures Yields(d, AddedFragment(AddedFragment(New([], []), f), g), Tree(map[f.Head() := f], map[]))
  {
    var t := Tree(map[f.Head() := f], map[]);
    assert Yields(d, New([], []), EMPTY);
    assert t == WithFragment(d, EMPTY, f);
    assert Yields(d, AddedFragment(New([], []), f), t);
    assert t == WithFragment(d, t, g);
  }
}
