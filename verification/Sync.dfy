/**
 Batch reconciliation of two peers by fingerprints (`fingerprint_summarize`,
 `fingerprint_resolver`, `diff_remote_fingerprints` in
 sedimentree_core/src/sedimentree.rs).

 A fingerprint is a parameter: the keyed hash under the seed of one round.
 */
module Sync {
  import opened Graph
  import opened Ids
  import opened Strata
  import opened Trees
  import opened KeepSets

  type Fingerprint = CommitId -> nat

  ghost predicate CollisionFree(fp: Fingerprint, ids: set<CommitId>) {
    forall x, y :: x in ids && y in ids && fp(x) == fp(y) ==> x == y
  }

  function Image(fp: Fingerprint, ids: set<CommitId>): set<nat> {
    set x | x in ids :: fp(x)
  }

  // ----- What goes over the wire -----

  datatype Summary = Summary(commits: set<nat>, fragments: set<nat>)

  function BoundaryIds(t: Tree): set<CommitId> {
    set k, b | k in t.fragments && b in t.fragments[k].Boundary() :: b
  }

  /** The identifiers a peer claims to know: loose commits, fragment heads and boundary commits. */
  function Named(t: Tree): set<CommitId> {
    t.commits.Keys + t.fragments.Keys + BoundaryIds(t)
  }

  function Summarize(fp: Fingerprint, t: Tree): Summary {
    Summary(Image(fp, Named(t)), Image(fp, t.fragments.Keys))
  }

  /** What the responder sends, and which of the requestor's fingerprints it does not recognise. */
  datatype Diff = Diff(
    localFragments: map<CommitId, Fragment>,
    localCommits: map<CommitId, LooseCommit>,
    remoteCommits: set<nat>,
    remoteFragments: set<nat>)

  /** Local heads that head a fragment of the remote. */
  function Roots(fp: Fingerprint, t: Tree, remote: Summary): set<CommitId> {
    set h | h in t.commits.Keys + t.fragments.Keys && fp(h) in remote.fragments
  }

  /** The walk follows the parents of loose commits, except past commits the remote names. */
  predicate Passable(fp: Fingerprint, t: Tree, remote: Summary, id: CommitId) {
    id in t.commits && (id in Roots(fp, t, remote) || fp(id) !in remote.commits)
  }

  ghost function PruneGraph(fp: Fingerprint, t: Tree, remote: Summary): map<CommitId, set<CommitId>> {
    map id | id in t.commits && Passable(fp, t, remote, id) :: t.commits[id].parents
  }

  ghost function Covered(fp: Fingerprint, t: Tree, remote: Summary): set<CommitId> {
    Reach(PruneGraph(fp, t, remote), Roots(fp, t, remote))
  }

  ghost function DiffOf(fp: Fingerprint, t: Tree, remote: Summary): Diff {
    Diff(
      map k | k in t.fragments && fp(k) !in remote.fragments :: t.fragments[k],
      map k | k in t.commits && fp(k) !in remote.commits && k !in Covered(fp, t, remote) :: t.commits[k],
      remote.commits - Image(fp, Named(t)),
      remote.fragments - Image(fp, t.fragments.Keys))
  }

  /** The covered-set walk. */
  method WalkCovered(fp: Fingerprint, t: Tree, remote: Summary) returns (covered: set<CommitId>)
    ensures covered == Covered(fp, t, remote)
  {
    hide Reach;
    var roots := Roots(fp, t, remote);
    ghost var g := PruneGraph(fp, t, remote);
    ghost var all := Reach(g, roots);
    ReachClosed(g, roots);
    covered := {};
    var stack := Arrange(roots);
    while stack != []
      invariant covered <= all && forall x :: x in stack ==> x in all
      invariant forall x :: x in roots ==> x in covered || x in stack
      invariant forall x, y :: x in covered && y in Next(g, x) ==> y in covered || y in stack
      decreases all - covered, |stack|
    {
      var id := stack[|stack| - 1];
      LastOrBefore(stack);
      stack := stack[..|stack| - 1];
      if id in covered {
        continue;
      }
      covered := covered + {id};
      if Passable(fp, t, remote, id) {
        assert Next(g, id) == t.commits[id].parents;
        var more := Arrange(t.commits[id].parents);
        stack := stack + more;
      }
    }
    ReachLeast(g, roots, covered);
  }

  method DiffRemoteFingerprints(fp: Fingerprint, t: Tree, remote: Summary) returns (d: Diff)
    ensures d == DiffOf(fp, t, remote)
  {
    hide Covered;
    var covered := WalkCovered(fp, t, remote);
    d := Diff(
      map k | k in t.fragments && fp(k) !in remote.fragments :: t.fragments[k],
      map k | k in t.commits && fp(k) !in remote.commits && k !in covered :: t.commits[k],
      remote.commits - Image(fp, Named(t)),
      remote.fragments - Image(fp, t.fragments.Keys));
  }

  /** The requestor's reverse lookup, captured with its summary. */
  datatype Resolver = Resolver(summary: Summary, commitIds: map<nat, CommitId>, fragmentIds: map<nat, CommitId>)

  method ReverseLookup(fp: Fingerprint, ids: set<CommitId>) returns (m: map<nat, CommitId>)
    ensures m.Keys == Image(fp, ids)
    ensures forall f :: f in m ==> m[f] in ids && fp(m[f]) == f
  {
    m := map[];
    var order := Arrange(ids);
    for i := 0 to |order|
      invariant forall j :: 0 <= j < i ==> fp(order[j]) in m
      invariant forall f :: f in m ==> m[f] in ids && fp(m[f]) == f
    {
      m := m[fp(order[i]) := order[i]];
    }
    forall x | x in ids ensures fp(x) in m {
      assert x in order;
    }
  }

  method FingerprintResolver(fp: Fingerprint, t: Tree) returns (r: Resolver)
    ensures r.summary == Summarize(fp, t)
    ensures r.commitIds.Keys == Image(fp, t.commits.Keys) && r.fragmentIds.Keys == Image(fp, t.fragments.Keys)
    ensures forall f :: f in r.commitIds ==> r.commitIds[f] in t.commits && fp(r.commitIds[f]) == f
    ensures forall f :: f in r.fragmentIds ==> r.fragmentIds[f] in t.fragments && fp(r.fragmentIds[f]) == f
  {
    var commitIds := ReverseLookup(fp, t.commits.Keys);
    var fragmentIds := ReverseLookup(fp, t.fragments.Keys);
    r := Resolver(Summarize(fp, t), commitIds, fragmentIds);
  }

  // ----- The same round, in terms of identifiers -----

  /** `to`'s fragments that `from` also names as heads. */
  function SharedHeads(to: Tree, from: Tree): set<CommitId> {
    (from.commits.Keys + from.fragments.Keys) * to.fragments.Keys
  }

  ghost function PrunedWalk(to: Tree, from: Tree): map<CommitId, set<CommitId>> {
    map id | id in from.commits && (id in SharedHeads(to, from) || id !in Named(to)) :: from.commits[id].parents
  }

  ghost function Withheld(to: Tree, from: Tree): set<CommitId> {
    Named(to) + Reach(PrunedWalk(to, from), SharedHeads(to, from))
  }

  /** What the responder `from` sends to the requestor `to`. */
  ghost function Sent(to: Tree, from: Tree): Tree {
    Tree(Restrict(from.fragments, from.fragments.Keys - to.fragments.Keys),
         Restrict(from.commits, from.commits.Keys - Withheld(to, from)))
  }

  /** What the requestor `from` sends in answer to the echo of the responder `to`. */
  function Answered(to: Tree, from: Tree): Tree {
    Tree(Restrict(from.fragments, from.fragments.Keys - to.fragments.Keys),
         Restrict(from.commits, from.commits.Keys - Named(to)))
  }

  /** Everything the two peers and the walk can mention. */
  ghost function Mentioned(a: Tree, b: Tree): set<CommitId> {
    Named(a) + Named(b) + set c, p | c in b.commits && p in b.commits[c].parents :: p
  }

  lemma ImageMember(fp: Fingerprint, ids: set<CommitId>, all: set<CommitId>, x: CommitId)
    requires CollisionFree(fp, all) && ids <= all && x in all
    ensures fp(x) in Image(fp, ids) <==> x in ids
  {
  }

  /** Without collisions the fingerprint diff is the identifier diff. */
  lemma DiffByIds(fp: Fingerprint, a: Tree, b: Tree)
    requires CollisionFree(fp, Mentioned(a, b))
    ensures var d := DiffOf(fp, b, Summarize(fp, a));
            && Tree(d.localFragments, d.localCommits) == Sent(a, b)
            && d.remoteCommits == Image(fp, Named(a) - Named(b))
            && d.remoteFragments == Image(fp, a.fragments.Keys - b.fragments.Keys)
  {
    hide Reach, Image, Named, CollisionFree;
    var all, s := Mentioned(a, b), Summarize(fp, a);
    NamedParts(a);
    NamedParts(b);
    forall x | x in all
      ensures fp(x) in s.commits <==> x in Named(a)
      ensures fp(x) in s.fragments <==> x in a.fragments
    {
      ImageMember(fp, Named(a), all, x);
      ImageMember(fp, a.fragments.Keys, all, x);
    }
    assert Roots(fp, b, s) == SharedHeads(a, b);
    assert PruneGraph(fp, b, s) == PrunedWalk(a, b);
    var d := DiffOf(fp, b, s);
    assert d.localFragments == Sent(a, b).fragments;
    assert d.localCommits == Sent(a, b).commits;
    ImageMinus(fp, Named(a), Named(b), all);
    ImageMinus(fp, a.fragments.Keys, b.fragments.Keys, all);
  }

  lemma NamedParts(t: Tree)
    ensures t.commits.Keys <= Named(t) && t.fragments.Keys <= Named(t) && BoundaryIds(t) <= Named(t)
  {
  }

  lemma ImageMinus(fp: Fingerprint, x: set<CommitId>, y: set<CommitId>, all: set<CommitId>)
    requires CollisionFree(fp, all) && x <= all && y <= all
    ensures Image(fp, x) - Image(fp, y) == Image(fp, x - y)
  {
  }

  ghost function RequestorAfter(d: Digests, a: Tree, b: Tree): Tree {
    MergedTree(d, a, Sent(a, b))
  }

  ghost function ResponderAfter(d: Digests, a: Tree, b: Tree): Tree {
    MergedTree(d, b, Answered(b, a))
  }

  /** The identifiers an echo of fingerprints stands for; unknown fingerprints resolve to nothing. */
  function Resolve(lookup: map<nat, CommitId>, echo: set<nat>): set<CommitId> {
    set f | f in echo && f in lookup :: lookup[f]
  }

  /**
   One round: the requestor `a` sends its summary, the responder `b` sends its
   local-only items and echoes fingerprints, `a` resolves the echo and answers.
   Whatever fingerprints collide, `a` takes in the local part of the diff and `b`
   one item of `a` for each echoed fingerprint that `a` can resolve; without
   collisions these are the items the identifiers call for.
   */
  method SyncRound(d: Digests, fp: Fingerprint, a: Tree, b: Tree) returns (a': Tree, b': Tree, answer: Tree)
    ensures var diff := DiffOf(fp, b, Summarize(fp, a));
            && a' == MergedTree(d, a, Tree(diff.localFragments, diff.localCommits))
            && b' == MergedTree(d, b, answer)
            && AnswersEcho(fp, a.commits, diff.remoteCommits, answer.commits)
            && AnswersEcho(fp, a.fragments, diff.remoteFragments, answer.fragments)
    ensures CollisionFree(fp, Mentioned(a, b)) ==> a' == RequestorAfter(d, a, b) && b' == ResponderAfter(d, a, b)
  {
    hide Image, CollisionFree, Reach, Named, Summarize, DiffOf, Merged, Withheld, Resolve, AnswersEcho;
    var resolver := FingerprintResolver(fp, a);
    var diff := DiffRemoteFingerprints(fp, b, resolver.summary);
    a' := MergedTree(d, a, Tree(diff.localFragments, diff.localCommits));
    var commits := Restrict(a.commits, Resolve(resolver.commitIds, diff.remoteCommits));
    var fragments := Restrict(a.fragments, Resolve(resolver.fragmentIds, diff.remoteFragments));
    answer := Tree(fragments, commits);
    b' := MergedTree(d, b, answer);
    ResolvedAnswers(fp, a.commits, diff.remoteCommits, resolver.commitIds);
    ResolvedAnswers(fp, a.fragments, diff.remoteFragments, resolver.fragmentIds);
    if CollisionFree(fp, Mentioned(a, b)) {
      DiffByIds(fp, a, b);
      AnswerByIds(fp, a, b, resolver.commitIds, resolver.fragmentIds, answer);
    }
  }

  /** The answer is part of `m`: for each echoed fingerprint that some key of `m` has, one such entry. */
  ghost predicate AnswersEcho<V>(fp: Fingerprint, m: map<CommitId, V>, echo: set<nat>, answer: map<CommitId, V>) {
    && (forall k :: k in answer ==> k in m && answer[k] == m[k])
    && Image(fp, answer.Keys) == echo * Image(fp, m.Keys)
    && CollisionFree(fp, answer.Keys)
  }

  /** Entry by entry: an echoed fingerprint is answered if some key has it, once, and no other is. */
  lemma AnsweredOnce<V>(fp: Fingerprint, m: map<CommitId, V>, echo: set<nat>, answer: map<CommitId, V>, k: CommitId)
    requires AnswersEcho(fp, m, echo, answer)
    ensures k in answer ==> k in m && answer[k] == m[k] && fp(k) in echo
    ensures k in m && fp(k) in echo ==> exists x :: x in answer && fp(x) == fp(k)
    ensures k in answer ==> forall x :: x in answer && fp(x) == fp(k) ==> x == k
  {
    if k in m && fp(k) in echo {
      assert fp(k) in Image(fp, m.Keys);
      assert fp(k) in Image(fp, answer.Keys);
      var x :| x in answer.Keys && fp(x) == fp(k);
    }
    if k in answer {
      assert fp(k) in Image(fp, answer.Keys);
    }
  }

  lemma ResolvedAnswers<V>(fp: Fingerprint, m: map<CommitId, V>, echo: set<nat>, lookup: map<nat, CommitId>)
    requires lookup.Keys == Image(fp, m.Keys)
    requires forall f :: f in lookup ==> lookup[f] in m && fp(lookup[f]) == f
    ensures AnswersEcho(fp, m, echo, Restrict(m, Resolve(lookup, echo)))
  {
    var answer := Restrict(m, Resolve(lookup, echo));
    forall f | f in echo && f in lookup ensures f in Image(fp, answer.Keys) {
      assert lookup[f] in answer && fp(lookup[f]) == f;
    }
  }

  lemma AnswerByIds(fp: Fingerprint, a: Tree, b: Tree, commitIds: map<nat, CommitId>, fragmentIds: map<nat, CommitId>,
                    answer: Tree)
    requires CollisionFree(fp, Mentioned(a, b))
    requires commitIds.Keys == Image(fp, a.commits.Keys) && fragmentIds.Keys == Image(fp, a.fragments.Keys)
    requires forall f :: f in commitIds ==> commitIds[f] in a.commits && fp(commitIds[f]) == f
    requires forall f :: f in fragmentIds ==> fragmentIds[f] in a.fragments && fp(fragmentIds[f]) == f
    requires answer.commits == Restrict(a.commits, Resolve(commitIds, Image(fp, Named(a) - Named(b))))
    requires answer.fragments ==
             Restrict(a.fragments, Resolve(fragmentIds, Image(fp, a.fragments.Keys - b.fragments.Keys)))
    ensures answer == Answered(b, a)
  {
    hide Image, CollisionFree, Named, Resolve;
    NamedParts(a);
    NamedParts(b);
    Resolved(fp, Mentioned(a, b), Named(a) - Named(b), commitIds, a.commits.Keys);
    Resolved(fp, Mentioned(a, b), a.fragments.Keys - b.fragments.Keys, fragmentIds, a.fragments.Keys);
    assert answer.commits == Answered(b, a).commits;
    assert answer.fragments == Answered(b, a).fragments;
  }

  /** Echoed fingerprints resolve to the items they came from. */
  lemma Resolved(fp: Fingerprint, all: set<CommitId>, echoed: set<CommitId>, lookup: map<nat, CommitId>,
                 ids: set<CommitId>)
    requires CollisionFree(fp, all) && echoed <= all && ids <= all
    requires lookup.Keys == Image(fp, ids)
    requires forall f :: f in lookup ==> lookup[f] in ids && fp(lookup[f]) == f
    ensures Resolve(lookup, Image(fp, echoed)) == ids * echoed
  {
    var found := Resolve(lookup, Image(fp, echoed));
    forall x | x in ids * echoed ensures x in found {
      assert fp(x) in Image(fp, echoed) && fp(x) in lookup;
      assert lookup[fp(x)] == x;
    }
  }
}
