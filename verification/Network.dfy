/**
 Many peers over one history: every run of exchanges, merges, minimizations, new
 commits and new fragments behaves as plain gossip of the payloads held.
 */
module Network {
  import opened Graph
  import opened Ids
  import opened Walk
  import opened Strata
  import opened Trees
  import opened Simplify
  import opened Minimize
  import opened Sync
  import opened Convergence
  import opened Payloads

  datatype Step =
    | Exchange(i: nat, j: nat)         // `i` runs one round with `j`
    | Absorb(i: nat, j: nat)           // `i` merges the tree of `j` into its own
    | Tidy(i: nat)                     // `i` minimizes its tree
    | Author(i: nat, c: LooseCommit)   // `i` adds a commit of the history
    | Compact(i: nat, built: Peer)     // `i` adds fragments of the history, if it has the commits to cut them from

  /** The step names peers that exist, and adds only what is in the history. */
  ghost predicate Enabled(store: Store, depth: Depth, rank: CommitId -> nat, n: nat, s: Step) {
    match s
    case Exchange(i, j) => i < n && j < n && i != j
    case Absorb(i, j) => i < n && j < n
    case Tidy(i) => i < n
    case Author(i, c) => i < n && c.head in store && c.parents == store[c.head]
    case Compact(i, built) => i < n && Carries(store, built) && Stocked(store, depth, rank, built.known)
  }

  /** The peer holds everything that went into the fragments, and their boundaries. */
  ghost predicate HasAll(p: Peer, built: Peer) {
    Payload(built) + BoundaryIds(built.tree) <= Payload(p)
  }

  ghost function After(d: Digests, depth: Depth, peers: seq<Peer>, s: Step): (r: seq<Peer>)
    requires s.i < |peers| && (s.Exchange? || s.Absorb? ==> s.j < |peers|)
    ensures |r| == |peers|
  {
    match s
    case Exchange(i, j) =>
      peers[i := RequestorPeer(d, peers[i], peers[j])][j := ResponderPeer(d, peers[i], peers[j])]
    case Absorb(i, j) => peers[i := MergedPeer(d, peers[i], peers[j])]
    case Tidy(i) => peers[i := TidiedPeer(peers[i], depth)]
    case Author(i, c) => peers[i := peers[i].(tree := WithCommit(d, peers[i].tree, c))]
    case Compact(i, built) => if HasAll(peers[i], built) then peers[i := MergedPeer(d, peers[i], built)] else peers
  }

  /** A peer with all that the fragments were cut from takes them in; one without changes nothing. */
  lemma CompactAdds(d: Digests, depth: Depth, peers: seq<Peer>, i: nat, built: Peer)
    requires i < |peers|
    ensures var after := After(d, depth, peers, Compact(i, built));
            && (Payload(built) + BoundaryIds(built.tree) <= Payload(peers[i]) ==>
                  peers[i].tree.fragments.Keys + built.tree.fragments.Keys == after[i].tree.fragments.Keys)
            && (!(Payload(built) + BoundaryIds(built.tree) <= Payload(peers[i])) ==> after == peers)
            && forall j :: 0 <= j < |peers| && j != i ==> after[j] == peers[j]
  {
  }

  ghost predicate AllEnabled(store: Store, depth: Depth, rank: CommitId -> nat, n: nat, run: seq<Step>) {
    forall k :: 0 <= k < |run| ==> Enabled(store, depth, rank, n, run[k])
  }

  ghost function AfterRun(store: Store, d: Digests, depth: Depth, rank: CommitId -> nat, peers: seq<Peer>,
                          run: seq<Step>): (r: seq<Peer>)
    requires AllEnabled(store, depth, rank, |peers|, run)
    ensures |r| == |peers|
  {
    if run == [] then peers
    else
      var last := |run| - 1;
      assert Enabled(store, depth, rank, |peers|, run[last]);
      After(d, depth, AfterRun(store, d, depth, rank, peers, run[..last]), run[last])
  }

  // ----- The gossip machine -----

  /** One step on sets of commits. */
  function Gossip(held: seq<set<CommitId>>, s: Step): (r: seq<set<CommitId>>)
    requires s.i < |held| && (s.Exchange? || s.Absorb? ==> s.j < |held|)
    ensures |r| == |held|
  {
    match s
    case Exchange(i, j) => held[i := held[i] + held[j]][j := held[i] + held[j]]
    case Absorb(i, j) => held[i := held[i] + held[j]]
    case Tidy(_) => held
    case Author(i, c) => held[i := held[i] + {c.head}]
    case Compact(_, _) => held
  }

  ghost function GossipRun(store: Store, depth: Depth, rank: CommitId -> nat, held: seq<set<CommitId>>, run: seq<Step>)
    : (r: seq<set<CommitId>>)
    requires AllEnabled(store, depth, rank, |held|, run)
    ensures |r| == |held|
  {
    if run == [] then held
    else
      var last := |run| - 1;
      assert Enabled(store, depth, rank, |held|, run[last]);
      Gossip(GossipRun(store, depth, rank, held, run[..last]), run[last])
  }

  ghost function Holdings(peers: seq<Peer>): (r: seq<set<CommitId>>)
    ensures |r| == |peers|
  {
    seq(|peers|, i requires 0 <= i < |peers| => Payload(peers[i]))
  }

  ghost predicate AllSupplied(store: Store, depth: Depth, rank: CommitId -> nat, peers: seq<Peer>) {
    forall i :: 0 <= i < |peers| ==> Supplied(store, depth, rank, peers[i])
  }

  lemma AuthorSupplies(store: Store, depth: Depth, rank: CommitId -> nat, d: Digests, p: Peer, c: LooseCommit)
    requires Supplied(store, depth, rank, p)
    requires c.head in store && c.parents == store[c.head]
    ensures var q := p.(tree := WithCommit(d, p.tree, c));
            Supplied(store, depth, rank, q) && Payload(q) == Payload(p) + {c.head}
  {
    hide Stocked, MembersOf, Describes;
    var q := p.(tree := WithCommit(d, p.tree, c));
    assert q.tree.fragments == p.tree.fragments && q.tree.commits.Keys == p.tree.commits.Keys + {c.head};
    assert BoundaryIds(q.tree) == BoundaryIds(p.tree);
  }

  /** Packing commits a peer holds into fragments adds nothing to what it holds. */
  lemma CompactSupplies(store: Store, depth: Depth, rank: CommitId -> nat, d: Digests, p: Peer, built: Peer)
    requires Supplied(store, depth, rank, p)
    requires Carries(store, built) && Stocked(store, depth, rank, built.known) && HasAll(p, built)
    ensures Supplied(store, depth, rank, MergedPeer(d, p, built)) && Payload(MergedPeer(d, p, built)) == Payload(p)
  {
    hide Carries, Stocked, Payload, Cover, BoundaryIds, MergedKnown, MergedTree, Mixes;
    MergeCarries(store, d, p, built);
    MixIsStocked(store, depth, rank, p.known, built.known, MergedKnown(d, p, built));
    PayloadIsCover(store, depth, rank, p);
    PayloadIsCover(store, depth, rank, built);
    PayloadIsCover(store, depth, rank, MergedPeer(d, p, built));
    MergeCovers(store, depth, d, p.tree, built.tree);
    BoundaryOfMerge(d, p.tree, built.tree);
  }

  lemma TidyAcyclic(store: Store, depth: Depth, rank: CommitId -> nat, p: Peer)
    requires Ranked(store, rank) && TruncationInjective(store.Keys)
    requires Supplied(store, depth, rank, p)
    ensures Supplied(store, depth, rank, TidiedPeer(p, depth)) && Payload(TidiedPeer(p, depth)) == Payload(p)
  {
    hide Stocked, TruncationInjective, BelowTips, Payload, TidiedPeer, Describes;
    forall x, y | x in p.tree.commits && y in ParentGraph(p.tree.commits)[x] ensures rank(y) < rank(x) {
      assert y in store[x];
    }
    forall c | c in p.tree.commits ensures c in BelowTips(p.tree.commits) {
      BelowSomeTip(p.tree.commits, c, rank);
    }
    TidySupplies(store, depth, rank, p);
  }

  /** Each step keeps every peer supplied and acts on what they hold as gossip does. */
  lemma StepRefines(store: Store, depth: Depth, d: Digests, peers: seq<Peer>, s: Step, rank: CommitId -> nat)
    requires Ranked(store, rank) && TruncationInjective(store.Keys)
    requires AllSupplied(store, depth, rank, peers) && Enabled(store, depth, rank, |peers|, s)
    ensures AllSupplied(store, depth, rank, After(d, depth, peers, s))
    ensures Holdings(After(d, depth, peers, s)) == Gossip(Holdings(peers), s)
  {
    hide Supplied, Payload, RequestorPeer, ResponderPeer, MergedPeer, TidiedPeer;
    hide WithCommit, TruncationInjective, Carries, Stocked, HasAll;
    match s
    case Exchange(i, j) => PayloadsConverge(store, depth, rank, d, peers[i], peers[j]);
    case Absorb(i, j) => MergeSupplies(store, depth, rank, d, peers[i], peers[j]);
    case Tidy(i) => TidyAcyclic(store, depth, rank, peers[i]);
    case Author(i, c) => AuthorSupplies(store, depth, rank, d, peers[i], c);
    case Compact(i, built) =>
      if HasAll(peers[i], built) {
        CompactSupplies(store, depth, rank, d, peers[i], built);
      }
  }

  /** Over every run what the peers hold evolves as the gossip machine. */
  lemma {:induction false} RunRefines(store: Store, depth: Depth, d: Digests, peers: seq<Peer>, run: seq<Step>,
                                      rank: CommitId -> nat)
    requires Ranked(store, rank) && TruncationInjective(store.Keys)
    requires AllSupplied(store, depth, rank, peers) && AllEnabled(store, depth, rank, |peers|, run)
    ensures AllSupplied(store, depth, rank, AfterRun(store, d, depth, rank, peers, run))
    ensures Holdings(AfterRun(store, d, depth, rank, peers, run)) ==
            GossipRun(store, depth, rank, Holdings(peers), run)
  {
    hide AllSupplied, After, Gossip, Holdings, TruncationInjective, Enabled;
    if run != [] {
      var last := |run| - 1;
      RunRefines(store, depth, d, peers, run[..last], rank);
      assert Enabled(store, depth, rank, |peers|, run[last]);
      StepRefines(store, depth, d, AfterRun(store, d, depth, rank, peers, run[..last]), run[last], rank);
    }
  }

  // ----- Who ends up knowing what -----

  /** After one more step, who has heard what those in `h` had to tell. */
  function Hearing(h: set<nat>, s: Step): set<nat> {
    if s.Exchange? && (s.i in h || s.j in h) then h + {s.i, s.j}
    else if s.Absorb? && s.j in h then h + {s.i}
    else h
  }

  /** The peers that have heard, directly or through others, from `k`. */
  function HeardFrom(run: seq<Step>, k: nat): set<nat> {
    if run == [] then {k} else Hearing(HeardFrom(run[..|run| - 1], k), run[|run| - 1])
  }

  /** `x` was known at the start to a peer that `j` heard from. */
  ghost predicate FromStart(known: seq<set<CommitId>>, run: seq<Step>, j: nat, x: CommitId) {
    exists k :: 0 <= k < |known| && x in known[k] && j in HeardFrom(run, k)
  }

  /** `x` was authored during the run, at a peer that `j` has heard from since. */
  ghost predicate Authored(run: seq<Step>, j: nat, x: CommitId) {
    exists m: nat :: AuthoredAt(run, m, j, x)
  }

  ghost predicate AuthoredAt(run: seq<Step>, m: nat, j: nat, x: CommitId) {
    AuthorsAt(run, m, x) && j in HeardFrom(run[m + 1..], run[m].i)
  }

  predicate AuthorsAt(run: seq<Step>, m: nat, x: CommitId) {
    m < |run| && run[m].Author? && run[m].c.head == x
  }

  /** The step brings `j` what the two peers of the step have. */
  predicate Listens(s: Step, j: nat) {
    (s.Exchange? && (s.i == j || s.j == j)) || (s.Absorb? && s.i == j)
  }

  lemma HeardLater(run: seq<Step>, s: Step, k: nat)
    ensures HeardFrom(run + [s], k) == Hearing(HeardFrom(run, k), s)
  {
    assert (run + [s])[..|run|] == run;
  }

  /** One more step: heard before, or brought by this step. */
  lemma AuthoredAtLater(run: seq<Step>, s: Step, m: nat, j: nat, x: CommitId)
    requires m < |run|
    ensures AuthoredAt(run + [s], m, j, x) <==>
            AuthoredAt(run, m, j, x) || (Listens(s, j) && (AuthoredAt(run, m, s.i, x) || AuthoredAt(run, m, s.j, x)))
  {
    hide HeardFrom;
    assert (run + [s])[m + 1..] == run[m + 1..] + [s];
    HeardLater(run[m + 1..], s, run[m].i);
  }

  /** Authored before and heard from since, or authored just now. */
  lemma AuthoredLater(run: seq<Step>, s: Step, j: nat, x: CommitId)
    ensures Authored(run + [s], j, x) <==>
            || Authored(run, j, x)
            || (s.Author? && s.c.head == x && s.i == j)
            || (Listens(s, j) && (Authored(run, s.i, x) || Authored(run, s.j, x)))
  {
    var longer, now := run + [s], |run|;
    assert AuthoredAt(longer, now, j, x) <==> s.Author? && s.c.head == x && s.i == j by {
      assert longer[now + 1..] == [];
    }
    hide AuthoredAt, Listens;
    forall m: nat | m < now
      ensures AuthoredAt(longer, m, j, x) <==>
              AuthoredAt(run, m, j, x) || (Listens(s, j) && (AuthoredAt(run, m, s.i, x) || AuthoredAt(run, m, s.j, x)))
    {
      AuthoredAtLater(run, s, m, j, x);
    }
    assert forall m: nat, k :: AuthoredAt(run, m, k, x) ==> m < now by { OnlyWithin(run, x); }
    assert forall m: nat :: AuthoredAt(longer, m, j, x) ==> m <= now by { OnlyWithin(longer, x); }
  }

  lemma OnlyWithin(run: seq<Step>, x: CommitId)
    ensures forall m: nat, k: nat :: AuthoredAt(run, m, k, x) ==> m < |run|
  {
  }

  /** A peer knows at the end exactly what those it heard from knew at the start, or have authored since. */
  lemma {:induction false} KnowsWhatItHeard(store: Store, depth: Depth, rank: CommitId -> nat,
                                            known: seq<set<CommitId>>, run: seq<Step>, j: nat, x: CommitId)
    requires AllEnabled(store, depth, rank, |known|, run)
    requires j < |known|
    ensures x in GossipRun(store, depth, rank, known, run)[j] <==> FromStart(known, run, j, x) || Authored(run, j, x)
  {
    hide Authored, Carries, Stocked;
    if run == [] {
      NothingAuthored(j, x);
      assert forall k: nat :: HeardFrom(run, k) == {k};
    } else {
      var last := |run| - 1;
      var before, s := run[..last], run[last];
      assert run == before + [s];
      assert Enabled(store, depth, rank, |known|, s);
      AuthoredLater(before, s, j, x);
      KnowsWhatItHeard(store, depth, rank, known, before, j, x);
      if Listens(s, j) {
        KnowsWhatItHeard(store, depth, rank, known, before, s.i, x);
        KnowsWhatItHeard(store, depth, rank, known, before, s.j, x);
      }
    }
  }

  lemma NothingAuthored(j: nat, x: CommitId)
    ensures !Authored([], j, x)
  {
  }

  /**
   Any run in which a peer hears from every other, and again after each commit
   another authors, ends with it holding all that was held and authored; with
   minimizations and new fragments anywhere in between.
   */
  lemma GossipConverges(store: Store, depth: Depth, d: Digests, peers: seq<Peer>, run: seq<Step>,
                        rank: CommitId -> nat, j: nat)
    requires Ranked(store, rank) && TruncationInjective(store.Keys)
    requires AllSupplied(store, depth, rank, peers) && AllEnabled(store, depth, rank, |peers|, run)
    requires j < |peers| && forall k :: 0 <= k < |peers| ==> j in HeardFrom(run, k)
    requires forall m :: 0 <= m < |run| && run[m].Author? ==> j in HeardFrom(run[m + 1..], run[m].i)
    ensures forall x :: x in Payload(AfterRun(store, d, depth, rank, peers, run)[j]) <==>
              || (exists k :: 0 <= k < |peers| && x in Payload(peers[k]))
              || (exists m: nat :: AuthorsAt(run, m, x))
  {
    hide AllSupplied, Payload, TruncationInjective, HeardFrom, Enabled, GossipRun, AfterRun;
    RunRefines(store, depth, d, peers, run, rank);
    var known, after := Holdings(peers), AfterRun(store, d, depth, rank, peers, run);
    assert Holdings(after)[j] == Payload(after[j]);
    forall x ensures x in Payload(after[j]) <==>
                       || (exists k :: 0 <= k < |peers| && x in Payload(peers[k]))
                       || (exists m: nat :: AuthorsAt(run, m, x))
    {
      KnowsWhatItHeard(store, depth, rank, known, run, j, x);
      if k :| 0 <= k < |peers| && x in Payload(peers[k]) {
        assert x in known[k];
      }
      if FromStart(known, run, j, x) {
        var k :| 0 <= k < |known| && x in known[k] && j in HeardFrom(run, k);
        assert x in Payload(peers[k]);
      }
      if m: nat :| AuthorsAt(run, m, x) {
        assert AuthoredAt(run, m, j, x);
      }
      if Authored(run, j, x) {
        var m: nat :| AuthoredAt(run, m, j, x);
        assert AuthorsAt(run, m, x);
      }
    }
  }
}
