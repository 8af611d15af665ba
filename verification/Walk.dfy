/**
 Cutting one fragment out of a commit history
 (`CommitStore::fragment` in sedimentree_core/src/commit.rs).
 */
module Walk {
  import opened Graph
  import opened Ids

  /** A commit store: each present commit with its set of parents. */
  type Store = map<CommitId, set<CommitId>>

  /** The history seen by a walk that refuses commits of depth `bound` or more. */
  ghost function Shallower(store: Store, depth: Depth, bound: nat): map<CommitId, set<CommitId>> {
    map x | x in store :: set p | p in store[x] && depth(p) < bound
  }

  /** The members of the fragment headed by `head`, before any stripping. */
  ghost function Raw(store: Store, depth: Depth, head: CommitId): set<CommitId> {
    Reach(Shallower(store, depth, depth(head)), {head})
  }

  /** The commits that stop the walk from `head`. */
  ghost function Boundary(store: Store, depth: Depth, head: CommitId): set<CommitId> {
    set m, p | m in Raw(store, depth, head) && m in store && p in store[m]
      && depth(p) >= depth(head) && p != head :: p
  }

  /** Non-head members that could head a shallower fragment themselves. */
  ghost function RawCheckpoints(store: Store, depth: Depth, head: CommitId): set<CommitId> {
    set m | m in Raw(store, depth, head) && m != head && depth(m) > 0
  }

  /** Everything the walk looks up is present. */
  ghost predicate Complete(store: Store, depth: Depth, head: CommitId) {
    Raw(store, depth, head) + Boundary(store, depth, head) <= store.Keys
  }

  datatype FragmentState = FragmentState(
    headId: CommitId,
    members: set<CommitId>,
    checkpoints: set<CommitId>,
    boundary: map<CommitId, set<CommitId>>)

  type Known = map<CommitId, FragmentState>

  datatype FragmentError = MissingCommit(id: CommitId) | DepthZeroHead(id: CommitId)

  datatype FragmentResult = Built(state: FragmentState) | Failed(error: FragmentError)

  /** The members of those fragments of `known` that are headed by one of `heads`. */
  ghost function MembersOf(known: Known, heads: set<CommitId>): set<CommitId> {
    set b, m | b in heads && b in known && m in known[b].members :: m
  }

  ghost function BoundaryNodes(store: Store, depth: Depth, head: CommitId): map<CommitId, set<CommitId>> {
    map b | b in Boundary(store, depth, head) && b in store :: store[b]
  }

  /** The walk from `head` with the commits `gone` taken out of members and checkpoints. */
  ghost function Stripped(store: Store, depth: Depth, head: CommitId, gone: set<CommitId>): FragmentState {
    FragmentState(head,
                  Raw(store, depth, head) - gone,
                  RawCheckpoints(store, depth, head) - gone,
                  BoundaryNodes(store, depth, head))
  }

  // What is known of `Raw` without unfolding reachability.

  lemma RawClosed(store: Store, depth: Depth, head: CommitId)
    ensures head in Raw(store, depth, head)
    ensures forall m, p :: m in Raw(store, depth, head) && m in store && p in store[m] && depth(p) < depth(head)
              ==> p in Raw(store, depth, head)
  {
    var g := Shallower(store, depth, depth(head));
    ReachClosed(g, {head});
    forall m, p | m in Raw(store, depth, head) && m in store && p in store[m] && depth(p) < depth(head)
      ensures p in Raw(store, depth, head)
    {
      assert p in Next(g, m);
    }
  }

  lemma RawLeast(store: Store, depth: Depth, head: CommitId, s: set<CommitId>)
    requires head in s
    requires forall m, p :: m in s && m in store && p in store[m] && depth(p) < depth(head) ==> p in s
    ensures Raw(store, depth, head) <= s
  {
    ReachLeast(Shallower(store, depth, depth(head)), {head}, s);
  }

  /** Every member other than the head is strictly shallower than the head. */
  lemma RawShallower(store: Store, depth: Depth, head: CommitId)
    ensures forall m :: m in Raw(store, depth, head) && m != head ==> depth(m) < depth(head)
  {
    RawClosed(store, depth, head);
    var s := set m | m in Raw(store, depth, head) && (m == head || depth(m) < depth(head));
    RawLeast(store, depth, head, s);
  }

  /** A parent of a member is a member, the head itself, or a boundary commit. */
  lemma RawParents(store: Store, depth: Depth, head: CommitId, m: CommitId, p: CommitId)
    requires m in Raw(store, depth, head) && m in store && p in store[m]
    ensures p in Raw(store, depth, head) + Boundary(store, depth, head)
  {
    RawClosed(store, depth, head);
  }

  /** In an acyclic history members never outrank the head, and boundary commits rank below it. */
  lemma RawRanked(store: Store, depth: Depth, head: CommitId, rank: CommitId -> nat)
    requires Ranked(store, rank)
    ensures forall m :: m in Raw(store, depth, head) ==> rank(m) <= rank(head)
    ensures forall b :: b in Boundary(store, depth, head) ==> rank(b) < rank(head)
  {
    RawClosed(store, depth, head);
    var s := set m | m in Raw(store, depth, head) && rank(m) <= rank(head);
    RawLeast(store, depth, head, s);
  }

  lemma CompleteBoundary(store: Store, depth: Depth, head: CommitId)
    requires Complete(store, depth, head)
    ensures BoundaryNodes(store, depth, head).Keys == Boundary(store, depth, head)
  {
    hide Raw, Boundary;
  }

  /** The two ways the search below ends. */
  datatype Gathered =
    | Absent(id: CommitId)
    | Found(members: set<CommitId>, checkpoints: set<CommitId>, boundary: map<CommitId, set<CommitId>>)

  /**
   The search loop of the walk, on any set `raw` of shallower commits and any set
   `bound` of stopping commits that together hold every parent it can meet.
   */
  method Gather(store: Store, head: CommitId, depth: Depth, ghost raw: set<CommitId>, ghost bound: set<CommitId>)
    returns (g: Gathered)
    requires head in raw
    requires forall p :: p in raw && p != head ==> depth(p) < depth(head)
    requires forall p :: p in bound ==> depth(p) >= depth(head) && p != head
    requires forall m, p :: m in raw && m in store && p in store[m] ==> p in raw + bound
    ensures g.Absent? ==> g.id in raw + bound && g.id !in store
    ensures g.Found? ==>
              && head in g.members && g.members <= raw && g.boundary.Keys <= bound
              && g.members + g.boundary.Keys <= store.Keys
              && (forall m, p :: m in g.members && p in store[m] ==> p in g.members + g.boundary.Keys)
              && (forall b :: b in g.boundary ==> g.boundary[b] == store[b])
              && g.checkpoints == set m | m in g.members && m != head && depth(m) > 0
  {
    var visited, members, checkpoints := {head}, {head}, {};
    var boundary: map<CommitId, set<CommitId>> := map[];
    if head !in store {
      return Absent(head);
    }
    var queue := Arrange(store[head]);
    while queue != []
      invariant visited == members + boundary.Keys && head in members
      invariant members <= raw && boundary.Keys <= bound
      invariant visited <= store.Keys
      invariant forall q :: q in queue ==> q in raw + bound
      invariant forall m, p :: m in members && p in store[m] ==> p in visited || p in queue
      invariant forall b :: b in boundary ==> boundary[b] == store[b]
      invariant checkpoints == set m | m in members && m != head && depth(m) > 0
      decreases raw + bound - visited, |queue|
    {
      var id := queue[|queue| - 1];
      LastOrBefore(queue);
      queue := queue[..|queue| - 1];
      if id in visited {
        continue;
      }
      if id !in store {
        return Absent(id);
      }
      visited := visited + {id};
      if depth(id) >= depth(head) {
        boundary := boundary[id := store[id]];
      } else {
        members := members + {id};
        if depth(id) > 0 {
          checkpoints := checkpoints + {id};
        }
        var more := Arrange(store[id] - visited);
        queue := queue + more;
      }
    }
    return Found(members, checkpoints, boundary);
  }

  /**
   The worklist walk.  On every finite store, cyclic or not, and for every order
   in which parents are queued, it returns the closure of the head through
   shallower commits, less what the known fragments on its boundary hold; it
   reports a missing commit exactly when the closure or its boundary is incomplete.
   */
  method CutFragment(store: Store, head: CommitId, known: Known, depth: Depth) returns (r: FragmentResult)
    ensures depth(head) == 0 ==> r == Failed(DepthZeroHead(head))
    ensures depth(head) > 0 ==> (r.Built? <==> Complete(store, depth, head))
    ensures depth(head) > 0 && r.Failed? ==>
              r.error.MissingCommit? && r.error.id !in store
              && r.error.id in Raw(store, depth, head) + Boundary(store, depth, head)
    ensures r.Built? ==> r.state == Stripped(store, depth, head, MembersOf(known, Boundary(store, depth, head)))
    ensures r.Built? ==> r.state.headId == head
    ensures r.Built? ==> forall m :: m in r.state.members <==>
              m in Raw(store, depth, head) && forall b :: b in r.state.boundary && b in known ==> m !in known[b].members
    ensures r.Built? ==> r.state.checkpoints == set m | m in r.state.members && m != head && depth(m) > 0
    ensures r.Built? ==> forall b :: b in r.state.boundary <==>
              && depth(b) >= depth(head) && b != head
              && exists m :: m in Raw(store, depth, head) && m in store && b in store[m]
    ensures r.Built? ==> forall b :: b in r.state.boundary ==> b in store && r.state.boundary[b] == store[b]
  {
    if depth(head) == 0 {
      return Failed(DepthZeroHead(head));
    }
    ghost var raw, bound := Raw(store, depth, head), Boundary(store, depth, head);
    RawClosed(store, depth, head);
    RawShallower(store, depth, head);
    var g := Gather(store, head, depth, raw, bound);
    if g.Absent? {
      return Failed(MissingCommit(g.id));
    }
    RawLeast(store, depth, head, g.members);
    assert g.boundary.Keys == bound;
    assert g.boundary == BoundaryNodes(store, depth, head);
    var members, checkpoints := StripKnown(g.members, g.checkpoints, g.boundary.Keys, known);
    return Built(FragmentState(head, members, checkpoints, g.boundary));
  }

  /** Remove from a fresh walk what the known fragments on its boundary already hold. */
  method StripKnown(members: set<CommitId>, checkpoints: set<CommitId>, boundary: set<CommitId>, known: Known)
    returns (members': set<CommitId>, checkpoints': set<CommitId>)
    ensures members' == members - MembersOf(known, boundary)
    ensures checkpoints' == checkpoints - MembersOf(known, boundary)
  {
    members', checkpoints' := members, checkpoints;
    var keys := Arrange(boundary);
    ghost var done := {};
    for i := 0 to |keys|
      invariant forall b :: b in done <==> b in keys[..i]
      invariant members' == members - MembersOf(known, done)
      invariant checkpoints' == checkpoints - MembersOf(known, done)
    {
      var b := keys[i];
      if b in known {
        members' := members' - known[b].members;
        checkpoints' := checkpoints' - known[b].members;
      }
      done := done + {b};
    }
    assert done == boundary;
  }
}
