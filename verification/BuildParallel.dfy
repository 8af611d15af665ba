/**
 The level-parallel driver (`build_fragment_store_par` in
 sedimentree_core/src/commit.rs).

 The tasks of one level read nothing but a snapshot of the known states, so a
 level is a loop over its horizon; a head listed twice is built twice.
 */
module BuildParallel {
  import opened Graph
  import opened Ids
  import opened Walk
  import opened Build

  /** Keep the listed heads that are not known yet. */
  method Unknown(horizon: seq<CommitId>, known: Known) returns (kept: seq<CommitId>)
    ensures forall h :: h in kept <==> h in horizon && h !in known
    ensures |kept| <= |horizon|
  {
    kept := [];
    for i := 0 to |horizon|
      invariant |kept| <= i
      invariant forall h :: h in kept <==> h in horizon[..i] && h !in known
    {
      if horizon[i] !in known {
        kept := kept + [horizon[i]];
      }
    }
    assert horizon[..|horizon|] == horizon;
  }

  /**
   Replace the loose commits of a horizon by the fragment heads behind them.
   `all` is any set closed under the parents of loose commits; `loose` collects
   the loose commits walked past.
   */
  method PastLoose(store: Store, depth: Depth, horizon0: seq<CommitId>, known: Known, ghost all: set<CommitId>)
    returns (horizon: seq<CommitId>, loose: set<CommitId>)
    requires forall h :: h in horizon0 ==> h in all
    requires forall v, p :: v in all && depth(v) == 0 && p in Next(store, v) ==> p in all
    ensures forall h :: h in horizon ==> h in all && depth(h) > 0
    ensures forall h :: h in horizon0 ==> h in horizon || h in loose
    ensures forall v :: v in loose ==> depth(v) == 0
    ensures forall v, p :: v in loose && p in Next(store, v) ==> p in known || p in horizon || p in loose
  {
    horizon, loose := [], {};
    var pending := [];
    for i := 0 to |horizon0|
      invariant forall h :: h in horizon ==> h in all && depth(h) > 0
      invariant forall h :: h in horizon0[..i] ==> h in horizon || h in loose
      invariant forall v :: v in loose ==> v in all && depth(v) == 0 && v in pending
      invariant forall v :: v in pending ==> v in loose
    {
      var h := horizon0[i];
      if depth(h) > 0 {
        horizon := horizon + [h];
      } else if h !in loose {
        loose, pending := loose + {h}, pending + [h];
      }
    }
    assert horizon0[..|horizon0|] == horizon0;
    while pending != []
      invariant forall h :: h in horizon ==> h in all && depth(h) > 0
      invariant forall h :: h in horizon0 ==> h in horizon || h in loose
      invariant forall v :: v in loose ==> v in all && depth(v) == 0
      invariant forall v :: v in pending ==> v in loose
      invariant forall v, p :: v in loose && v !in pending && p in Next(store, v) ==>
                  p in known || p in horizon || p in loose
      decreases all - loose, |pending|
    {
      var d := pending[|pending| - 1];
      LastOrBefore(pending);
      pending := pending[..|pending| - 1];
      if d in store {
        var parents := Arrange(store[d]);
        assert d in all && depth(d) == 0;
        forall p | p in parents ensures p in Next(store, d) && p in all {
          assert p in store[d];
        }
        ghost var loose0, pending0 := loose, |pending|;
        for i := 0 to |parents|
          invariant forall h :: h in horizon ==> h in all && depth(h) > 0
          invariant forall h :: h in horizon0 ==> h in horizon || h in loose
          invariant forall v :: v in loose ==> v in all && depth(v) == 0
          invariant forall v :: v in pending ==> v in loose
          invariant forall p :: p in parents[..i] ==> p in known || p in horizon || p in loose
          invariant forall v, p :: v in loose && v !in pending && v != d && p in Next(store, v) ==>
                      p in known || p in horizon || p in loose
          invariant loose0 <= loose && (loose == loose0 ==> |pending| == pending0)
        {
          var p := parents[i];
          if p !in known {
            if depth(p) > 0 {
              horizon := horizon + [p];
            } else if p !in loose {
              loose, pending := loose + {p}, pending + [p];
            }
          }
        }
        assert parents[..|parents|] == parents;
      }
    }
  }

  /** The parallel phase: every head of the level against the same snapshot. */
  method BuildLevel(store: Store, depth: Depth, horizon: seq<CommitId>, snapshot: Known)
    returns (successes: seq<(CommitId, FragmentState)>)
    requires forall h :: h in horizon ==> depth(h) > 0
    ensures forall s :: s in successes ==>
              s.0 in horizon && Complete(store, depth, s.0)
              && s.1 == Stripped(store, depth, s.0, MembersOf(snapshot, Boundary(store, depth, s.0)))
    ensures forall h :: h in horizon && Complete(store, depth, h) ==> exists s :: s in successes && s.0 == h
  {
    hide Complete, Stripped, MembersOf, Boundary;
    successes := [];
    for i := 0 to |horizon|
      invariant forall s :: s in successes ==>
                  s.0 in horizon && Complete(store, depth, s.0)
                  && s.1 == Stripped(store, depth, s.0, MembersOf(snapshot, Boundary(store, depth, s.0)))
      invariant forall h :: h in horizon[..i] && Complete(store, depth, h) ==> exists s :: s in successes && s.0 == h
    {
      var r := CutFragment(store, horizon[i], snapshot, depth);
      if r.Built? {
        ghost var was := successes;
        successes := successes + [(horizon[i], r.state)];
        assert forall s :: s in was ==> s in successes;
        assert (horizon[i], r.state) in successes;
      }
    }
    assert horizon[..|horizon|] == horizon;
  }

  /** The sequential phase: merge a level into the known states, in order. */
  method MergeLevel(successes: seq<(CommitId, FragmentState)>, snapshot: Known, ghost store: Store, ghost depth: Depth)
    returns (known: Known, heads: seq<CommitId>, next: seq<CommitId>)
    requires Sound(store, depth, snapshot)
    requires forall s :: s in successes ==>
               s.0 !in snapshot && depth(s.0) > 0 && Complete(store, depth, s.0)
               && s.1 == Stripped(store, depth, s.0, MembersOf(snapshot, Boundary(store, depth, s.0)))
    ensures Sound(store, depth, known)
    ensures forall h :: h in snapshot ==> h in known && known[h] == snapshot[h]
    ensures forall h :: h in known <==> h in snapshot || h in heads
    ensures forall h :: h in heads <==> exists s :: s in successes && s.0 == h
    ensures forall n :: n in next <==> exists h :: h in heads && n in Boundary(store, depth, h)
    ensures forall h :: h in heads ==> h !in snapshot
    ensures heads == [] ==> next == []
  {
    hide Sound, MembersOf, Boundary, Complete;
    known, heads, next := snapshot, [], [];
    for i := 0 to |successes|
      invariant Sound(store, depth, known)
      invariant forall h :: h in snapshot ==> h in known && known[h] == snapshot[h]
      invariant forall h :: h in known <==> h in snapshot || h in heads
      invariant forall h :: h in heads <==> exists s :: s in successes[..i] && s.0 == h
      invariant forall h :: h in heads ==>
                  && h !in snapshot
                  && known[h] == Stripped(store, depth, h, MembersOf(snapshot, Boundary(store, depth, h)))
      invariant forall n :: n in next <==> exists h :: h in heads && n in Boundary(store, depth, h)
      invariant heads == [] ==> next == []
    {
      var (head, state) := successes[i];
      assert successes[i] in successes && successes[..i + 1] == successes[..i] + [successes[i]];
      FreshIsSound(store, depth, known, snapshot, head, state);
      CompleteBoundary(store, depth, head);
      var more := Arrange(state.boundary.Keys);
      next := next + more;
      heads := heads + [head];
      known := known[head := state];
    }
    assert successes[..|successes|] == successes;
  }

  /** What the parallel driver can discover is closed under its steps. */
  lemma DiscoveredClosed(store: Store, depth: Depth, known: Known, roots: set<CommitId>, pastKnown: bool)
    requires Sound(store, depth, known)
    ensures roots <= Discovered(store, depth, known, roots, pastKnown)
    ensures forall h, n ::
              && h in Discovered(store, depth, known, roots, pastKnown)
              && n in DriverStep(store, depth, known, pastKnown, h)
              ==> n in Discovered(store, depth, known, roots, pastKnown)
    ensures forall k :: k in known ==> depth(k) > 0
  {
    hide Reach, DriverStep, Complete, Raw, BoundaryNodes, AncestorRaw, RawCheckpoints;
    var g := DriverGraph(store, depth, known, pastKnown);
    ReachClosed(g, roots);
    forall h, n | h in Reach(g, roots) && n in DriverStep(store, depth, known, pastKnown, h)
      ensures n in Reach(g, roots)
    {
      DriverNext(store, depth, known, pastKnown, h);
    }
    forall k | k in known ensures depth(k) > 0 {
      assert Between(store, depth, known.Keys, k, known[k]);
    }
  }

  lemma DiscoveredLeast(store: Store, depth: Depth, known: Known, roots: set<CommitId>, pastKnown: bool,
                        s: set<CommitId>)
    requires roots <= s
    requires forall h, n :: h in s && n in DriverStep(store, depth, known, pastKnown, h) ==> n in s
    ensures Discovered(store, depth, known, roots, pastKnown) <= s
  {
    hide Reach, DriverStep, DriverGraph;
    var g := DriverGraph(store, depth, known, pastKnown);
    forall h, n | h in s && n in Next(g, h) ensures n in s {
      DriverNext(store, depth, known, pastKnown, h);
    }
    ReachLeast(g, roots, s);
  }

  /**
   One level: walk past loose commits, build, merge.  `finished` is what the level
   disposes of: loose commits whose parents are accounted for, heads now built, and
   heads with incomplete history.
   */
  method Level(store: Store, depth: Depth, horizon: seq<CommitId>, known0: Known, ghost all: set<CommitId>)
    returns (known: Known, more: seq<CommitId>, next: seq<CommitId>, ghost finished: set<CommitId>)
    requires Sound(store, depth, known0)
    requires forall h :: h in horizon ==> h in all
    requires forall v, p :: v in all && depth(v) == 0 && p in Next(store, v) ==> p in all
    ensures Sound(store, depth, known)
    ensures forall h :: h in known0 ==> h in known && known[h] == known0[h]
    ensures forall h :: h in known <==> h in known0 || h in more
    ensures forall h :: h in horizon ==> h in known0 || h in finished
    ensures forall h :: h in more ==>
              h in finished && h in all && h !in known0 && depth(h) > 0 && Complete(store, depth, h)
    ensures forall h :: h in finished && depth(h) > 0 ==> h !in known0 && (Complete(store, depth, h) ==> h in more)
    ensures forall h, p :: h in finished && depth(h) == 0 && p in Next(store, h) ==> p in known0 || p in finished
    ensures forall n :: n in next <==> exists h :: h in more && n in Boundary(store, depth, h)
    ensures more == [] ==> next == []
  {
    hide Sound, Complete, Boundary, Stripped, MembersOf;
    var unknown := Unknown(horizon, known0);
    var level, loose := PastLoose(store, depth, unknown, known0, all);
    level := Unknown(level, known0);
    finished := loose + (set h | h in level);
    var successes := BuildLevel(store, depth, level, known0);
    known, more, next := MergeLevel(successes, known0, store, depth);
  }

  /**
   Where the level loop stands: `keys` are known, `done` is what the driver has
   finished with and `front` is its horizon.  What is done is closed up to the
   horizon and holds no buildable head that is not known.
   */
  ghost predicate Standing(store: Store, depth: Depth, known0: Known, roots: set<CommitId>,
                           keys: set<CommitId>, done: set<CommitId>, front: set<CommitId>)
  {
    && known0.Keys <= keys <= done
    && keys - known0.Keys <= FreshHeads(store, depth, known0, roots, false)
    && roots <= done + front
    && front <= Discovered(store, depth, known0, roots, false)
    && (forall h, n :: h in done && n in DriverStep(store, depth, known0, false, h) ==> n in done + front)
    && (forall h :: h in done && Buildable(store, depth, known0, h) ==> h in keys)
  }

  lemma StandingAfterLevel(store: Store, depth: Depth, known0: Known, roots: set<CommitId>,
                           keys: set<CommitId>, done: set<CommitId>, front: set<CommitId>,
                           more: set<CommitId>, next: set<CommitId>, finished: set<CommitId>)
    requires Sound(store, depth, known0)
    requires Standing(store, depth, known0, roots, keys, done, front)
    requires front <= keys + finished
    requires forall h :: h in more ==> h in finished && h in Discovered(store, depth, known0, roots, false)
                                       && h !in keys && depth(h) > 0 && Complete(store, depth, h)
    requires forall h :: h in finished && depth(h) > 0 ==> h !in keys && (Complete(store, depth, h) ==> h in more)
    requires forall h, p :: h in finished && depth(h) == 0 && p in Next(store, h) ==> p in keys + finished
    requires forall n :: n in next <==> exists h :: h in more && n in Boundary(store, depth, h)
    ensures Standing(store, depth, known0, roots, keys + more, done + finished, next)
  {
    hide Sound, Discovered, Complete, Boundary;
    DiscoveredClosed(store, depth, known0, roots, false);
    forall n | n in next ensures n in Discovered(store, depth, known0, roots, false) {
      var h :| h in more && n in Boundary(store, depth, h);
      assert n in DriverStep(store, depth, known0, false, h);
    }
    forall h, n | h in done + finished && n in DriverStep(store, depth, known0, false, h)
      ensures n in done + finished + next
    {
      if h in done {
        assert n in done + front;
      } else if depth(h) > 0 {
        assert h in more && n in Boundary(store, depth, h);
      } else {
        assert n in Next(store, h);
        assert n in keys + finished;
      }
    }
  }

  /** The level loop: whatever the duplicates, it finds the heads the driver can reach. */
  method DiscoverPar(store: Store, heads: seq<CommitId>, known0: Known, depth: Depth)
    returns (known: Known, created: seq<CommitId>)
    requires Sound(store, depth, known0)
    ensures Sound(store, depth, known)
    ensures forall h :: h in created <==> h in FreshHeads(store, depth, known0, set x | x in heads, false)
    ensures forall h :: h in known <==> h in known0 || h in created
    ensures forall h :: h in known0 ==> known[h] == known0[h] && h !in created
  {
    hide Sound, Discovered, Complete, Boundary, DriverStep;
    ghost var roots := set x | x in heads;
    ghost var all := Discovered(store, depth, known0, roots, false);
    ghost var target := FreshHeads(store, depth, known0, roots, false);
    ghost var done, front := known0.Keys, roots;
    Start(store, depth, known0, roots);

    known, created := known0, [];
    var horizon := heads;
    while horizon != []
      invariant Sound(store, depth, known)
      invariant forall h :: h in known0 ==> h in known && known[h] == known0[h]
      invariant forall h :: h in known <==> h in known0 || h in created
      invariant forall h :: h in created ==> h !in known0
      invariant Standing(store, depth, known0, roots, known.Keys, done, front)
      invariant forall h :: h in horizon <==> h in front
      decreases target - known.Keys, |horizon|
    {
      ghost var keys, finished := known.Keys, {};
      var more;
      known, more, horizon, finished := Level(store, depth, horizon, known, all);
      ghost var moreSet, next := (set h | h in more), (set h | h in horizon);
      StandingAfterLevel(store, depth, known0, roots, keys, done, front, moreSet, next, finished);
      assert known.Keys == keys + moreSet;
      created, done, front := created + more, done + finished, next;
      if more != [] {
        assert more[0] in target - keys;
      }
    }
    DiscoveredLeast(store, depth, known0, roots, false, done);
  }

  lemma Start(store: Store, depth: Depth, known0: Known, roots: set<CommitId>)
    requires Sound(store, depth, known0)
    ensures Standing(store, depth, known0, roots, known0.Keys, known0.Keys, roots)
    ensures forall v, p :: v in Discovered(store, depth, known0, roots, false) && depth(v) == 0 && p in Next(store, v)
              ==> p in Discovered(store, depth, known0, roots, false)
  {
    hide Sound, Discovered, Complete, Boundary;
    DiscoveredClosed(store, depth, known0, roots, false);
    forall v, p | v in Discovered(store, depth, known0, roots, false) && depth(v) == 0 && p in Next(store, v)
      ensures p in Discovered(store, depth, known0, roots, false)
    {
      assert p in DriverStep(store, depth, known0, false, v);
    }
  }

  /**
   The parallel build, in the same terms as the sequential one: it differs only
   in not looking past fragments that were known before it started.
   */
  method BuildFragmentStorePar(store: Store, heads: seq<CommitId>, known0: Known, depth: Depth)
    returns (known: Known, created: seq<FragmentState>)
    requires Sound(store, depth, known0)
    ensures Sound(store, depth, known)
    ensures known.Keys == known0.Keys + FreshHeads(store, depth, known0, set x | x in heads, false)
    ensures forall h :: h in known0 ==> known[h] == known0[h]
    ensures forall h :: h in known && h !in known0 && Settles(store, depth, known.Keys, h) ==>
              known[h] == Canonical(store, depth, known.Keys, h)
    ensures forall h :: h in known ==> known[h].headId == h
    ensures forall h :: h in known ==>
              known[h].checkpoints == set m | m in known[h].members && m != h && depth(m) > 0
    ensures forall s :: s in created <==> exists h :: h in known && h !in known0 && s == known[h]
  {
    hide Sound, Canonical, FreshHeads, Settles;
    var allHeads;
    known, allHeads := DiscoverPar(store, heads, known0, depth);
    known := StripAncestors(known, allHeads, store, depth);
    SoundStates(store, depth, known);
    created := seq(|allHeads|, i requires 0 <= i < |allHeads| => known[allHeads[i]]);
    forall s ensures s in created <==> exists h :: h in known && h !in known0 && s == known[h] {
      if h :| h in known && h !in known0 && s == known[h] {
        var i :| 0 <= i < |allHeads| && allHeads[i] == h;
        assert created[i] == s;
      }
    }
  }
}
