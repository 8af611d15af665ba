/** Two stores with cycles among their fragments, and what the post-pass makes of them. */
module Cycles {
  import opened Graph
  import opened Ids
  import opened Walk
  import opened Build
  import opened Agreement
  import opened Coverage

  // Two commits of equal depth that are each other's parent.

  function Ring(h: CommitId, g: CommitId): Store { map[h := {g}, g := {h}] }

  function RingStates(h: CommitId, g: CommitId): Known {
    map[h := FragmentState(h, {h}, {}, map[g := {h}]), g := FragmentState(g, {g}, {}, map[h := {g}])]
  }

  lemma RingWalk(h: CommitId, g: CommitId)
    requires h != g
    ensures Raw(Ring(h, g), FLAT, h) == {h} && Boundary(Ring(h, g), FLAT, h) == {g}
  {
    hide Raw;
    RawClosed(Ring(h, g), FLAT, h);
    RawLeast(Ring(h, g), FLAT, h, {h});
    assert h in Raw(Ring(h, g), FLAT, h) && h in Ring(h, g) && g in Ring(h, g)[h] && FLAT(g) >= FLAT(h);
    assert g in Boundary(Ring(h, g), FLAT, h);
  }

  lemma RingSound(h: CommitId, g: CommitId)
    requires h != g
    ensures Sound(Ring(h, g), FLAT, RingStates(h, g))
  {
    hide Raw, Boundary, AncestorRaw;
    assert Ring(g, h) == Ring(h, g);
    RingWalk(h, g);
    RingWalk(g, h);
    var store, known := Ring(h, g), RingStates(h, g);
    assert Between(store, FLAT, known.Keys, h, known[h]) && Between(store, FLAT, known.Keys, g, known[g]);
  }

  /** Each fragment of a ring counts the other, and itself, among its ancestors; the post-pass empties both. */
  lemma CycleVanishes(h: CommitId, g: CommitId)
    requires h != g
    ensures var whole := RingStates(h, g);
            && Sound(Ring(h, g), FLAT, whole)
            && MembersOf(whole, {h, g}) == {h, g}
            && MembersOf(Stripping(Stripping(whole, h), g), {h, g}) == {}
  {
    hide Sound;
    RingSound(h, g);
    var whole := RingStates(h, g);
    EmptiesItself(whole, h, g);
    var first := Stripping(whole, h);
    assert first[h].boundary == whole[h].boundary && first[g] == whole[g];
    EmptiesItself(first, g, h);
  }

  lemma EmptiesItself(known: Known, h: CommitId, g: CommitId)
    requires h in known && g in known && g in known[h].boundary && h in known[g].boundary
    ensures Stripping(known, h)[h].members == {}
  {
    hide Reach;
    var graph, roots := KnownGraph(known), known[h].boundary.Keys;
    ReachClosed(graph, roots);
    assert h in Next(graph, g) && h in Reach(graph, roots);
  }

  /** In a ring every member is shadowed, so neither condition for conservation holds; yet each head settles. */
  lemma RingIsShadowed(h: CommitId, g: CommitId)
    requires h != g
    ensures h in AncestorRaw(Ring(h, g), FLAT, {h, g}, h)
    ensures !Unshadowed(Ring(h, g), FLAT, {h, g})
    ensures Settles(Ring(h, g), FLAT, {h, g}, h)
  {
    hide Raw, Boundary, Ancestors, CanonicalMap;
    assert Ring(g, h) == Ring(h, g);
    RingWalk(h, g);
    RingWalk(g, h);
    RingAncestry(h, g);
    assert h in RawUnion(Ring(h, g), FLAT, {h, g});
    assert !OwnedIn(Ring(h, g), FLAT, {h, g}, h);
  }

  lemma RingAncestry(h: CommitId, g: CommitId)
    requires h != g
    ensures h in Ancestors(Ring(h, g), FLAT, {h, g}, h) && h in Raw(Ring(h, g), FLAT, h)
  {
    hide Raw, Boundary, Reach;
    assert Ring(g, h) == Ring(h, g);
    RingWalk(h, g);
    RingWalk(g, h);
    var graph := BoundaryGraph(Ring(h, g), FLAT, {h, g});
    ReachClosed(graph, {g});
    assert h in Next(graph, g);
  }

  // A ring of `h` and `g` that is not alone: `t` stands above it, past `s`, and shares the loose commit `m` with `h`.

  ghost predicate AllApart(t: CommitId, s: CommitId, h: CommitId, g: CommitId, m: CommitId) {
    t != s && t != h && t != g && t != m && s != h && s != g && s != m && h != g && h != m && g != m
  }

  function Knot(t: CommitId, s: CommitId, h: CommitId, g: CommitId, m: CommitId): Store {
    map[t := {s, m}, s := {h}, h := {g, m}, g := {h}, m := {}]
  }

  function AllButOne(m: CommitId): Depth {
    x => if x == m then 0 else 1
  }

  /** The states a driver leaves before the post-pass. */
  function KnotStates(t: CommitId, s: CommitId, h: CommitId, g: CommitId, m: CommitId): Known {
    map[t := FragmentState(t, {t, m}, {}, map[s := {h}]),
        s := FragmentState(s, {s}, {}, map[h := {g, m}]),
        h := FragmentState(h, {h, m}, {}, map[g := {h}]),
        g := FragmentState(g, {g}, {}, map[h := {g, m}])]
  }

  /** A head with one deep parent, and with or without the loose commit. */
  lemma KnotWalk(store: Store, depth: Depth, x: CommitId, up: CommitId, m: CommitId, walk: set<CommitId>)
    requires x in store && m in store && store[m] == {} && x != m && up != x && up != m
    requires depth(x) == depth(up) == 1 && depth(m) == 0
    requires (walk == {x} && store[x] == {up}) || (walk == {x, m} && store[x] == {up, m})
    ensures Raw(store, depth, x) == walk && Boundary(store, depth, x) == {up}
    ensures RawCheckpoints(store, depth, x) == {}
  {
    hide Raw;
    RawClosed(store, depth, x);
    RawLeast(store, depth, x, walk);
    assert x in Raw(store, depth, x) && x in store && up in store[x] && depth(up) >= depth(x);
    assert up in Boundary(store, depth, x);
  }

  lemma KnotSound(t: CommitId, s: CommitId, h: CommitId, g: CommitId, m: CommitId)
    requires AllApart(t, s, h, g, m)
    ensures Sound(Knot(t, s, h, g, m), AllButOne(m), KnotStates(t, s, h, g, m))
  {
    hide Raw, Boundary, AncestorRaw, RawCheckpoints;
    var store, depth, known := Knot(t, s, h, g, m), AllButOne(m), KnotStates(t, s, h, g, m);
    KnotWalk(store, depth, t, s, m, {t, m});
    KnotWalk(store, depth, s, h, m, {s});
    KnotWalk(store, depth, h, g, m, {h, m});
    KnotWalk(store, depth, g, h, m, {g});
    forall x | x in known ensures Between(store, depth, known.Keys, x, known[x]) {
    }
  }

  ghost predicate Chained(known: Known, t: CommitId, s: CommitId, h: CommitId, g: CommitId) {
    && t in known && s in known && h in known && g in known
    && known[t].boundary.Keys == {s} && known[s].boundary.Keys == {h}
    && known[h].boundary.Keys == {g} && known[g].boundary.Keys == {h}
  }

  /** What the steps at `t` and `h` take away, on any states chained like this. */
  lemma KnotSteps(known: Known, t: CommitId, s: CommitId, h: CommitId, g: CommitId)
    requires Chained(known, t, s, h, g) && t != h
    ensures Stripping(known, t)[t].members == known[t].members - known[s].members - known[h].members - known[g].members
    ensures Stripping(known, t)[h] == known[h]
    ensures Stripping(known, h)[h].members == {}
  {
    hide Reach;
    var graph := KnownGraph(known);
    ReachClosed(graph, {s});
    ReachClosed(graph, {g});
    assert h in Next(graph, s) && g in Next(graph, h) && h in Next(graph, g);
    ReachLeast(graph, {s}, {s, h, g});
    assert Reach(graph, {s}) == {s, h, g};
  }

  lemma OthersStay(known: Known, x: CommitId)
    requires x in known
    ensures Stripping(known, x).Keys == known.Keys && Stripping(known, x)[x].boundary == known[x].boundary
    ensures forall y :: y in known && y != x ==> Stripping(known, x)[y] == known[y]
  {
    hide Reach;
  }

  /**
   The order of the post-pass matters here: with the ring still full `t` gives up
   `m` to it, with the ring emptied `t` keeps it.  So `t` does not settle.
   */
  lemma OrderMatters(t: CommitId, s: CommitId, h: CommitId, g: CommitId, m: CommitId)
    requires AllApart(t, s, h, g, m)
    ensures var store, depth, known := Knot(t, s, h, g, m), AllButOne(m), KnotStates(t, s, h, g, m);
            && Sound(store, depth, known)
            && Stripping(Stripping(known, t), h)[t].members == {t}
            && Stripping(Stripping(known, h), t)[t].members == {t, m}
            && !Settles(store, depth, known.Keys, t)
  {
    hide Sound, Settles, Stripping, Knot, KnotStates;
    KnotSound(t, s, h, g, m);
    KnotParts(t, s, h, g, m);
    TwoOrders(KnotStates(t, s, h, g, m), t, s, h, g, m);
    if Settles(Knot(t, s, h, g, m), AllButOne(m), KnotStates(t, s, h, g, m).Keys, t) {
      OrderSettles(Knot(t, s, h, g, m), AllButOne(m), KnotStates(t, s, h, g, m), t, h);
      assert false;
    }
  }

  lemma TwoOrders(known: Known, t: CommitId, s: CommitId, h: CommitId, g: CommitId, m: CommitId)
    requires AllApart(t, s, h, g, m) && Chained(known, t, s, h, g)
    requires known[t].members == {t, m} && known[s].members == {s}
    requires known[h].members == {h, m} && known[g].members == {g}
    ensures t in Stripping(known, t) && Stripping(known, t)[t].members == {t}
    ensures h in Stripping(known, t) && Stripping(Stripping(known, t), h)[t].members == {t}
    ensures t in Stripping(known, h) && Stripping(Stripping(known, h), t)[t].members == {t, m}
  {
    hide Stripping;
    KnotSteps(known, t, s, h, g);
    OthersStay(known, t);
    OthersStay(known, h);
    OthersStay(Stripping(known, t), h);
    KnotSteps(Stripping(known, h), t, s, h, g);
  }

  /** A head that settles ends the same whether or not another was stripped first. */
  lemma OrderSettles(store: Store, depth: Depth, known: Known, t: CommitId, h: CommitId)
    requires Sound(store, depth, known) && t in known && h in known
    requires Settles(store, depth, known.Keys, t)
    ensures Stripping(known, t)[t] == Stripping(Stripping(known, h), t)[t]
  {
    hide Sound, Settles, Canonical, Reach;
    StrippingStaysSound(store, depth, known, h);
    assert Stripping(known, h).Keys == known.Keys;
    RetainIsCanonical(store, depth, known, t);
    RetainIsCanonical(store, depth, Stripping(known, h), t);
  }

  lemma KnotParts(t: CommitId, s: CommitId, h: CommitId, g: CommitId, m: CommitId)
    requires AllApart(t, s, h, g, m)
    ensures var known := KnotStates(t, s, h, g, m);
            && Chained(known, t, s, h, g)
            && known[t].members == {t, m} && known[s].members == {s}
            && known[h].members == {h, m} && known[g].members == {g}
  {
  }
}
