/**
 The Sedimentree as a replicated structure: tie-broken insertion and merge
 (sedimentree_core/src/sedimentree.rs).

 Content digests are a parameter; as 32-byte strings compared bytewise they are
 numbers compared by size.
 */
module Trees {
  import opened Ids
  import opened Strata

  datatype Tree = Tree(fragments: map<CommitId, Fragment>, commits: map<CommitId, LooseCommit>) {
    /** Entries are filed under their own heads. */
    ghost predicate Valid() {
      && (forall k :: k in fragments ==> fragments[k].Head() == k)
      && (forall k :: k in commits ==> commits[k].head == k)
    }
  }

  const EMPTY: Tree := Tree(map[], map[])

  datatype Digests = Digests(fragment: Fragment -> nat, commit: LooseCommit -> nat)

  // ----- Maps with a digest tie-break -----

  /** Insert, keeping the entry of lower digest on collision. */
  function InsertOrTiebreak<V>(digest: V -> nat, m: map<CommitId, V>, key: CommitId, value: V): map<CommitId, V> {
    if key !in m || digest(value) < digest(m[key]) then m[key := value] else m
  }

  function Merged<V>(digest: V -> nat, a: map<CommitId, V>, b: map<CommitId, V>): map<CommitId, V> {
    map k | k in a.Keys + b.Keys ::
      if k !in b then a[k] else if k !in a || digest(b[k]) < digest(a[k]) then b[k] else a[k]
  }

  /** Insert the entries of `b` into `a`, in some order. */
  method MergeInto<V>(digest: V -> nat, a: map<CommitId, V>, b: map<CommitId, V>) returns (m: map<CommitId, V>)
    ensures m == Merged(digest, a, b)
  {
    m := a;
    ghost var goal, done := Merged(digest, a, b), {};
    var keys := Arrange(b.Keys);
    for i := 0 to |keys|
      invariant forall k :: k in done <==> k in keys[..i]
      invariant m.Keys == a.Keys + done
      invariant forall k :: k in m ==> m[k] == if k in done then goal[k] else a[k]
    {
      var key := keys[i];
      assert key !in done;
      m := InsertOrTiebreak(digest, m, key, b[key]);
      done := done + {key};
    }
    assert done == b.Keys;
  }

  /** The map holds, under each head, an item of lowest digest among `items`, and nothing else. */
  ghost predicate HoldsLowest<V(!new)>(digest: V -> nat, head: V -> CommitId, m: map<CommitId, V>, items: set<V>) {
    && (forall v :: v in items ==> head(v) in m && digest(m[head(v)]) <= digest(v))
    && (forall k :: k in m ==> m[k] in items && head(m[k]) == k)
  }

  /** No item of the same head has a lower digest. */
  ghost predicate Lowest<V(!new)>(digest: V -> nat, head: V -> CommitId, items: set<V>, v: V) {
    v in items && forall w :: w in items && head(w) == head(v) ==> digest(v) <= digest(w)
  }

  /** No two items tie for the lowest digest of their head. */
  ghost predicate NoTie<V(!new)>(digest: V -> nat, head: V -> CommitId, items: set<V>) {
    forall v, w :: Lowest(digest, head, items, v) && Lowest(digest, head, items, w) && head(v) == head(w) ==> v == w
  }

  /** Unless items tie, nothing but the set of them decides the map. */
  lemma LowestUnique<V(!new)>(digest: V -> nat, head: V -> CommitId, m: map<CommitId, V>, m': map<CommitId, V>,
                              items: set<V>)
    requires NoTie(digest, head, items)
    requires HoldsLowest(digest, head, m, items) && HoldsLowest(digest, head, m', items)
    ensures m == m'
  {
    forall k | k in m ensures k in m' && m'[k] == m[k] {
      assert m[k] in items;
      assert m'[k] in items;
      assert Lowest(digest, head, items, m[k]) && Lowest(digest, head, items, m'[k]);
    }
    forall k | k in m' ensures k in m {
      assert m'[k] in items;
    }
  }

  lemma {:induction false} SomeLowest<V(!new)>(digest: V -> nat, head: V -> CommitId, items: set<V>)
    returns (m: map<CommitId, V>)
    ensures HoldsLowest(digest, head, m, items)
    decreases items
  {
    m := map[];
    if items != {} {
      var v :| v in items;
      var rest := SomeLowest(digest, head, items - {v});
      InsertLowest(digest, head, rest, items - {v}, v);
      m := InsertOrTiebreak(digest, rest, head(v), v);
      assert items - {v} + {v} == items;
    }
  }

  /** Any item that is lowest can be the one held for its head. */
  lemma ChooseLowest<V(!new)>(digest: V -> nat, head: V -> CommitId, m: map<CommitId, V>, items: set<V>, v: V)
    requires HoldsLowest(digest, head, m, items) && Lowest(digest, head, items, v)
    ensures HoldsLowest(digest, head, m[head(v) := v], items)
  {
  }

  /** The set of items decides the map exactly if no items tie. */
  lemma LowestUniqueIff<V(!new)>(digest: V -> nat, head: V -> CommitId, items: set<V>)
    ensures NoTie(digest, head, items) <==>
            forall m, m' :: HoldsLowest(digest, head, m, items) && HoldsLowest(digest, head, m', items) ==> m == m'
  {
    hide HoldsLowest, Lowest;
    if NoTie(digest, head, items) {
      forall m, m' | HoldsLowest(digest, head, m, items) && HoldsLowest(digest, head, m', items) ensures m == m' {
        LowestUnique(digest, head, m, m', items);
      }
    } else {
      var v, w :| Lowest(digest, head, items, v) && Lowest(digest, head, items, w) && head(v) == head(w) && v != w;
      var m := SomeLowest(digest, head, items);
      ChooseLowest(digest, head, m, items, v);
      ChooseLowest(digest, head, m, items, w);
      assert m[head(v) := v][head(v)] != m[head(w) := w][head(v)];
    }
  }

  lemma InsertLowest<V(!new)>(digest: V -> nat, head: V -> CommitId, m: map<CommitId, V>, items: set<V>, v: V)
    requires HoldsLowest(digest, head, m, items)
    ensures HoldsLowest(digest, head, InsertOrTiebreak(digest, m, head(v), v), items + {v})
  {
  }

  lemma MergeLowest<V(!new)>(digest: V -> nat, head: V -> CommitId, a: map<CommitId, V>, b: map<CommitId, V>,
                      s: set<V>, t: set<V>)
    requires HoldsLowest(digest, head, a, s) && HoldsLowest(digest, head, b, t)
    ensures HoldsLowest(digest, head, Merged(digest, a, b), s + t)
  {
  }

  /** Insert a list of items one after the other into an empty map. */
  method Collect<V(!new)>(digest: V -> nat, head: V -> CommitId, items: seq<V>) returns (m: map<CommitId, V>)
    ensures HoldsLowest(digest, head, m, set v | v in items)
  {
    m := map[];
    ghost var seen := {};
    for i := 0 to |items|
      invariant forall v :: v in seen <==> v in items[..i]
      invariant HoldsLowest(digest, head, m, seen)
    {
      InsertLowest(digest, head, m, seen, items[i]);
      m := InsertOrTiebreak(digest, m, head(items[i]), items[i]);
      seen := seen + {items[i]};
    }
    assert seen == set v | v in items;
  }

  /** The two maps hold no two different items of one head and one digest. */
  ghost predicate NoCollision<V>(digest: V -> nat, a: map<CommitId, V>, b: map<CommitId, V>) {
    forall k :: k in a && k in b && digest(a[k]) == digest(b[k]) ==> a[k] == b[k]
  }

  /** Merge is idempotent, and commutative exactly when no digests collide. */
  lemma MergeCommutes<V>(digest: V -> nat, a: map<CommitId, V>, b: map<CommitId, V>)
    ensures Merged(digest, a, a) == a
    ensures NoCollision(digest, a, b) <==> Merged(digest, a, b) == Merged(digest, b, a)
  {
    if Merged(digest, a, b) == Merged(digest, b, a) {
      forall k | k in a && k in b && digest(a[k]) == digest(b[k]) ensures a[k] == b[k] {
        assert Merged(digest, a, b)[k] == Merged(digest, b, a)[k];
      }
    }
  }

  /** A head on one side only keeps its item; on both, the lower digest wins, and on a tie the item already held. */
  lemma MergeKeeps<V>(digest: V -> nat, a: map<CommitId, V>, b: map<CommitId, V>, k: CommitId)
    requires k in a || k in b
    ensures k in Merged(digest, a, b)
    ensures k in a && (k in b ==> digest(a[k]) <= digest(b[k])) ==> Merged(digest, a, b)[k] == a[k]
    ensures k in b && (k in a ==> digest(b[k]) < digest(a[k])) ==> Merged(digest, a, b)[k] == b[k]
    ensures k in b ==> InsertOrTiebreak(digest, a, k, b[k])[k] == Merged(digest, a, b)[k]
  {
  }

  /** Merge is associative, collisions or not. */
  lemma MergeAssociates<V>(digest: V -> nat, a: map<CommitId, V>, b: map<CommitId, V>, c: map<CommitId, V>)
    ensures Merged(digest, Merged(digest, a, b), c) == Merged(digest, a, Merged(digest, b, c))
  {
    var ab, bc := Merged(digest, a, b), Merged(digest, b, c);
    forall k | k in a.Keys + b.Keys + c.Keys ensures Merged(digest, ab, c)[k] == Merged(digest, a, bc)[k] {
      assert k in ab <==> k in a || k in b;
      assert k in bc <==> k in b || k in c;
    }
  }

  // ----- Trees -----

  function FragmentHead(f: Fragment): CommitId { f.Head() }

  function CommitHead(c: LooseCommit): CommitId { c.head }

  function MergedTree(d: Digests, t: Tree, u: Tree): Tree {
    Tree(Merged(d.fragment, t.fragments, u.fragments), Merged(d.commit, t.commits, u.commits))
  }

  function WithFragment(d: Digests, t: Tree, f: Fragment): Tree {
    t.(fragments := InsertOrTiebreak(d.fragment, t.fragments, f.Head(), f))
  }

  function WithCommit(d: Digests, t: Tree, c: LooseCommit): Tree {
    t.(commits := InsertOrTiebreak(d.commit, t.commits, c.head, c))
  }

  /** The tree holds exactly the lowest item per head of those delivered. */
  ghost predicate Holds(d: Digests, t: Tree, fragments: set<Fragment>, commits: set<LooseCommit>) {
    && HoldsLowest(d.fragment, FragmentHead, t.fragments, fragments)
    && HoldsLowest(d.commit, CommitHead, t.commits, commits)
  }
}
