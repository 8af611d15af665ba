/** Identifiers, and the few notions that every module shares. */
module Ids {

  type Byte = x: int | 0 <= x < 256

  /** A user-supplied commit identifier; 32 bytes on the wire. */
  datatype CommitId = CommitId(bytes: seq<Byte>)

  const CHECKPOINT_BYTES := 12

  /** Checkpoints are identifiers truncated to their first 12 bytes. */
  type Checkpoint = seq<Byte>

  function Truncate(id: CommitId): (c: Checkpoint)
    ensures c <= id.bytes && (|id.bytes| >= 12 ==> |c| == 12) && (|id.bytes| <= 12 ==> c == id.bytes)
  {
    if |id.bytes| < CHECKPOINT_BYTES then id.bytes else id.bytes[..CHECKPOINT_BYTES]
  }

  /** No two of `ids` truncate to the same checkpoint. */
  ghost predicate TruncationInjective(ids: set<CommitId>) {
    forall x, y :: x in ids && y in ids && Truncate(x) == Truncate(y) ==> x == y
  }

  /** For identifiers of full length: any two of them differ within the first 12 bytes. */
  lemma TruncationInjectiveIff(ids: set<CommitId>)
    requires forall x :: x in ids ==> |x.bytes| == 32
    ensures TruncationInjective(ids) <==>
            forall x, y :: x in ids && y in ids && x != y ==> exists k :: 0 <= k < 12 && x.bytes[k] != y.bytes[k]
  {
    forall x, y | x in ids && y in ids && Truncate(x) != Truncate(y)
      ensures exists k :: 0 <= k < 12 && x.bytes[k] != y.bytes[k]
    {
      var k :| 0 <= k < 12 && Truncate(x)[k] != Truncate(y)[k];
      assert x.bytes[k] != y.bytes[k];
    }
    forall x, y, k | x in ids && y in ids && 0 <= k < 12 && x.bytes[k] != y.bytes[k]
      ensures Truncate(x) != Truncate(y)
    {
      assert Truncate(x)[k] == x.bytes[k] && Truncate(y)[k] == y.bytes[k];
    }
  }

  /** The depth metric: nonzero depth makes a commit eligible to head a fragment. */
  type Depth = CommitId -> nat

  datatype Option<+T> = None | Some(value: T)

  function Elements<T>(q: seq<T>): set<T> {
    set x | x in q
  }

  lemma LastOrBefore<T>(q: seq<T>)
    requires q != []
    ensures q[|q| - 1] in q && forall x :: x in q ==> x == q[|q| - 1] || x in q[..|q| - 1]
  {
  }

  lemma MulMonotone(x: nat, y: nat, z: nat)
    requires x <= y
    ensures x * z <= y * z
  {
  }

  /** Some ordering of a set: callers learn nothing about which one. */
  method Arrange<T(==)>(s: set<T>) returns (q: seq<T>)
    ensures forall x :: x in q <==> x in s
    ensures forall i, j :: 0 <= i < j < |q| ==> q[i] != q[j]
  {
    q := [];
    var rest := s;
    while rest != {}
      invariant rest <= s
      invariant forall x :: x in q <==> x in s && x !in rest
      invariant forall i, j :: 0 <= i < j < |q| ==> q[i] != q[j]
      decreases rest
    {
      var x :| x in rest;
      assert x !in q;
      q, rest := q + [x], rest - {x};
    }
  }
}
