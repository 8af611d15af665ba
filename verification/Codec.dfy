/**
 The binary codec of loose commits and fragments (`encode_fields`,
 `try_decode_fields`, `fields_size` in sedimentree_core/src/loose_commit.rs and
 sedimentree_core/src/fragment.rs; primitives in sedimentree_core/src/codec).

 The variable-length integer of the external `bijoux` crate is a parameter.
 */
module Codec {
  import opened Ids
  import opened Bytes
  import opened Strata

  const U64_LIMIT := 0x1_0000_0000_0000_0000

  /** Encoding and decoding of a `u64`; decoding also tells how many bytes it read. */
  datatype Varint = Varint(encode: nat -> seq<Byte>, decode: seq<Byte> -> Option<(nat, nat)>)

  /** Self-delimiting, canonical, and never empty. */
  ghost predicate Lawful(v: Varint) {
    && (forall n: nat, rest {:trigger v.decode(v.encode(n) + rest)} ::
          n < U64_LIMIT ==> v.decode(v.encode(n) + rest) == Some((n, |v.encode(n)|)))
    && (forall n: nat :: n < U64_LIMIT ==> |v.encode(n)| > 0)
    && (forall b :: v.decode(b).Some? ==>
          var (n, k) := v.decode(b).value; n < U64_LIMIT && k <= |b| && b[..k] == v.encode(n))
  }

  // The laws can be met: a fixed code of eight bytes does.

  function Octets(n: nat, count: nat): seq<Byte> {
    if count == 0 then [] else [n % 256] + Octets(n / 256, count - 1)
  }

  function FromOctets(b: seq<Byte>): nat {
    if b == [] then 0 else b[0] + 256 * FromOctets(b[1..])
  }

  const FIXED_WIDTH: Varint :=
    Varint(n => Octets(n, 8), b => if |b| < 8 then None else Some((FromOctets(b[..8]), 8)))

  lemma {:induction false} OctetsRoundTrip(n: nat, count: nat)
    requires n < Weight(count)
    ensures |Octets(n, count)| == count && FromOctets(Octets(n, count)) == n
  {
    if count > 0 {
      OctetsRoundTrip(n / 256, count - 1);
      assert Octets(n, count)[1..] == Octets(n / 256, count - 1);
    }
  }

  lemma {:induction false} OctetsCanonical(b: seq<Byte>)
    ensures FromOctets(b) < Weight(|b|) && Octets(FromOctets(b), |b|) == b
  {
    if b != [] {
      OctetsCanonical(b[1..]);
      assert FromOctets(b) / 256 == FromOctets(b[1..]) && FromOctets(b) % 256 == b[0];
      assert b == [b[0]] + b[1..];
    }
  }

  lemma FixedWidthIsLawful()
    ensures Lawful(FIXED_WIDTH)
  {
    hide Octets, FromOctets;
    var v := FIXED_WIDTH;
    assert Weight(8) == U64_LIMIT by { EightBytes(); }
    forall n: nat, rest | n < U64_LIMIT
      ensures v.decode(v.encode(n) + rest) == Some((n, |v.encode(n)|)) && |v.encode(n)| > 0
    {
      OctetsRoundTrip(n, 8);
      assert (v.encode(n) + rest)[..8] == v.encode(n);
    }
    forall n: nat | n < U64_LIMIT ensures |v.encode(n)| > 0 {
      OctetsRoundTrip(n, 8);
    }
    forall b | v.decode(b).Some?
      ensures var (n, k) := v.decode(b).value; n < U64_LIMIT && k <= |b| && b[..k] == v.encode(n)
    {
      OctetsCanonical(b[..8]);
    }
  }

  lemma EightBytes()
    ensures Weight(8) == U64_LIMIT
  {
    assert Weight(2) == 0x1_0000;
    assert Weight(4) == 0x1_0000_0000;
    assert Weight(6) == 0x1_0000_0000_0000;
  }

  datatype DecodeError =
    | MessageTooShort(need: nat, have: nat)
    | BadVarint(offset: nat)
    | BufferTooShort(offset: nat, need: nat, have: nat)
    | UnsortedArray(index: nat)

  datatype Decoded<T> = Ok(value: T, consumed: nat) | Err(error: DecodeError)

  // ----- Lists of fixed-size arrays -----

  ghost function Concat(q: seq<seq<Byte>>): seq<Byte> {
    if q == [] then [] else q[0] + Concat(q[1..])
  }

  ghost predicate AllSized(q: seq<seq<Byte>>, size: nat) {
    forall i :: 0 <= i < |q| ==> |q[i]| == size
  }

  ghost function Chunks(buf: seq<Byte>, size: nat, count: nat): (q: seq<seq<Byte>>)
    requires count * size <= |buf|
    ensures |q| == count && AllSized(q, size)
  {
    if count == 0 then []
    else
      assert size <= count * size && (count - 1) * size == count * size - size;
      [buf[..size]] + Chunks(buf[size..], size, count - 1)
  }

  lemma {:induction false} ConcatLength(q: seq<seq<Byte>>, size: nat)
    requires AllSized(q, size)
    ensures |Concat(q)| == |q| * size
  {
    if q != [] {
      ConcatLength(q[1..], size);
      assert |q| * size == size + (|q| - 1) * size;
    }
  }

  lemma {:induction false} ChunksOfConcat(q: seq<seq<Byte>>, size: nat, suffix: seq<Byte>)
    requires AllSized(q, size)
    ensures |q| * size <= |Concat(q) + suffix|
    ensures Chunks(Concat(q) + suffix, size, |q|) == q
  {
    ConcatLength(q, size);
    if q != [] {
      ChunksOfConcat(q[1..], size, suffix);
      assert (Concat(q) + suffix)[..size] == q[0];
      assert (Concat(q) + suffix)[size..] == Concat(q[1..]) + suffix;
    }
  }

  lemma ChunksStep(buf: seq<Byte>, size: nat, count: nat)
    requires 0 < count && count * size <= |buf|
    ensures size <= |buf| && (count - 1) * size <= |buf| - size
    ensures Chunks(buf, size, count) == [buf[..size]] + Chunks(buf[size..], size, count - 1)
  {
    assert size <= count * size && (count - 1) * size == count * size - size;
  }

  lemma {:induction false} ConcatOfChunks(buf: seq<Byte>, size: nat, count: nat)
    requires count * size <= |buf|
    ensures Concat(Chunks(buf, size, count)) == buf[..count * size]
  {
    if count > 0 {
      ConcatStep(buf, size, count);
      ConcatOfChunks(buf[size..], size, count - 1);
      TakeTwice(buf, size, (count - 1) * size);
      assert count * size == size + (count - 1) * size;
    }
  }

  lemma ConcatStep(buf: seq<Byte>, size: nat, count: nat)
    requires 0 < count && count * size <= |buf|
    ensures size <= |buf| && (count - 1) * size <= |buf| - size
    ensures Concat(Chunks(buf, size, count)) == buf[..size] + Concat(Chunks(buf[size..], size, count - 1))
  {
    hide Chunks;
    ChunksStep(buf, size, count);
    var q := Chunks(buf[size..], size, count - 1);
    assert ([buf[..size]] + q)[1..] == q;
  }

  lemma TakeTwice(buf: seq<Byte>, m: nat, n: nat)
    requires m + n <= |buf|
    ensures buf[..m] + buf[m..][..n] == buf[..m + n]
  {
  }

  lemma {:induction false} ConcatAppend(p: seq<seq<Byte>>, x: seq<Byte>)
    ensures Concat(p + [x]) == Concat(p) + x
  {
    if p == [] {
      assert [x][1..] == [];
      assert Concat([x]) == x + Concat([]);
    } else {
      ConcatAppend(p[1..], x);
      assert (p + [x])[1..] == p[1..] + [x];
    }
  }

  /** Read `count` arrays from `offset` on. */
  method ReadArrays(buf: seq<Byte>, offset: nat, size: nat, count: nat) returns (q: seq<seq<Byte>>)
    requires offset <= |buf| && count * size <= |buf| - offset
    ensures q == Chunks(buf[offset..], size, count)
  {
    hide Chunks;
    q := [];
    var at: nat, left: nat := offset, count;
    ghost var all := Chunks(buf[offset..], size, count);
    while left > 0
      invariant at <= |buf| && left * size <= |buf| - at
      invariant q + Chunks(buf[at..], size, left) == all
    {
      ghost var rest := buf[at..];
      ChunksStep(rest, size, left);
      assert rest[..size] == buf[at..at + size] && rest[size..] == buf[at + size..];
      assert q + ([rest[..size]] + Chunks(rest[size..], size, left - 1))
          == (q + [rest[..size]]) + Chunks(rest[size..], size, left - 1);
      q := q + [buf[at..at + size]];
      at, left := at + size, left - 1;
    }
  }

  /** The index of the first element that does not exceed its predecessor, if any. */
  ghost predicate FirstUnsorted(q: seq<seq<Byte>>, index: nat) {
    0 < index < |q| && !Less(q[index - 1], q[index]) && Ascending(q[..index])
  }

  method VerifySorted(q: seq<seq<Byte>>) returns (r: Option<nat>)
    ensures r.None? <==> Ascending(q)
    ensures r.Some? ==> FirstUnsorted(q, r.value)
    ensures r.Some? ==> 0 < r.value < |q| && !Less(q[r.value - 1], q[r.value])
    ensures r.Some? ==> forall k :: 0 < k < r.value < |q| ==> Less(q[k - 1], q[k])
  {
    if q == [] {
      return None;
    }
    for i := 1 to |q|
      invariant Ascending(q[..i])
    {
      if !Less(q[i - 1], q[i]) {
        return Some(i);
      }
    }
    assert q[..|q|] == q;
    return None;
  }

  // ----- Encoding -----

  /** An ordered set as the sequence it iterates in. */
  method Iterate(s: set<seq<Byte>>) returns (q: seq<seq<Byte>>)
    ensures q == Listing(s)
  {
    hide Listing, Less;
    q := [];
    var rest := s;
    ghost var goal := Listing(s);
    while rest != {}
      invariant q + Listing(rest) == goal
      decreases rest
    {
      var m := Least(rest);
      ListingStep(rest, m);
      q, rest := q + [m], rest - {m};
    }
    EmptyListing();
  }

  lemma EmptyListing()
    ensures Listing({}) == []
  {
  }

  lemma ListingStep(s: set<seq<Byte>>, m: seq<Byte>)
    requires m in s && forall x :: x in s && x != m ==> Less(m, x)
    ensures Listing(s) == [m] + Listing(s - {m})
  {
    var w := LeastOf(s);
    LessTotal(w, m);
  }

  method Least(s: set<seq<Byte>>) returns (m: seq<Byte>)
    requires s != {}
    ensures m in s && forall x :: x in s && x != m ==> Less(m, x)
  {
    m :| m in s;
    var rest := s - {m};
    while rest != {}
      invariant rest < s && m in s && m !in rest
      invariant forall x :: x in s && x !in rest && x != m ==> Less(m, x)
      decreases rest
    {
      var x :| x in rest;
      rest := rest - {x};
      LessTotal(x, m);
      if Less(x, m) {
        forall y | y in s && y !in rest && y != x ensures Less(x, y) {
          if y != m {
            LessTransitive(x, m, y);
          }
        }
        m := x;
      }
    }
  }

  function IdBytes(ids: set<CommitId>): set<seq<Byte>> {
    set c | c in ids :: c.bytes
  }

  function IdsOf(q: seq<seq<Byte>>): set<CommitId> {
    set b | b in q :: CommitId(b)
  }

  lemma IdsOfListing(ids: set<CommitId>)
    ensures IdsOf(Listing(IdBytes(ids))) == ids
    ensures |Listing(IdBytes(ids))| == |ids|
  {
    var q := Listing(IdBytes(ids));
    forall c | c in ids ensures c in IdsOf(q) {
      assert c.bytes in Elements(q);
      assert c == CommitId(c.bytes);
    }
    forall c | c in IdsOf(q) ensures c in ids {
      var b :| b in q && c == CommitId(b);
      assert b in Elements(q);
      var c' :| c' in ids && c'.bytes == b;
    }
    AscendingCard(q);
    SameSize(ids);
  }

  lemma {:induction false} SameSize(ids: set<CommitId>)
    ensures |IdBytes(ids)| == |ids|
  {
    if ids != {} {
      var c :| c in ids;
      SameSize(ids - {c});
      assert IdBytes(ids) == IdBytes(ids - {c}) + {c.bytes};
      assert c.bytes !in IdBytes(ids - {c}) by {
        forall c' | c' in ids - {c} ensures c'.bytes != c.bytes {
          assert c' == CommitId(c'.bytes) && c == CommitId(c.bytes);
        }
      }
    }
  }

  lemma ListingOfIds(q: seq<seq<Byte>>)
    requires Ascending(q)
    ensures Listing(IdBytes(IdsOf(q))) == q
  {
    assert IdBytes(IdsOf(q)) == Elements(q) by {
      forall b | b in Elements(q) ensures b in IdBytes(IdsOf(q)) {
        assert CommitId(b) in IdsOf(q);
        assert CommitId(b).bytes == b;
      }
    }
    AscendingUnique(Listing(Elements(q)), q);
  }

  // ----- The header both records share -----

  function Header(treeId: seq<Byte>, head: CommitId, digest: seq<Byte>): seq<Byte> {
    treeId + head.bytes + digest
  }

  ghost predicate HeaderSized(treeId: seq<Byte>, head: CommitId, blobMeta: BlobMeta) {
    |treeId| == 32 && |head.bytes| == 32 && |blobMeta.digest| == 32 && blobMeta.size < U64_LIMIT
  }

  lemma HeaderParts(treeId: seq<Byte>, head: CommitId, digest: seq<Byte>, rest: seq<Byte>)
    requires |treeId| == 32 && |head.bytes| == 32 && |digest| == 32
    ensures var buf := Header(treeId, head, digest) + rest;
            && |buf| == 96 + |rest|
            && buf[..32] == treeId && buf[32..64] == head.bytes && buf[64..96] == digest && buf[96..] == rest
  {
  }

  /** Append an ordered set of arrays to a buffer. */
  method PushArrays(buf0: seq<Byte>, s: set<seq<Byte>>) returns (buf: seq<Byte>)
    ensures buf == buf0 + Concat(Listing(s))
  {
    hide Listing;
    buf := buf0;
    var q := Iterate(s);
    for i := 0 to |q|
      invariant buf == buf0 + Concat(q[..i])
    {
      ConcatAppend(q[..i], q[i]);
      assert q[..i + 1] == q[..i] + [q[i]];
      buf := buf + q[i];
    }
    assert q[..|q|] == q;
  }

  // ----- Loose commits -----

  const COMMIT_FIXED := 97

  ghost function CommitFields(v: Varint, c: LooseCommit): seq<Byte> {
    Header(c.treeId, c.head, c.blobMeta.digest)
    + ([|c.parents| % 256] + (v.encode(c.blobMeta.size) + Concat(Listing(IdBytes(c.parents)))))
  }

  function CommitFieldsSize(v: Varint, c: LooseCommit): nat {
    COMMIT_FIXED + |v.encode(c.blobMeta.size)| + |c.parents| * 32
  }

  /** Identifiers and digests are 32 bytes and sizes are 64-bit, as their types say in the source. */
  ghost predicate CommitSized(c: LooseCommit) {
    HeaderSized(c.treeId, c.head, c.blobMeta) && forall p :: p in c.parents ==> |p.bytes| == 32
  }

  method EncodeCommit(v: Varint, c: LooseCommit, buf0: seq<Byte>) returns (buf: seq<Byte>)
    ensures buf == buf0 + CommitFields(v, c)
    ensures buf == buf0 + c.treeId + c.head.bytes + c.blobMeta.digest + [|c.parents| % 256]
                   + v.encode(c.blobMeta.size) + Concat(Listing(IdBytes(c.parents)))
  {
    hide Listing;
    buf := buf0 + c.treeId;
    buf := buf + c.head.bytes;
    buf := buf + c.blobMeta.digest;
    buf := buf + [|c.parents| % 256];
    buf := buf + v.encode(c.blobMeta.size);
    ghost var before := buf;
    buf := PushArrays(buf, IdBytes(c.parents));
    assert before ==
           buf0 + Header(c.treeId, c.head, c.blobMeta.digest) + [|c.parents| % 256] + v.encode(c.blobMeta.size);
  }

  /** What decoding `buf` yields: the branches in the order in which they are taken. */
  ghost predicate CommitDecodes(v: Varint, buf: seq<Byte>, r: Decoded<LooseCommit>) {
    if |buf| < COMMIT_FIXED + 1 then r == Err(MessageTooShort(COMMIT_FIXED + 1, |buf|))
    else
      var count: nat := buf[96];
      match v.decode(buf[COMMIT_FIXED..])
      case None => r == Err(BadVarint(COMMIT_FIXED))
      case Some((size, k)) =>
        var offset := COMMIT_FIXED + k;
        if |buf| < offset + count * 32 then
          r == Err(BufferTooShort(offset, count * 32, if |buf| < offset then 0 else |buf| - offset))
        else
          var q := Chunks(buf[offset..], 32, count);
          if Ascending(q) then
            r == Ok(LooseCommit(buf[..32], CommitId(buf[32..64]), IdsOf(q), BlobMeta(buf[64..96], size)),
                    offset + count * 32)
          else r.Err? && r.error.UnsortedArray? && FirstUnsorted(q, r.error.index)
  }

  method TryDecodeCommit(v: Varint, buf: seq<Byte>) returns (r: Decoded<LooseCommit>)
    ensures CommitDecodes(v, buf, r)
    ensures r.Ok? ==> r.consumed <= |buf|
    ensures |buf| < 98 ==> r == Err(MessageTooShort(98, |buf|))
    ensures |buf| >= 98 && v.decode(buf[97..]).None? ==> r == Err(BadVarint(97))
    ensures |buf| >= 98 && v.decode(buf[97..]).Some? ==>
              var offset: nat, count: nat := 97 + v.decode(buf[97..]).value.1, buf[96];
              var size := count * 32;
              |buf| < offset + size <==>
                r == Err(BufferTooShort(offset, size, if |buf| < offset then 0 else |buf| - offset))
    ensures r.Ok? ==> r.value.treeId == buf[..32] && r.value.head.bytes == buf[32..64]
                      && r.value.blobMeta.digest == buf[64..96]
  {
    hide Chunks, Ascending, FirstUnsorted, IdsOf;
    if |buf| < COMMIT_FIXED + 1 {
      return Err(MessageTooShort(COMMIT_FIXED + 1, |buf|));
    }
    var count: nat := buf[96];
    var size := v.decode(buf[COMMIT_FIXED..]);
    if size.None? {
      return Err(BadVarint(COMMIT_FIXED));
    }
    var offset := COMMIT_FIXED + size.value.1;
    if |buf| < offset + count * 32 {
      return Err(BufferTooShort(offset, count * 32, if |buf| < offset then 0 else |buf| - offset));
    }
    var q := ReadArrays(buf, offset, 32, count);
    var unsorted := VerifySorted(q);
    if unsorted.Some? {
      return Err(UnsortedArray(unsorted.value));
    }
    r := Ok(LooseCommit(buf[..32], CommitId(buf[32..64]), IdsOf(q), BlobMeta(buf[64..96], size.value.0)),
            offset + count * 32);
  }

  lemma IdsAllSized(ids: set<CommitId>, size: nat)
    requires forall c :: c in ids ==> |c.bytes| == size
    ensures AllSized(Listing(IdBytes(ids)), size)
  {
    var q := Listing(IdBytes(ids));
    forall i | 0 <= i < |q| ensures |q[i]| == size {
      assert q[i] in Elements(q);
    }
  }

  /**
   Round trip: decoding an encoded commit, whatever follows it, gives the commit
   back and consumes its size, if and only if it has at most 255 parents.
   */
  lemma CommitRoundTripIff(v: Varint, c: LooseCommit, suffix: seq<Byte>, r: Decoded<LooseCommit>)
    requires Lawful(v) && CommitSized(c)
    requires CommitDecodes(v, CommitFields(v, c) + suffix, r)
    ensures |CommitFields(v, c)| == CommitFieldsSize(v, c)
    ensures r == Ok(c, CommitFieldsSize(v, c)) <==> |c.parents| <= 255
  {
    hide Chunks, Listing, Concat, Ascending, FirstUnsorted, Header, Lawful;
    var q := Listing(IdBytes(c.parents));
    var size := c.blobMeta.size;
    IdsOfListing(c.parents);
    IdsAllSized(c.parents, 32);
    ConcatLength(q, 32);
    ChunksOfConcat(q, 32, suffix);
    var buf := CommitFields(v, c) + suffix;
    CommitParts(v, c, suffix);
    VarintDecodes(v, size, Concat(q) + suffix);
    var offset := COMMIT_FIXED + |v.encode(size)|;
    if |c.parents| <= 255 {
      assert c.head == CommitId(buf[32..64]);
    } else if r.Ok? {
      IdsOfCount(Chunks(buf[offset..], 32, |c.parents| % 256));
    }
  }

  lemma VarintDecodes(v: Varint, size: nat, rest: seq<Byte>)
    requires Lawful(v) && size < U64_LIMIT
    ensures v.decode(v.encode(size) + rest) == Some((size, |v.encode(size)|)) && |v.encode(size)| > 0
  {
  }

  /** Where the fields of an encoded commit lie. */
  lemma CommitParts(v: Varint, c: LooseCommit, suffix: seq<Byte>)
    requires CommitSized(c)
    ensures var q, code, buf := Listing(IdBytes(c.parents)), v.encode(c.blobMeta.size), CommitFields(v, c) + suffix;
            && |buf| == COMMIT_FIXED + |code| + |Concat(q)| + |suffix|
            && buf[..32] == c.treeId && buf[32..64] == c.head.bytes && buf[64..96] == c.blobMeta.digest
            && buf[96] == |c.parents| % 256
            && buf[COMMIT_FIXED..] == code + (Concat(q) + suffix)
            && buf[COMMIT_FIXED + |code|..] == Concat(q) + suffix
  {
    hide Listing, Concat, Header;
    var list, code, n := Concat(Listing(IdBytes(c.parents))), v.encode(c.blobMeta.size), |c.parents| % 256;
    var header, tail := Header(c.treeId, c.head, c.blobMeta.digest), code + (list + suffix);
    var buf := CommitFields(v, c) + suffix;
    assert buf == header + ([n] + tail);
    HeaderParts(c.treeId, c.head, c.blobMeta.digest, [n] + tail);
    assert buf[96..] == [n] + tail;
    assert buf[96] == buf[96..][0];
    assert buf[COMMIT_FIXED..] == buf[96..][1..];
    assert buf[COMMIT_FIXED + |code|..] == buf[COMMIT_FIXED..][|code|..];
  }

  lemma {:induction false} IdsOfCount(q: seq<seq<Byte>>)
    ensures |IdsOf(q)| <= |q|
  {
    if q != [] {
      IdsOfCount(q[1..]);
      assert IdsOf(q) == IdsOf(q[1..]) + {CommitId(q[0])};
    }
  }

  /** Canonicity: whatever decodes is the one encoding of its value, and no longer than the buffer. */
  lemma CommitCanonical(v: Varint, buf: seq<Byte>, c: LooseCommit, n: nat)
    requires Lawful(v)
    requires CommitDecodes(v, buf, Ok(c, n))
    ensures CommitSized(c) && |c.parents| <= 255
    ensures n == CommitFieldsSize(v, c) <= |buf| && buf[..n] == CommitFields(v, c)
  {
    hide Chunks, Listing, Concat, Ascending, Header, Lawful;
    var count: nat := buf[96];
    var (size, k) := v.decode(buf[COMMIT_FIXED..]).value;
    var offset := COMMIT_FIXED + k;
    var q := Chunks(buf[offset..], 32, count);
    ListingOfIds(q);
    IdsOfListing(c.parents);
    ConcatOfChunks(buf[offset..], 32, count);
    VarintCanonical(v, buf[COMMIT_FIXED..]);
    Reassemble(buf, [buf[96]], v.encode(size), Concat(q));
    forall p | p in c.parents ensures |p.bytes| == 32 {
      var b :| b in q && p == CommitId(b);
    }
  }

  lemma VarintCanonical(v: Varint, b: seq<Byte>)
    requires Lawful(v) && v.decode(b).Some?
    ensures var (n, k) := v.decode(b).value; n < U64_LIMIT && k <= |b| && b[..k] == v.encode(n) && |v.encode(n)| == k
  {
    var (n, k) := v.decode(b).value;
    assert |b[..k]| == k;
  }

  /** A buffer cut at its field borders is the sum of its fields. */
  lemma Reassemble(buf: seq<Byte>, counts: seq<Byte>, code: seq<Byte>, list: seq<Byte>)
    requires |buf| >= 96 + |counts| + |code| + |list|
    requires buf[96..96 + |counts|] == counts
    requires buf[96 + |counts|..][..|code|] == code
    requires buf[96 + |counts| + |code|..][..|list|] == list
    ensures buf[..96 + |counts| + |code| + |list|] ==
            Header(buf[..32], CommitId(buf[32..64]), buf[64..96]) + (counts + (code + list))
  {
    var n, a, b := 96 + |counts| + |code| + |list|, 96 + |counts|, 96 + |counts| + |code|;
    assert buf[a..b] == code && buf[b..n] == list;
    assert buf[..n] == buf[..96] + (buf[96..a] + (buf[a..b] + buf[b..n]));
  }

  // ----- Fragments -----

  const FRAGMENT_FIXED := 99

  function U16(n: nat): seq<Byte> {
    [n / 256 % 256, n % 256]
  }

  function FromU16(hi: nat, lo: nat): nat {
    hi * 256 + lo
  }

  ghost function FragmentFields(v: Varint, f: Fragment): seq<Byte> {
    Header(f.treeId, f.Head(), f.summary.blobMeta.digest)
    + (([|f.Boundary()| % 256] + U16(|f.checkpoints|))
       + (v.encode(f.summary.blobMeta.size)
          + (Concat(Listing(IdBytes(f.Boundary()))) + Concat(Listing(f.checkpoints)))))
  }

  function FragmentFieldsSize(v: Varint, f: Fragment): nat {
    FRAGMENT_FIXED + |v.encode(f.summary.blobMeta.size)| + |f.Boundary()| * 32 + |f.checkpoints| * CHECKPOINT_BYTES
  }

  ghost predicate FragmentSized(f: Fragment) {
    && HeaderSized(f.treeId, f.Head(), f.summary.blobMeta)
    && (forall b :: b in f.Boundary() ==> |b.bytes| == 32)
    && (forall c :: c in f.checkpoints ==> |c| == CHECKPOINT_BYTES)
  }

  method EncodeFragment(v: Varint, f: Fragment, buf0: seq<Byte>) returns (buf: seq<Byte>)
    ensures buf == buf0 + FragmentFields(v, f)
    ensures buf == buf0 + f.treeId + f.Head().bytes + f.summary.blobMeta.digest + [|f.Boundary()| % 256]
                   + [|f.checkpoints| / 256 % 256, |f.checkpoints| % 256] + v.encode(f.summary.blobMeta.size)
                   + Concat(Listing(IdBytes(f.Boundary()))) + Concat(Listing(f.checkpoints))
  {
    hide Listing, Concat;
    buf := buf0 + f.treeId;
    buf := buf + f.Head().bytes;
    buf := buf + f.summary.blobMeta.digest;
    buf := buf + [|f.Boundary()| % 256];
    buf := buf + U16(|f.checkpoints|);
    buf := buf + v.encode(f.summary.blobMeta.size);
    ghost var before := buf;
    buf := PushArrays(buf, IdBytes(f.Boundary()));
    buf := PushArrays(buf, f.checkpoints);
    assert before == buf0 + Header(f.treeId, f.Head(), f.summary.blobMeta.digest)
                     + ([|f.Boundary()| % 256] + U16(|f.checkpoints|)) + v.encode(f.summary.blobMeta.size);
  }

  /** What decoding `buf` yields, branch by branch. */
  ghost predicate FragmentDecodes(v: Varint, buf: seq<Byte>, r: Decoded<Fragment>) {
    if |buf| < FRAGMENT_FIXED + 1 then r == Err(MessageTooShort(FRAGMENT_FIXED + 1, |buf|))
    else
      var bounds: nat, checks: nat := buf[96], FromU16(buf[97], buf[98]);
      match v.decode(buf[FRAGMENT_FIXED..])
      case None => r == Err(BadVarint(FRAGMENT_FIXED))
      case Some((size, k)) =>
        var offset, total := FRAGMENT_FIXED + k, bounds * 32 + checks * CHECKPOINT_BYTES;
        if |buf| < offset + total then
          r == Err(BufferTooShort(offset, total, if |buf| < offset then 0 else |buf| - offset))
        else
          var p := Chunks(buf[offset..], 32, bounds);
          var q := Chunks(buf[offset + bounds * 32..], CHECKPOINT_BYTES, checks);
          if !Ascending(p) then r.Err? && r.error.UnsortedArray? && FirstUnsorted(p, r.error.index)
          else if !Ascending(q) then r.Err? && r.error.UnsortedArray? && FirstUnsorted(q, r.error.index)
          else
            var summary := FragmentSummary(CommitId(buf[32..64]), IdsOf(p), BlobMeta(buf[64..96], size));
            r == Ok(Fragment(buf[..32], summary, Elements(q)), offset + total)
  }

  method TryDecodeFragment(v: Varint, buf: seq<Byte>) returns (r: Decoded<Fragment>)
    ensures FragmentDecodes(v, buf, r)
    ensures r.Ok? ==> r.consumed <= |buf|
  {
    hide Chunks, Ascending, FirstUnsorted, IdsOf, Elements, FromU16;
    if |buf| < FRAGMENT_FIXED + 1 {
      return Err(MessageTooShort(FRAGMENT_FIXED + 1, |buf|));
    }
    var bounds: nat, checks: nat := buf[96], FromU16(buf[97], buf[98]);
    var size := v.decode(buf[FRAGMENT_FIXED..]);
    if size.None? {
      return Err(BadVarint(FRAGMENT_FIXED));
    }
    var offset, total := FRAGMENT_FIXED + size.value.1, bounds * 32 + checks * CHECKPOINT_BYTES;
    if |buf| < offset + total {
      return Err(BufferTooShort(offset, total, if |buf| < offset then 0 else |buf| - offset));
    }
    var p := ReadArrays(buf, offset, 32, bounds);
    var unsorted := VerifySorted(p);
    if unsorted.Some? {
      return Err(UnsortedArray(unsorted.value));
    }
    var q := ReadArrays(buf, offset + bounds * 32, CHECKPOINT_BYTES, checks);
    unsorted := VerifySorted(q);
    if unsorted.Some? {
      return Err(UnsortedArray(unsorted.value));
    }
    var summary := FragmentSummary(CommitId(buf[32..64]), IdsOf(p), BlobMeta(buf[64..96], size.value.0));
    r := Ok(Fragment(buf[..32], summary, Elements(q)), offset + total);
  }

  /** Which error a buffer leads to, and where the fields come from; the checkpoint count is big-endian. */
  lemma FragmentDecodesSo(v: Varint, buf: seq<Byte>, r: Decoded<Fragment>)
    requires FragmentDecodes(v, buf, r)
    ensures |buf| < 100 ==> r == Err(MessageTooShort(100, |buf|))
    ensures |buf| >= 100 && v.decode(buf[99..]).None? ==> r == Err(BadVarint(99))
    ensures |buf| >= 100 && v.decode(buf[99..]).Some? ==>
              var offset: nat, bounds: nat := 99 + v.decode(buf[99..]).value.1, buf[96];
              var hi: nat, lo: nat := buf[97], buf[98];
              var size := bounds * 32 + (hi * 256 + lo) * 12;
              |buf| < offset + size <==>
                r == Err(BufferTooShort(offset, size, if |buf| < offset then 0 else |buf| - offset))
    ensures r.Ok? ==> r.value.treeId == buf[..32] && r.value.Head().bytes == buf[32..64]
    ensures r.Ok? ==> r.value.summary.blobMeta.digest == buf[64..96]
  {
    hide Chunks, Ascending, FirstUnsorted, IdsOf;
  }

  lemma CheckpointsListed(s: set<Checkpoint>, size: nat)
    requires forall c :: c in s ==> |c| == size
    ensures AllSized(Listing(s), size) && |Listing(s)| == |s|
  {
    var q := Listing(s);
    AscendingCard(q);
    forall i | 0 <= i < |q| ensures |q[i]| == size {
      assert q[i] in Elements(q);
    }
  }

  /** Where the fields of an encoded fragment lie. */
  lemma FragmentParts(v: Varint, f: Fragment, suffix: seq<Byte>)
    requires FragmentSized(f)
    ensures var bounds, checks := Concat(Listing(IdBytes(f.Boundary()))), Concat(Listing(f.checkpoints));
            var code, buf := v.encode(f.summary.blobMeta.size), FragmentFields(v, f) + suffix;
            && |buf| == FRAGMENT_FIXED + |code| + |bounds| + |checks| + |suffix|
            && buf[..32] == f.treeId && buf[32..64] == f.Head().bytes && buf[64..96] == f.summary.blobMeta.digest
            && buf[96] == |f.Boundary()| % 256 && buf[97..99] == U16(|f.checkpoints|)
            && buf[FRAGMENT_FIXED..] == code + (bounds + (checks + suffix))
            && buf[FRAGMENT_FIXED + |code|..] == bounds + (checks + suffix)
            && buf[FRAGMENT_FIXED + |code| + |bounds|..] == checks + suffix
  {
    hide Listing, Concat, Header, U16;
    var bounds, checks := Concat(Listing(IdBytes(f.Boundary()))), Concat(Listing(f.checkpoints));
    var code, counts := v.encode(f.summary.blobMeta.size), [|f.Boundary()| % 256] + U16(|f.checkpoints|);
    var header := Header(f.treeId, f.Head(), f.summary.blobMeta.digest);
    U16Length(|f.checkpoints|);
    HeaderParts(f.treeId, f.Head(), f.summary.blobMeta.digest, counts + (code + (bounds + (checks + suffix))));
    HeaderParts(f.treeId, f.Head(), f.summary.blobMeta.digest, []);
    assert header + [] == header;
    CutFields(header, counts, code, bounds, checks, suffix);
    var buf := FragmentFields(v, f) + suffix;
    assert buf[96] == buf[96..99][0] && buf[97..99] == buf[96..99][1..];
  }

  lemma U16Length(n: nat)
    ensures |U16(n)| == 2
  {
  }

  /** Cutting a sum of fields at the field borders. */
  lemma CutFields(h: seq<Byte>, c: seq<Byte>, code: seq<Byte>, p: seq<Byte>, q: seq<Byte>, s: seq<Byte>)
    ensures var buf, a, b := h + (c + (code + (p + q))) + s, |h| + |c|, |h| + |c| + |code|;
            && buf == h + (c + (code + (p + (q + s))))
            && |buf| == b + |p| + |q| + |s|
            && buf[|h|..a] == c && buf[a..] == code + (p + (q + s))
            && buf[b..] == p + (q + s) && buf[b + |p|..] == q + s
  {
    var a, b, t := |h| + |c|, |h| + |c| + |code|, p + (q + s);
    var buf := h + (c + (code + t));
    assert h + (c + (code + (p + q))) + s == buf;
    assert buf[a..] == code + t;
    assert buf[b..] == t;
    assert buf[b + |p|..] == t[|p|..];
  }

  /**
   Round trip: decoding an encoded fragment, whatever follows it, gives the
   fragment back and consumes its size, if and only if it has at most 255 boundary
   commits and 65535 checkpoints.
   */
  lemma FragmentRoundTripIff(v: Varint, f: Fragment, suffix: seq<Byte>, r: Decoded<Fragment>)
    requires Lawful(v) && FragmentSized(f)
    requires FragmentDecodes(v, FragmentFields(v, f) + suffix, r)
    ensures |FragmentFields(v, f)| == FragmentFieldsSize(v, f)
    ensures r == Ok(f, FragmentFieldsSize(v, f)) <==> |f.Boundary()| <= 255 && |f.checkpoints| <= 65535
  {
    hide FragmentDecodes, FragmentSized, Lawful, Concat, Listing;
    var buf := FragmentFields(v, f) + suffix;
    FragmentLength(v, f);
    if |f.Boundary()| <= 255 && |f.checkpoints| <= 65535 {
      FragmentRoundTrip(v, f, suffix, r);
    } else if r.Ok? {
      DecodedCounts(v, buf, r);
    }
  }

  lemma FragmentLength(v: Varint, f: Fragment)
    requires FragmentSized(f)
    ensures |FragmentFields(v, f)| == FragmentFieldsSize(v, f)
  {
    hide Listing, Concat;
    IdsOfListing(f.Boundary());
    IdsAllSized(f.Boundary(), 32);
    CheckpointsListed(f.checkpoints, CHECKPOINT_BYTES);
    ConcatLength(Listing(IdBytes(f.Boundary())), 32);
    ConcatLength(Listing(f.checkpoints), CHECKPOINT_BYTES);
  }

  lemma FragmentRoundTrip(v: Varint, f: Fragment, suffix: seq<Byte>, r: Decoded<Fragment>)
    requires Lawful(v) && FragmentSized(f)
    requires |f.Boundary()| <= 255 && |f.checkpoints| <= 65535
    requires FragmentDecodes(v, FragmentFields(v, f) + suffix, r)
    ensures r == Ok(f, FragmentFieldsSize(v, f))
  {
    hide Chunks, Listing, Concat, Ascending, Lawful, FragmentDecodes, FragmentFields;
    var p, q := Listing(IdBytes(f.Boundary())), Listing(f.checkpoints);
    var size := f.summary.blobMeta.size;
    IdsOfListing(f.Boundary());
    IdsAllSized(f.Boundary(), 32);
    CheckpointsListed(f.checkpoints, CHECKPOINT_BYTES);
    ConcatLength(p, 32);
    ConcatLength(q, CHECKPOINT_BYTES);
    ChunksOfConcat(p, 32, Concat(q) + suffix);
    ChunksOfConcat(q, CHECKPOINT_BYTES, suffix);
    var buf := FragmentFields(v, f) + suffix;
    FragmentParts(v, f, suffix);
    VarintDecodes(v, size, Concat(p) + (Concat(q) + suffix));
    U16Value(buf, |f.checkpoints|);
    DecodesFrom(v, buf, size, |v.encode(size)|, p, q, r);
    assert f.Head() == CommitId(buf[32..64]);
  }

  /** The decoder's happy path, for any buffer cut into the right pieces. */
  lemma DecodesFrom(v: Varint, buf: seq<Byte>, size: nat, k: nat, p: seq<seq<Byte>>, q: seq<seq<Byte>>,
                    r: Decoded<Fragment>)
    requires FragmentDecodes(v, buf, r)
    requires |buf| >= FRAGMENT_FIXED + k + |p| * 32 + |q| * CHECKPOINT_BYTES && k > 0
    requires buf[96] == |p| && FromU16(buf[97], buf[98]) == |q|
    requires v.decode(buf[FRAGMENT_FIXED..]) == Some((size, k))
    requires Chunks(buf[FRAGMENT_FIXED + k..], 32, |p|) == p && Ascending(p)
    requires Chunks(buf[FRAGMENT_FIXED + k + |p| * 32..], CHECKPOINT_BYTES, |q|) == q && Ascending(q)
    ensures r == Ok(Fragment(buf[..32], FragmentSummary(CommitId(buf[32..64]), IdsOf(p), BlobMeta(buf[64..96], size)),
                             Elements(q)),
                    FRAGMENT_FIXED + k + |p| * 32 + |q| * CHECKPOINT_BYTES)
  {
    hide Chunks, Ascending;
  }

  lemma U16Value(buf: seq<Byte>, n: nat)
    requires |buf| >= 99 && buf[97..99] == U16(n)
    ensures FromU16(buf[97], buf[98]) <= 65535
    ensures n <= 65535 ==> FromU16(buf[97], buf[98]) == n
  {
    assert buf[97] == buf[97..99][0] && buf[98] == buf[97..99][1];
  }

  /** Decoded sets are no larger than their count fields can say. */
  lemma DecodedCounts(v: Varint, buf: seq<Byte>, r: Decoded<Fragment>)
    requires FragmentDecodes(v, buf, r) && r.Ok?
    ensures |r.value.Boundary()| <= 255 && |r.value.checkpoints| <= 65535
  {
    hide Chunks, Ascending, FirstUnsorted;
    var bounds: nat, checks: nat := buf[96], FromU16(buf[97], buf[98]);
    var k := v.decode(buf[FRAGMENT_FIXED..]).value.1;
    var offset := FRAGMENT_FIXED + k;
    IdsOfCount(Chunks(buf[offset..], 32, bounds));
    AscendingCard(Chunks(buf[offset + bounds * 32..], CHECKPOINT_BYTES, checks));
  }

  /** Canonicity: whatever decodes is the one encoding of its value, and no longer than the buffer. */
  lemma FragmentCanonical(v: Varint, buf: seq<Byte>, f: Fragment, n: nat)
    requires Lawful(v)
    requires FragmentDecodes(v, buf, Ok(f, n))
    ensures FragmentSized(f) && |f.Boundary()| <= 255 && |f.checkpoints| <= 65535
    ensures n == FragmentFieldsSize(v, f) <= |buf| && buf[..n] == FragmentFields(v, f)
  {
    hide Chunks, Listing, Concat, Ascending, Header, Lawful, FirstUnsorted, HeaderSized, FragmentFields, IdsOf, IdBytes;
    DecodedCounts(v, buf, Ok(f, n));
    var bounds: nat, checks: nat := buf[96], FromU16(buf[97], buf[98]);
    var (size, k) := v.decode(buf[FRAGMENT_FIXED..]).value;
    var offset := FRAGMENT_FIXED + k;
    var p, q := Chunks(buf[offset..], 32, bounds), Chunks(buf[offset + bounds * 32..], CHECKPOINT_BYTES, checks);
    ListingOfIds(p);
    IdsOfListing(f.Boundary());
    AscendingUnique(Listing(f.checkpoints), q);
    AscendingCard(q);
    VarintCanonical(v, buf[FRAGMENT_FIXED..]);
    ListsRejoin(buf, offset, bounds, checks);
    CountBytes(buf);
    Reassemble(buf, [buf[96]] + U16(checks), v.encode(size), Concat(p) + Concat(q));
    FieldsFrom(v, f, p, q);
    ChunksSized(p, q, f);
    HeaderIsSized(buf, f);
  }

  lemma FieldsFrom(v: Varint, f: Fragment, p: seq<seq<Byte>>, q: seq<seq<Byte>>)
    requires Listing(IdBytes(f.Boundary())) == p && |p| == |f.Boundary()| <= 255
    requires Listing(f.checkpoints) == q && |q| == |f.checkpoints|
    ensures FragmentFields(v, f) == Header(f.treeId, f.Head(), f.summary.blobMeta.digest)
              + (([|p|] + U16(|q|)) + (v.encode(f.summary.blobMeta.size) + (Concat(p) + Concat(q))))
  {
    hide Listing, Concat, Header;
  }

  lemma HeaderIsSized(buf: seq<Byte>, f: Fragment)
    requires |buf| >= 96 && f.treeId == buf[..32] && f.Head() == CommitId(buf[32..64])
    requires f.summary.blobMeta.digest == buf[64..96] && f.summary.blobMeta.size < U64_LIMIT
    ensures HeaderSized(f.treeId, f.Head(), f.summary.blobMeta)
  {
  }

  lemma ChunksSized(p: seq<seq<Byte>>, q: seq<seq<Byte>>, f: Fragment)
    requires AllSized(p, 32) && f.Boundary() == IdsOf(p)
    requires AllSized(q, CHECKPOINT_BYTES) && f.checkpoints == Elements(q)
    ensures forall b :: b in f.Boundary() ==> |b.bytes| == 32
    ensures forall c :: c in f.checkpoints ==> |c| == CHECKPOINT_BYTES
  {
  }

  lemma CountBytes(buf: seq<Byte>)
    requires |buf| >= 99
    ensures buf[96..99] == [buf[96]] + U16(FromU16(buf[97], buf[98]))
  {
  }

  /** Two adjacent lists of arrays cover the stretch of buffer they were read from. */
  lemma ListsRejoin(buf: seq<Byte>, offset: nat, bounds: nat, checks: nat)
    requires offset + bounds * 32 + checks * CHECKPOINT_BYTES <= |buf|
    ensures var p := Chunks(buf[offset..], 32, bounds);
            var q := Chunks(buf[offset + bounds * 32..], CHECKPOINT_BYTES, checks);
            && |Concat(p) + Concat(q)| == bounds * 32 + checks * CHECKPOINT_BYTES
            && buf[offset..][..bounds * 32 + checks * CHECKPOINT_BYTES] == Concat(p) + Concat(q)
  {
    hide Chunks, Concat;
    ConcatOfChunks(buf[offset..], 32, bounds);
    ConcatOfChunks(buf[offset + bounds * 32..], CHECKPOINT_BYTES, checks);
  }
}
