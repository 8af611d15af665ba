/**
 Reading a directory of equivocating items (`complete_pair_stems_sorted`,
 `read_first_meta_blob_pair_sync`, `read_first_meta_only_sync` in
 sedimentree_fs_storage/src/lib.rs): which item is picked, and why it is the one
 the in-memory tree keeps.
 */
module FsReaders {
  import opened Ids
  import opened Bytes
  import opened Trees
  import W = FsWriter

  // ----- Hexadecimal names keep the order of digests -----

  /** File names are byte strings, and compare as such. */
  type FileName = seq<Byte>

  /** The codes of '0' to '9' and 'a' to 'f'. */
  function HexDigit(n: nat): Byte
    requires n < 16
  {
    if n < 10 then 48 + n else 87 + n
  }

  function Hex(b: seq<Byte>): FileName {
    if b == [] then [] else [HexDigit(b[0] / 16), HexDigit(b[0] % 16)] + Hex(b[1..])
  }

  lemma HexDigitOrder(m: nat, n: nat)
    requires m < 16 && n < 16
    ensures HexDigit(m) < HexDigit(n) <==> m < n
    ensures HexDigit(m) == HexDigit(n) <==> m == n
  {
  }

  /** Sorting hexadecimal stems sorts the digests they stand for. */
  lemma {:induction false} HexOrder(a: seq<Byte>, b: seq<Byte>)
    ensures Less(Hex(a), Hex(b)) <==> Less(a, b)
  {
    if a != [] && b != [] {
      HexDigitOrder(a[0] / 16, b[0] / 16);
      HexDigitOrder(a[0] % 16, b[0] % 16);
      HexOrder(a[1..], b[1..]);
      var s, t := Hex(a), Hex(b);
      assert s[1..] == [HexDigit(a[0] % 16)] + Hex(a[1..]) && t[1..] == [HexDigit(b[0] % 16)] + Hex(b[1..]);
      assert s[1..][1..] == Hex(a[1..]) && t[1..][1..] == Hex(b[1..]);
      assert Less(s, t) <==> s[0] < t[0] || (s[0] == t[0] && Less(s[1..], t[1..]));
      assert Less(s[1..], t[1..]) <==> s[1] < t[1] || (s[1] == t[1] && Less(Hex(a[1..]), Hex(b[1..])));
    }
  }

  /** Two characters to a byte, '0' to '9' and 'a' to 'f'. */
  lemma {:induction false} HexIsHex(b: seq<Byte>)
    ensures |Hex(b)| == 2 * |b| && forall i :: 0 <= i < |Hex(b)| ==> 48 <= Hex(b)[i] <= 57 || 97 <= Hex(b)[i] <= 102
  {
    if b != [] {
      HexIsHex(b[1..]);
    }
  }

  lemma HexInjective(a: seq<Byte>, b: seq<Byte>)
    requires Hex(a) == Hex(b)
    ensures a == b
  {
    LessTotal(a, b);
    HexOrder(a, b);
    HexOrder(b, a);
    LessTotal(Hex(a), Hex(b));
  }

  // ----- Listing a directory -----

  const META: FileName := [46, 109, 101, 116, 97]    // ".meta"
  const BLOB: FileName := [46, 98, 108, 111, 98]     // ".blob"

  predicate HasSuffix(name: FileName, suffix: FileName) {
    |suffix| <= |name| && name[|name| - |suffix|..] == suffix
  }

  /** The stems of complete pairs. */
  predicate CompleteStem(names: set<FileName>, stem: FileName) {
    stem + META in names && stem + BLOB in names
  }

  ghost predicate Sorted(q: seq<FileName>) {
    forall i, j :: 0 <= i < j < |q| ==> q[i] == q[j] || Less(q[i], q[j])
  }

  /** Insert into a sorted list. */
  method InsertSorted(q: seq<FileName>, x: FileName) returns (r: seq<FileName>)
    requires Sorted(q)
    ensures Sorted(r)
    ensures forall y :: y in r <==> y in q || y == x
  {
    var i := 0;
    while i < |q| && Less(q[i], x)
      invariant 0 <= i <= |q|
      invariant forall j :: 0 <= j < i ==> Less(q[j], x)
    {
      i := i + 1;
    }
    r := q[..i] + [x] + q[i..];
    forall j | i <= j < |q| ensures x == q[j] || Less(x, q[j]) {
      LessTotal(q[i], x);
      if j > i && Less(x, q[i]) && q[i] != q[j] {
        LessTransitive(x, q[i], q[j]);
      }
    }
    forall y ensures y in r <==> y in q || y == x {
      assert q == q[..i] + q[i..];
    }
  }

  /** Stems of every complete pair in a listing, ascending, whatever the order of the listing. */
  method CompletePairStemsSorted(names: seq<FileName>) returns (stems: seq<FileName>)
    ensures Sorted(stems)
    ensures forall s :: s in stems <==> CompleteStem(Elements(names), s)
  {
    stems := [];
    for i := 0 to |names|
      invariant Sorted(stems)
      invariant forall s :: s in stems <==> s + META in names[..i] && s + BLOB in names
    {
      var name := names[i];
      assert forall n :: n in names[..i + 1] <==> n in names[..i] || n == name;
      if HasSuffix(name, META) {
        var stem := name[..|name| - |META|];
        assert stem + META == name;
        forall s | s + META == name ensures s == stem {
          assert (s + META)[..|s + META| - |META|] == s;
        }
        if stem + BLOB in names {
          stems := InsertSorted(stems, stem);
        }
      } else {
        forall s ensures s + META != name {
          assert HasSuffix(s + META, META);
        }
      }
    }
    assert names[..|names|] == names;
  }

  type Directory = map<FileName, seq<Byte>>

  /** The smallest complete stem. */
  ghost predicate FirstStem(names: set<FileName>, stem: FileName) {
    CompleteStem(names, stem) && forall s :: CompleteStem(names, s) && s != stem ==> Less(stem, s)
  }

  // ----- The two readers -----

  /** Reading a file that was listed: by then it may be gone, or unreadable. */
  datatype Read = Content(bytes: seq<Byte>) | Gone | Unreadable

  type Reads = FileName -> Read

  datatype Pick<T> = Nothing | Picked(value: T) | Broken

  /** What the full reader makes of one stem; nothing if a file of the pair is gone. */
  function PairAt(read: Reads, s: FileName): Pick<(seq<Byte>, seq<Byte>)> {
    match read(s + META)
    case Gone => Nothing
    case Unreadable => Broken
    case Content(meta) =>
      match read(s + BLOB)
      case Gone => Nothing
      case Unreadable => Broken
      case Content(blob) => Picked((meta, blob))
  }

  function MetaAt(read: Reads, s: FileName): Pick<seq<Byte>> {
    match read(s + META)
    case Gone => Nothing
    case Unreadable => Broken
    case Content(meta) => Picked(meta)
  }

  /** The smallest complete stem that does not come to nothing. */
  ghost predicate FirstAnswering<T>(names: set<FileName>, at: FileName -> Pick<T>, s: FileName) {
    && CompleteStem(names, s) && !at(s).Nothing?
    && forall t :: CompleteStem(names, t) && Less(t, s) ==> at(t).Nothing?
  }

  /** A reader's answer: that of the smallest answering stem, or nothing if none answers. */
  ghost predicate Answers<T>(names: set<FileName>, at: FileName -> Pick<T>, r: Pick<T>) {
    && (forall s :: FirstAnswering(names, at, s) ==> r == at(s))
    && (r.Nothing? <==> forall s :: CompleteStem(names, s) ==> at(s).Nothing?)
  }

  lemma FirstAnswer<T>(names: set<FileName>, stems: seq<FileName>, at: FileName -> Pick<T>, i: nat)
    requires Sorted(stems) && i <= |stems|
    requires forall s :: s in stems <==> CompleteStem(names, s)
    requires forall j :: 0 <= j < i ==> at(stems[j]).Nothing?
    requires i < |stems| ==> !at(stems[i]).Nothing?
    ensures Answers(names, at, if i < |stems| then at(stems[i]) else Nothing)
  {
    forall s | FirstAnswering(names, at, s) ensures i < |stems| && s == stems[i] {
      var j :| 0 <= j < |stems| && stems[j] == s;
    }
    if i < |stems| {
      assert CompleteStem(names, stems[i]);
    }
  }

  // What the readers answer, in terms of what they read.

  ghost predicate PairGone(read: Reads, s: FileName) {
    read(s + META).Gone? || (read(s + META).Content? && read(s + BLOB).Gone?)
  }

  /** The smallest complete stem of which, by `gone`, something is left. */
  ghost predicate FirstLeft(names: set<FileName>, gone: FileName -> bool, s: FileName) {
    CompleteStem(names, s) && !gone(s) && forall t :: CompleteStem(names, t) && Less(t, s) ==> gone(t)
  }

  /** A pair is what was read under the first stem left, broken means that a file there cannot be read. */
  ghost predicate ReadsPair(names: set<FileName>, read: Reads, r: Pick<(seq<Byte>, seq<Byte>)>) {
    match r
    case Nothing => forall s :: CompleteStem(names, s) ==> PairGone(read, s)
    case Picked(v) => exists s :: FirstLeft(names, t => PairGone(read, t), s)
                                  && read(s + META) == Content(v.0) && read(s + BLOB) == Content(v.1)
    case Broken => exists s :: FirstLeft(names, t => PairGone(read, t), s)
                               && (read(s + META).Unreadable? || read(s + BLOB).Unreadable?)
  }

  ghost predicate ReadsMeta(names: set<FileName>, read: Reads, r: Pick<seq<Byte>>) {
    match r
    case Nothing => forall s :: CompleteStem(names, s) ==> read(s + META).Gone?
    case Picked(v) => exists s :: FirstLeft(names, t => read(t + META).Gone?, s) && read(s + META) == Content(v)
    case Broken => exists s :: FirstLeft(names, t => read(t + META).Gone?, s) && read(s + META).Unreadable?
  }

  lemma FullReads(names: set<FileName>, read: Reads, r: Pick<(seq<Byte>, seq<Byte>)>)
    requires Answers(names, s => PairAt(read, s), r)
    ensures ReadsPair(names, read, r)
  {
    var at := s => PairAt(read, s);
    assert forall s :: at(s).Nothing? <==> PairGone(read, s);
    if !r.Nothing? {
      var t :| CompleteStem(names, t) && !at(t).Nothing?;
      var s := LeastStem(names, u => !at(u).Nothing?, t);
      assert FirstAnswering(names, at, s);
      assert FirstLeft(names, u => PairGone(read, u), s);
    }
  }

  lemma MetaReads(names: set<FileName>, read: Reads, r: Pick<seq<Byte>>)
    requires Answers(names, s => MetaAt(read, s), r)
    ensures ReadsMeta(names, read, r)
  {
    var at := s => MetaAt(read, s);
    assert forall s :: at(s).Nothing? <==> read(s + META).Gone?;
    if !r.Nothing? {
      var t :| CompleteStem(names, t) && !at(t).Nothing?;
      var s := LeastStem(names, u => !at(u).Nothing?, t);
      assert FirstAnswering(names, at, s);
      assert FirstLeft(names, u => read(u + META).Gone?, s);
    }
  }

  /** Read the pair of the smallest complete stem; pairs that vanished since the listing are passed over. */
  method ReadFirstPair(listing: Option<seq<FileName>>, read: Reads) returns (r: Pick<(seq<Byte>, seq<Byte>)>)
    ensures listing.None? ==> r == Nothing
    ensures listing.Some? ==> Answers(Elements(listing.value), s => PairAt(read, s), r)
    ensures listing.Some? ==> ReadsPair(Elements(listing.value), read, r)
  {
    if listing.None? {
      return Nothing;
    }
    var stems := CompletePairStemsSorted(listing.value);
    ghost var at := s => PairAt(read, s);
    for i := 0 to |stems|
      invariant forall j :: 0 <= j < i ==> at(stems[j]).Nothing?
    {
      r := PairAt(read, stems[i]);
      if !r.Nothing? {
        FirstAnswer(Elements(listing.value), stems, at, i);
        FullReads(Elements(listing.value), read, r);
        return;
      }
    }
    r := Nothing;
    FirstAnswer(Elements(listing.value), stems, at, |stems|);
    FullReads(Elements(listing.value), read, r);
  }

  /** Read only the meta file of the smallest complete stem. */
  method ReadFirstMeta(listing: Option<seq<FileName>>, read: Reads) returns (r: Pick<seq<Byte>>)
    ensures listing.None? ==> r == Nothing
    ensures listing.Some? ==> Answers(Elements(listing.value), s => MetaAt(read, s), r)
    ensures listing.Some? ==> ReadsMeta(Elements(listing.value), read, r)
  {
    if listing.None? {
      return Nothing;
    }
    var stems := CompletePairStemsSorted(listing.value);
    ghost var at := s => MetaAt(read, s);
    for i := 0 to |stems|
      invariant forall j :: 0 <= j < i ==> at(stems[j]).Nothing?
    {
      r := MetaAt(read, stems[i]);
      if !r.Nothing? {
        FirstAnswer(Elements(listing.value), stems, at, i);
        MetaReads(Elements(listing.value), read, r);
        return;
      }
    }
    r := Nothing;
    FirstAnswer(Elements(listing.value), stems, at, |stems|);
    MetaReads(Elements(listing.value), read, r);
  }

  /** The files of a directory that stays as it is. */
  function ReadFrom(dir: Directory): Reads {
    n => if n in dir then Content(dir[n]) else Gone
  }

  ghost predicate FullAnswersFrom(names: set<FileName>, read: Reads, s: FileName) {
    FirstAnswering(names, t => PairAt(read, t), s)
  }

  ghost predicate MetaAnswersFrom(names: set<FileName>, read: Reads, s: FileName) {
    FirstAnswering(names, t => MetaAt(read, t), s)
  }

  /** The smallest complete stem whose meta file is not gone has its blob too, unless its meta cannot be read. */
  ghost predicate FirstMetaHasBlob(names: set<FileName>, read: Reads) {
    forall s :: MetaAnswersFrom(names, read, s) && read(s + META).Content? ==> !read(s + BLOB).Gone?
  }

  /** Of the complete stems with some property there is a smallest. */
  lemma LeastStem(names: set<FileName>, p: FileName -> bool, t: FileName) returns (s: FileName)
    requires CompleteStem(names, t) && p(t)
    ensures CompleteStem(names, s) && p(s) && (s == t || Less(s, t))
    ensures forall u :: CompleteStem(names, u) && p(u) ==> !Less(u, s)
  {
    var stems := set n | n in names && HasSuffix(n, META) :: n[..|n| - |META|];
    forall u | CompleteStem(names, u) ensures u in stems {
      assert HasSuffix(u + META, META) && (u + META)[..|u + META| - |META|] == u;
    }
    var some := set u | u in stems && CompleteStem(names, u) && p(u);
    assert t in some;
    s := LeastExists(some);
    forall u | u in some ensures !Less(u, s) {
      LessTotal(u, s);
    }
  }

  /** Whatever happens between listing and reading, the readers answer from the same stem exactly in this case. */
  lemma SameStemIff(names: set<FileName>, read: Reads)
    ensures FirstMetaHasBlob(names, read) <==>
            forall s :: FullAnswersFrom(names, read, s) <==> MetaAnswersFrom(names, read, s)
  {
    var pair, only := t => PairAt(read, t), t => MetaAt(read, t);
    assert forall t :: only(t).Nothing? ==> pair(t).Nothing?;
    if FirstMetaHasBlob(names, read) {
      forall s ensures FullAnswersFrom(names, read, s) <==> MetaAnswersFrom(names, read, s) {
        if FullAnswersFrom(names, read, s) {
          var first := LeastStem(names, t => !only(t).Nothing?, s);
          assert MetaAnswersFrom(names, read, first);
          assert !pair(first).Nothing?;
        }
      }
    }
  }

  /**
   On a directory that stays as it is, both readers answer with the smallest
   complete stem, and with nothing exactly if there is none.
   */
  lemma ReadersAgree(dir: Directory, full: Pick<(seq<Byte>, seq<Byte>)>, meta: Pick<seq<Byte>>)
    requires Answers(dir.Keys, s => PairAt(ReadFrom(dir), s), full)
    requires Answers(dir.Keys, s => MetaAt(ReadFrom(dir), s), meta)
    ensures FirstMetaHasBlob(dir.Keys, ReadFrom(dir))
    ensures forall s :: FirstStem(dir.Keys, s) ==>
              full == Picked((dir[s + META], dir[s + BLOB])) && meta == Picked(dir[s + META])
    ensures full.Nothing? <==> forall s :: !CompleteStem(dir.Keys, s)
    ensures meta.Nothing? <==> full.Nothing?
  {
    var pair, only := s => PairAt(ReadFrom(dir), s), s => MetaAt(ReadFrom(dir), s);
    SameStemIff(dir.Keys, ReadFrom(dir));
    forall s | FirstStem(dir.Keys, s) ensures MetaAnswersFrom(dir.Keys, ReadFrom(dir), s) {
      forall t | CompleteStem(dir.Keys, t) && Less(t, s) ensures false {
        LessTotal(s, t);
      }
    }
    assert forall s :: CompleteStem(dir.Keys, s) ==> !pair(s).Nothing? && !only(s).Nothing?;
  }

  /** A blob that vanishes between listing and reading parts the two readers. */
  lemma VanishedBlobParts(s: FileName, meta: seq<Byte>)
    ensures var names := {s + META, s + BLOB};
            var read := n => if n == s + META then Content(meta) else Gone;
            && Answers(names, t => PairAt(read, t), Nothing)
            && Answers(names, t => MetaAt(read, t), Picked(meta))
            && !FirstMetaHasBlob(names, read)
  {
    var names := {s + META, s + BLOB};
    forall t | CompleteStem(names, t) ensures t == s {
      assert |t| == |s| && (t + META)[..|t|] == t && (s + META)[..|s|] == s && (s + BLOB)[..|s|] == s;
    }
    assert (s + META)[|s| + 1] != (s + BLOB)[|s| + 1];
    assert CompleteStem(names, s);
    LessTotal(s, s);
    var read := n => if n == s + META then Content(meta) else Gone;
    assert MetaAnswersFrom(names, read, s);
  }

  // ----- The item picked is the item the tree keeps -----

  /** The directory holds the pairs of `items` under their digests, and no other complete pair. */
  ghost predicate HoldsPairs<V(!new)>(dir: Directory, items: set<V>, hash: V -> seq<Byte>) {
    && (forall v :: v in items ==> CompleteStem(dir.Keys, Hex(hash(v))))
    && (forall s :: CompleteStem(dir.Keys, s) ==> exists v :: v in items && s == Hex(hash(v)))
  }

  /**
   However many equivocating items were saved under one identity, the stem both
   readers pick is that of the item a tree given all of them keeps.
   */
  lemma PickIsWhatTreeKeeps<V(!new)>(dir: Directory, items: set<V>, hash: V -> seq<Byte>, digest: V -> nat,
                                     head: V -> CommitId, id: CommitId, m: map<CommitId, V>)
    requires items != {}
    requires forall v :: v in items ==> head(v) == id && |hash(v)| == 32 && digest(v) == BigEndian(hash(v))
    requires HoldsPairs(dir, items, hash)
    requires HoldsLowest(digest, head, m, items)
    ensures id in m && FirstStem(dir.Keys, Hex(hash(m[id])))
  {
    var v :| v in items;
    assert head(v) in m;
    var kept := m[id];
    forall s | CompleteStem(dir.Keys, s) && s != Hex(hash(kept)) ensures Less(Hex(hash(kept)), s) {
      var w :| w in items && s == Hex(hash(w));
      LessTotal(hash(kept), hash(w));
      BigEndianOrder(hash(w), hash(kept));
      HexOrder(hash(kept), hash(w));
    }
  }

  // ----- Reading what a crash left -----

  function Suffix(k: W.Kind): FileName {
    match k case Meta => META case Blob => BLOB
  }

  /** `d` lists directory `dir` of the disk: names with a pair's suffix are the final names. */
  ghost predicate Lists(d: Directory, dir: nat, after: map<W.Name, seq<Byte>>) {
    forall s, k :: s + Suffix(k) in d ==> exists p :: FiledAs(d, dir, after, s, k, p)
  }

  ghost predicate FiledAs(d: Directory, dir: nat, after: map<W.Name, seq<Byte>>, s: FileName, k: W.Kind, p: W.Path) {
    && s + Suffix(k) in d && p.dir == dir && Hex(p.stem) == s
    && W.Final(p, k) in after && d[s + Suffix(k)] == after[W.Final(p, k)]
  }

  /**
   After any crash the readers find a whole pair of one path, or nothing; where
   paths are content addresses, both halves belong to one item.
   */
  lemma CrashedReadIsWhole(saved: W.Saved, img: W.Image, after: map<W.Name, seq<Byte>>, dir: nat, d: Directory,
                           s: FileName)
    returns (i: W.Item, j: W.Item)
    requires W.Safe(saved, img) && W.CrashOutcome(img, after)
    requires Lists(d, dir, after) && FirstStem(d.Keys, s)
    ensures i in saved.items && j in saved.items && i.path == j.path && i.path.dir == dir && Hex(i.path.stem) == s
    ensures d[s + META] == i.meta && d[s + BLOB] == j.blob
    ensures W.ContentAddressed(saved.items) ==> i == j
  {
    W.CrashKeepsWhole(saved, img, after);
    assert s + Suffix(W.Meta) in d && s + Suffix(W.Blob) in d;
    var p :| FiledAs(d, dir, after, s, W.Meta, p);
    var q :| FiledAs(d, dir, after, s, W.Blob, q);
    HexInjective(p.stem, q.stem);
    assert W.Whole(saved.items, W.Final(p, W.Meta), after[W.Final(p, W.Meta)]);
    assert W.Whole(saved.items, W.Final(q, W.Blob), after[W.Final(q, W.Blob)]);
    i :| i in saved.items && i.path == p && after[W.Final(p, W.Meta)] == i.meta;
    j :| j in saved.items && j.path == q && after[W.Final(q, W.Blob)] == j.blob;
    if W.ContentAddressed(saved.items) {
      j := i;
    }
  }
}
