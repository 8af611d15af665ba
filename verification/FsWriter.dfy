/**
 The compound write protocol of the filesystem storage
 (sedimentree_fs_storage/src/lib.rs): stage both files, sync them, rename blob
 before meta, sync the directory; with a crash possible after every call.
 */
module FsWriter {
  import opened Ids

  /** The identity directory and digest that a pair of files is filed under. */
  datatype Path = Path(dir: nat, stem: seq<Byte>)

  datatype Kind = Meta | Blob

  datatype Name =
    | Final(path: Path, kind: Kind)
    | Temp(path: Path, nonce: nat, kind: Kind)

  /** A file as a process sees it; until synced its bytes may not survive a crash. */
  datatype Entry = Entry(data: seq<Byte>, synced: bool)

  datatype Item = Item(path: Path, meta: seq<Byte>, blob: seq<Byte>)

  function Data(i: Item, k: Kind): seq<Byte> {
    match k case Meta => i.meta case Blob => i.blob
  }

  /**
   A state of the disk: the files in view, the directory entries as of the last
   sync of their directory, and the files linked to each final name since.
   */
  datatype Image = Image(files: map<Name, Entry>, durable: map<Name, Entry>, pending: map<Name, set<Entry>>)

  /** `data` is the full content that some saved item has under this name. */
  ghost predicate Whole(items: set<Item>, n: Name, data: seq<Byte>) {
    exists i :: i in items && i.path == n.path && data == Data(i, n.kind)
  }

  ghost predicate WholeEntry(items: set<Item>, n: Name, e: Entry) {
    e.synced && Whole(items, n, e.data)
  }

  /** A meta file in view means that its blob is in view too. */
  ghost predicate MetaMarksBlob(files: map<Name, Entry>) {
    forall p: Path {:trigger Final(p, Meta)} :: Final(p, Meta) in files ==> Final(p, Blob) in files
  }

  /**
   The items ever saved, and whether the disk started out with every meta file
   marking a blob; a crash may break that, and only a new save repairs it.
   */
  datatype Saved = Saved(items: set<Item>, marked: bool)

  /** Nothing but full, synced content is, was or may be linked to a final name. */
  ghost predicate Safe(saved: Saved, img: Image) {
    && (forall n :: n in img.files && n.Final? ==> WholeEntry(saved.items, n, img.files[n]))
    && (forall n :: n in img.durable ==> n.Final? && WholeEntry(saved.items, n, img.durable[n]))
    && (forall n, e :: n in img.pending && e in img.pending[n] ==> n.Final? && WholeEntry(saved.items, n, e))
    && (saved.marked ==> MetaMarksBlob(img.files))
  }

  /**
   What a crash may leave behind.  Each final name is as it was at the last sync of
   its directory, or as any rename since left it, independently of the others; an
   entry that was durable does not vanish; unsynced bytes and temporary files may
   be anything.
   */
  ghost predicate CrashOutcome(img: Image, after: map<Name, seq<Byte>>) {
    && (forall n :: n in img.durable ==> n in after)
    && (forall n :: n in after && n.Final? ==> exists e :: MayRemain(img, n, e) && (e.synced ==> after[n] == e.data))
  }

  ghost predicate MayRemain(img: Image, n: Name, e: Entry) {
    (n in img.durable && img.durable[n] == e) || (n in img.pending && e in img.pending[n])
  }

  /** The disk as the next process finds it. */
  function Rebooted(after: map<Name, seq<Byte>>): Image {
    var files := map n | n in after :: Entry(after[n], true);
    Image(files, map n | n in files && n.Final? :: files[n], map[])
  }

  /** Each final name on its own may keep its durable entry or any rename since. */
  lemma AnyMixSurvives(img: Image, keep: map<Name, Entry>)
    requires img.durable.Keys <= keep.Keys
    requires forall n :: n in keep ==> n.Final?
    requires forall n :: n in keep ==>
               (n in img.durable && img.durable[n] == keep[n]) || (n in img.pending && keep[n] in img.pending[n])
    ensures CrashOutcome(img, map n | n in keep :: keep[n].data)
  {
    forall n | n in keep ensures MayRemain(img, n, keep[n]) {
    }
  }

  /** After a crash every file under a final name has full content, and the disk is safe again. */
  lemma CrashKeepsWhole(saved: Saved, img: Image, after: map<Name, seq<Byte>>)
    requires Safe(saved, img) && CrashOutcome(img, after)
    ensures forall n :: n in after && n.Final? ==> Whole(saved.items, n, after[n])
    ensures Safe(saved.(marked := false), Rebooted(after))
  {
    forall n | n in after && n.Final? ensures Whole(saved.items, n, after[n]) {
      var e :| MayRemain(img, n, e) && (e.synced ==> after[n] == e.data);
      assert WholeEntry(saved.items, n, e);
    }
  }

  /** The file of kind `k` is durable with the item's content, and no rename to it is outstanding. */
  ghost predicate SettledFile(img: Image, i: Item, k: Kind) {
    var n := Final(i.path, k);
    n in img.durable && img.durable[n] == Entry(Data(i, k), true) && n !in img.pending
  }

  ghost predicate Settled(img: Image, i: Item) {
    SettledFile(img, i, Meta) && SettledFile(img, i, Blob)
  }

  /** A settled pair survives every crash as it is. */
  lemma SettledSurvives(img: Image, i: Item, after: map<Name, seq<Byte>>, k: Kind)
    requires Settled(img, i) && CrashOutcome(img, after)
    ensures Final(i.path, k) in after && after[Final(i.path, k)] == Data(i, k)
  {
    var n := Final(i.path, k);
    assert SettledFile(img, i, k);
    var e :| MayRemain(img, n, e) && (e.synced ==> after[n] == e.data);
  }

  /** One more file has been linked to the name since its directory was synced. */
  ghost function Linked(pending: map<Name, set<Entry>>, n: Name, e: Entry): map<Name, set<Entry>> {
    pending[n := (if n in pending then pending[n] else {}) + {e}]
  }

  /** System calls.  Each may fail, and each leaves one more image in the history. */
  class Disk {
    var files: map<Name, Entry>
    ghost var durable: map<Name, Entry>
    ghost var pending: map<Name, set<Entry>>
    ghost var history: seq<Image>
    ghost var faulted: bool   // some system call has failed

    ghost function Now(): Image
      reads this
    {
      Image(files, durable, pending)
    }

    /** Every image since `start` is safe, the present one included. */
    ghost predicate SafeSince(saved: Saved, start: nat)
      reads this
    {
      && start <= |history|
      && Safe(saved, Now())
      && forall k :: start <= k < |history| ==> Safe(saved, history[k])
    }

    constructor ()
      ensures files == map[] && durable == map[] && pending == map[] && history == [] && !faulted
    {
      files, durable, pending, history, faulted := map[], map[], map[], [], false;
    }

    /** The disk a process finds after a crash. */
    constructor Boot(after: map<Name, seq<Byte>>)
      ensures Now() == Rebooted(after) && history == [] && !faulted
    {
      files, durable, pending := Rebooted(after).files, Rebooted(after).durable, Rebooted(after).pending;
      history, faulted := [], false;
    }

    /** Create or truncate a temporary file; a failure may leave it with any content. */
    method Write(n: Name, data: seq<Byte>, ghost saved: Saved, ghost start: nat) returns (ok: bool)
      requires n.Temp? && SafeSince(saved, start)
      modifies this
      ensures SafeSince(saved, start) && history == old(history) + [Now()]
      ensures faulted == (old(faulted) || !ok)
      ensures durable == old(durable) && pending == old(pending)
      ensures forall m :: m != n ==> (m in files <==> m in old(files)) && (m in files ==> files[m] == old(files)[m])
      ensures ok ==> n in files && files[n] == Entry(data, false)
    {
      if * {
        files := files[n := Entry(data, false)];
        ok := true;
      } else {
        if * {
          var written :| 0 <= written <= |data|;
          files := files[n := Entry(data[..written], false)];
        }
        ok := false;
      }
      history, faulted := history + [Now()], faulted || !ok;
    }

    method Fsync(n: Name, ghost saved: Saved, ghost start: nat) returns (ok: bool)
      requires SafeSince(saved, start)
      modifies this
      ensures SafeSince(saved, start) && history == old(history) + [Now()]
      ensures faulted == (old(faulted) || !ok)
      ensures durable == old(durable) && pending == old(pending)
      ensures files.Keys == old(files).Keys
      ensures forall m :: m in files ==>
                files[m].data == old(files)[m].data && (old(files)[m].synced ==> files[m].synced)
      ensures ok ==> n in files && files[n].synced
    {
      ok := *;
      ok := ok && n in files;
      if ok {
        files := files[n := files[n].(synced := true)];
      }
      history, faulted := history + [Now()], faulted || !ok;
    }

    /** Rename a synced temporary file of full content to its final name. */
    method Rename(from: Name, to: Name, ghost saved: Saved, ghost start: nat) returns (ok: bool)
      requires SafeSince(saved, start)
      requires from.Temp? && to.Final? && from in files && WholeEntry(saved.items, to, files[from])
      requires saved.marked && to.kind == Meta ==> Final(to.path, Blob) in files
      modifies this
      ensures SafeSince(saved, start) && history == old(history) + [Now()]
      ensures faulted == (old(faulted) || !ok)
      ensures durable == old(durable)
      ensures !ok ==> files == old(files) && pending == old(pending)
      ensures ok ==> files == (old(files) - {from})[to := old(files)[from]]
      ensures ok ==> pending == Linked(old(pending), to, old(files)[from])
      ensures ok ==> to in pending && old(files)[from] in pending[to]
      ensures ok && to in old(pending) ==> old(pending)[to] <= pending[to]
    {
      ok := false;
      if * {
        pending := Linked(pending, to, files[from]);
        files := (files - {from})[to := files[from]];
        ok := true;
      }
      history, faulted := history + [Now()], faulted || !ok;
    }

    /** Best-effort removal of a temporary file. */
    method Remove(n: Name, ghost saved: Saved, ghost start: nat)
      requires n.Temp? && SafeSince(saved, start)
      modifies this
      ensures SafeSince(saved, start) && history == old(history) + [Now()]
      ensures faulted == old(faulted)
      ensures durable == old(durable) && pending == old(pending)
      ensures files == old(files) || files == old(files) - {n}
    {
      if * {
        files := files - {n};
      }
      history := history + [Now()];
    }

    /** Make the entries of one directory durable. */
    method FsyncDir(dir: nat, ghost saved: Saved, ghost start: nat) returns (ok: bool)
      requires SafeSince(saved, start)
      modifies this
      ensures SafeSince(saved, start) && history == old(history) + [Now()]
      ensures faulted == (old(faulted) || !ok)
      ensures Now() == if ok then DirSynced(old(Now()), dir) else old(Now())
    {
      hide Safe;
      DirSyncedSafe(saved, Now(), dir);
      ok := *;
      if ok {
        ghost var next := DirSynced(Now(), dir);
        durable, pending := next.durable, next.pending;
      }
      history, faulted := history + [Now()], faulted || !ok;
    }
  }

  ghost function DirSynced(img: Image, dir: nat): Image {
    img.(durable := map n | n in img.durable.Keys + img.files.Keys && InDurable(img, dir, n) ::
                      if n.path.dir == dir then img.files[n] else img.durable[n],
         pending := map n | n in img.pending && n.path.dir != dir :: img.pending[n])
  }

  ghost predicate InDurable(img: Image, dir: nat, n: Name) {
    if n.path.dir == dir then n.Final? && n in img.files else n in img.durable
  }

  lemma DirSyncedSafe(saved: Saved, img: Image, dir: nat)
    ensures Safe(saved, img) ==> Safe(saved, DirSynced(img, dir))
  {
    hide WholeEntry;
  }

  // ----- The writer -----

  /** Temporary files written, but not yet synced or renamed, for one item. */
  datatype Staged = Staged(item: Item, nonce: nat) {
    function Temporary(k: Kind): Name { Temp(item.path, nonce, k) }

    ghost predicate HeldFile(files: map<Name, Entry>, synced: bool, k: Kind) {
      Temporary(k) in files && files[Temporary(k)].data == Data(item, k) && (synced ==> files[Temporary(k)].synced)
    }

    ghost predicate Held(files: map<Name, Entry>, synced: bool) {
      HeldFile(files, synced, Meta) && HeldFile(files, synced, Blob)
    }
  }

  datatype Outcome = Written | Skipped | Failed

  ghost predicate FileInView(items: set<Item>, files: map<Name, Entry>, n: Name) {
    n in files && Whole(items, n, files[n].data)
  }

  /** A path is the digest of a payload that fixes the blob: items of one path have one blob. */
  ghost predicate ContentAddressed(items: set<Item>) {
    forall i, j :: i in items && j in items && i.path == j.path ==> i.blob == j.blob
  }

  /** The two halves are those of a single saved item. */
  ghost predicate OneItem(items: set<Item>, path: Path, meta: seq<Byte>, blob: seq<Byte>) {
    exists i :: i in items && i == Item(path, meta, blob)
  }

  /** Both final files are in view with full content, and under content addressing they are one item's. */
  ghost predicate PairInView(items: set<Item>, files: map<Name, Entry>, path: Path) {
    && FileInView(items, files, Final(path, Meta)) && FileInView(items, files, Final(path, Blob))
    && (ContentAddressed(items) ==> OneItem(items, path, files[Final(path, Meta)].data, files[Final(path, Blob)].data))
  }

  lemma WholeHalves(items: set<Item>, path: Path, meta: seq<Byte>, blob: seq<Byte>)
    requires Whole(items, Final(path, Meta), meta) && Whole(items, Final(path, Blob), blob)
    ensures ContentAddressed(items) ==> OneItem(items, path, meta, blob)
  {
    var i :| i in items && i.path == path && meta == i.meta;
    var j :| j in items && j.path == path && blob == j.blob;
    assert i == Item(path, i.meta, i.blob);
  }

  ghost predicate FileDurable(items: set<Item>, img: Image, n: Name) {
    n in img.durable && WholeEntry(items, n, img.durable[n]) && n !in img.pending
  }

  /** Both final files are durable as above, and no rename is outstanding. */
  ghost predicate PairDurable(items: set<Item>, img: Image, path: Path) {
    FileDurable(items, img, Final(path, Meta)) && FileDurable(items, img, Final(path, Blob))
    && PairInView(items, img.durable, path)
  }

  /** Is the existing pair intact, judged by its lengths? */
  predicate LooksIntact(files: map<Name, Entry>, i: Item) {
    && Final(i.path, Meta) in files && |files[Final(i.path, Meta)].data| == |i.meta|
    && Final(i.path, Blob) in files && |files[Final(i.path, Blob)].data| == |i.blob|
  }

  /** The final file of kind `k` is in view with the item's content, synced. */
  ghost predicate Placed(files: map<Name, Entry>, i: Item, k: Kind) {
    Final(i.path, k) in files && files[Final(i.path, k)] == Entry(Data(i, k), true)
  }

  class Writer {
    const disk: Disk
    var nonce: nat

    constructor (disk: Disk)
      ensures this.disk == disk && nonce == 0
    {
      this.disk := disk;
      nonce := 0;
    }

    /** Check for an intact pair; if there is none, write both temporary files. */
    method Stage(i: Item, ghost saved: Saved, ghost start: nat) returns (r: Outcome, s: Staged)
      requires disk.SafeSince(saved, start)
      modifies this, disk
      ensures disk.SafeSince(saved, start)
      ensures disk.durable == old(disk.durable) && disk.pending == old(disk.pending)
      ensures disk.faulted == (old(disk.faulted) || r == Failed)
      ensures s == Staged(i, old(nonce)) && old(nonce) <= nonce
      ensures r == Skipped <==> LooksIntact(old(disk.files), i)
      ensures r == Skipped ==> disk.files == old(disk.files)
      ensures r == Written ==> s.Held(disk.files, false) && nonce == old(nonce) + 1
      ensures forall n :: n != s.Temporary(Meta) && n != s.Temporary(Blob) ==>
                (n in disk.files <==> n in old(disk.files)) && (n in disk.files ==> disk.files[n] == old(disk.files)[n])
    {
      hide Safe;
      s := Staged(i, nonce);
      if LooksIntact(disk.files, i) {
        return Skipped, s;
      }
      nonce := nonce + 1;
      var ok := disk.Write(s.Temporary(Blob), i.blob, saved, start);
      if !ok {
        return Failed, s;
      }
      ok := disk.Write(s.Temporary(Meta), i.meta, saved, start);
      return if ok then Written else Failed, s;
    }

    /** Rename both temporary files, blob first: the meta file marks the pair complete. */
    method RenameIntoPlace(s: Staged, ghost saved: Saved, ghost start: nat) returns (ok: bool)
      requires disk.SafeSince(saved, start)
      requires s.item in saved.items && s.Held(disk.files, true)
      modifies disk
      ensures disk.SafeSince(saved, start)
      ensures disk.faulted == (old(disk.faulted) || !ok)
      ensures disk.durable == old(disk.durable)
      ensures forall n: Name :: n.Temp? && n.nonce != s.nonce ==>
                (n in disk.files <==> n in old(disk.files)) && (n in disk.files ==> disk.files[n] == old(disk.files)[n])
      ensures forall n :: n in old(disk.files) && n.Final? ==> n in disk.files
      ensures ok ==> Placed(disk.files, s.item, Meta) && Placed(disk.files, s.item, Blob)
      ensures ok ==> forall n: Name :: n.Final? && n.path != s.item.path && n in disk.files ==>
                n in old(disk.files) && disk.files[n] == old(disk.files)[n]
    {
      hide Safe;
      ok := disk.Rename(s.Temporary(Blob), Final(s.item.path, Blob), saved, start);
      if ok {
        ok := disk.Rename(s.Temporary(Meta), Final(s.item.path, Meta), saved, start);
      }
    }

    /** Drop a staged write that was not renamed. */
    method Cleanup(s: Staged, ghost saved: Saved, ghost start: nat)
      requires disk.SafeSince(saved, start)
      modifies disk
      ensures disk.SafeSince(saved, start) && disk.faulted == old(disk.faulted)
      ensures forall n :: n != s.Temporary(Meta) && n != s.Temporary(Blob) ==>
                (n in disk.files <==> n in old(disk.files)) && (n in disk.files ==> disk.files[n] == old(disk.files)[n])
    {
      hide Safe;
      disk.Remove(s.Temporary(Blob), saved, start);
      disk.Remove(s.Temporary(Meta), saved, start);
    }

    /** Sync both temporary files of a staged write. */
    method SyncTemps(s: Staged, ghost saved: Saved, ghost start: nat) returns (ok: bool)
      requires disk.SafeSince(saved, start) && s.Held(disk.files, false)
      modifies disk
      ensures disk.SafeSince(saved, start)
      ensures disk.durable == old(disk.durable) && disk.pending == old(disk.pending)
      ensures disk.faulted == (old(disk.faulted) || !ok)
      ensures disk.files.Keys == old(disk.files).Keys
      ensures forall m :: m in disk.files ==>
                disk.files[m].data == old(disk.files)[m].data && (old(disk.files)[m].synced ==> disk.files[m].synced)
      ensures ok ==> s.Held(disk.files, true)
    {
      hide Safe;
      ok := disk.Fsync(s.Temporary(Blob), saved, start);
      if ok {
        ok := disk.Fsync(s.Temporary(Meta), saved, start);
      }
    }

    /**
     Save one item with full crash durability.  It writes exactly if a half is missing
     or has another length than the item's; unless it fails, both have that length in
     the end, and if it wrote, the item's content.
     */
    method Save(i: Item, ghost saved: Saved, ghost start: nat) returns (r: Outcome)
      requires disk.SafeSince(saved, start) && i in saved.items
      modifies this, disk
      ensures disk.SafeSince(saved, start)
      ensures disk.faulted == (old(disk.faulted) || r == Failed)
      ensures r != Failed ==> PairInView(saved.items, disk.files, i.path)
      ensures r == Skipped <==> LooksIntact(old(disk.files), i)
      ensures r == Skipped ==> disk.Now() == old(disk.Now())
      ensures r == Written ==> Settled(disk.Now(), i)
      ensures r == Skipped <==>
              && Final(i.path, Meta) in old(disk.files) && |old(disk.files)[Final(i.path, Meta)].data| == |i.meta|
              && Final(i.path, Blob) in old(disk.files) && |old(disk.files)[Final(i.path, Blob)].data| == |i.blob|
      ensures r == Written ==>
              && Final(i.path, Meta) in disk.files && disk.files[Final(i.path, Meta)].data == i.meta
              && Final(i.path, Blob) in disk.files && disk.files[Final(i.path, Blob)].data == i.blob
    {
      IntactIff(disk.files, i);
      hide Safe, PairInView, Settled, DirSynced, LooksIntact;
      var s;
      r, s := Stage(i, saved, start);
      if r == Skipped {
        IntactIsWhole(saved, disk.Now(), i);
      } else if r == Written {
        var ok := SyncTemps(s, saved, start);
        if ok {
          ok := RenameIntoPlace(s, saved, start);
        }
        if !ok {
          Cleanup(s, saved, start);
          return Failed;
        }
        PlacedSettles(saved.items, disk.Now(), i);
        ok := disk.FsyncDir(i.path.dir, saved, start);
        r := if ok then Written else Failed;
      }
    }

    /** Saving an item again right after changes nothing. */
    method SaveTwice(i: Item, ghost saved: Saved, ghost start: nat) returns (first: Outcome, second: Outcome)
      requires disk.SafeSince(saved, start) && i in saved.items
      modifies this, disk
      ensures disk.SafeSince(saved, start)
      ensures first != Failed ==> second == Skipped
      ensures first == Skipped ==> disk.files == old(disk.files)
      ensures first == Written ==> Settled(disk.Now(), i)
    {
      hide Safe, PairInView, LooksIntact;
      first := Save(i, saved, start);
      if first == Failed {
        return first, Failed;
      }
      second := Save(i, saved, start);
    }

    /** Batch phase 1: stage every item that is not intact. */
    method StageAll(batch: seq<Item>, ghost saved: Saved, ghost start: nat) returns (ok: bool, staged: seq<Staged>)
      requires disk.SafeSince(saved, start)
      modifies this, disk
      ensures disk.SafeSince(saved, start)
      ensures disk.faulted == (old(disk.faulted) || !ok)
      ensures SameFinals(disk.files, old(disk.files))
      ensures AllHeld(disk.files, staged, 0)
      ensures forall s :: s in staged ==> s.item in batch
      ensures ok ==> StagedFrom(old(disk.files), batch, |batch|, staged)
    {
      hide Safe, LooksIntact, StagedFrom, AllHeld, Staged.Held;
      ok, staged := true, [];
      NothingStaged(old(disk.files), batch);
      NothingHeld(disk.files);
      for k := 0 to |batch|
        invariant disk.SafeSince(saved, start)
        invariant disk.faulted == old(disk.faulted)
        invariant SameFinals(disk.files, old(disk.files))
        invariant AllHeld(disk.files, staged, 0)
        invariant forall s :: s in staged ==> s.nonce < nonce && s.item in batch
        invariant StagedFrom(old(disk.files), batch, k, staged)
      {
        SameIntact(disk.files, old(disk.files), batch[k]);
        ghost var before := disk.files;
        var r, s := Stage(batch[k], saved, start);
        HeldNext(before, disk.files, staged, s);
        if r == Failed {
          return false, staged;
        }
        StagedNext(old(disk.files), batch, k, staged, s);
        if r == Written {
          staged := staged + [s];
        }
      }
    }

    /** Batch phase 2: sync all temporary files. */
    method SyncAll(staged: seq<Staged>, ghost saved: Saved, ghost start: nat) returns (ok: bool)
      requires disk.SafeSince(saved, start) && AllHeld(disk.files, staged, 0)
      modifies disk
      ensures disk.SafeSince(saved, start)
      ensures disk.faulted == (old(disk.faulted) || !ok)
      ensures disk.files.Keys == old(disk.files).Keys
      ensures forall n :: n in disk.files ==> disk.files[n].data == old(disk.files)[n].data
      ensures ok ==> AllHeld(disk.files, staged, |staged|)
    {
      hide Safe;
      for k := 0 to |staged|
        invariant disk.SafeSince(saved, start)
        invariant disk.faulted == old(disk.faulted)
        invariant AllHeld(disk.files, staged, k)
        invariant disk.files.Keys == old(disk.files).Keys
        invariant forall n :: n in disk.files ==> disk.files[n].data == old(disk.files)[n].data
      {
        ok := SyncTemps(staged[k], saved, start);
        if !ok {
          return;
        }
      }
      ok := true;
    }

    /** Batch phase 3: rename every staged write into place. */
    method RenameAll(staged: seq<Staged>, ghost saved: Saved, ghost start: nat) returns (ok: bool, dirs: set<nat>)
      requires disk.SafeSince(saved, start) && AllHeld(disk.files, staged, |staged|)
      requires forall s :: s in staged ==> s.item in saved.items
      modifies disk
      ensures disk.SafeSince(saved, start)
      ensures disk.faulted == (old(disk.faulted) || !ok)
      ensures forall n :: n in old(disk.files) && n.Final? ==> n in disk.files
      ensures forall s :: s in staged && ok ==> s.item.path.dir in dirs
      ensures ok ==> PlacedFrom(old(disk.files), disk.files, staged, |staged|)
    {
      hide Safe, PlacedFrom;
      dirs := {};
      ghost var files0 := disk.files;
      NothingPlaced(files0, staged);
      for k := 0 to |staged|
        invariant disk.SafeSince(saved, start)
        invariant disk.faulted == old(disk.faulted)
        invariant AllHeld(disk.files, staged[k..], |staged| - k)
        invariant forall n :: n in old(disk.files) && n.Final? ==> n in disk.files
        invariant forall j :: 0 <= j < k ==> staged[j].item.path.dir in dirs
        invariant PlacedFrom(files0, disk.files, staged, k)
      {
        assert staged[k..][0] == staged[k] && staged[k] in staged;
        ghost var rest, before := staged[k + 1..], disk.files;
        assert forall j :: 0 <= j < |rest| ==> rest[j] == staged[k..][j + 1];
        ok := RenameIntoPlace(staged[k], saved, start);
        if !ok {
          return;
        }
        PlacedNext(files0, before, disk.files, staged, k);
        dirs := dirs + {staged[k].item.path.dir};
      }
      ok := true;
    }

    /** Batch phase 4: sync each touched directory once. */
    method SyncDirs(dirs: set<nat>, ghost saved: Saved, ghost start: nat) returns (ok: bool)
      requires disk.SafeSince(saved, start)
      modifies disk
      ensures disk.SafeSince(saved, start)
      ensures disk.faulted == (old(disk.faulted) || !ok)
      ensures disk.files == old(disk.files)
      ensures ok ==> forall d :: d in dirs ==> DirDurable(disk.Now(), d)
    {
      hide Safe;
      var order := Arrange(dirs);
      for k := 0 to |order|
        invariant disk.SafeSince(saved, start)
        invariant disk.faulted == old(disk.faulted)
        invariant disk.files == old(disk.files)
        invariant forall j :: 0 <= j < k ==> DirDurable(disk.Now(), order[j])
      {
        ghost var before := disk.Now();
        ok := disk.FsyncDir(order[k], saved, start);
        if !ok {
          return;
        }
        DirsDurable(before, order[k]);
      }
      ok := true;
    }

    method CleanupAll(staged: seq<Staged>, ghost saved: Saved, ghost start: nat)
      requires disk.SafeSince(saved, start)
      modifies disk
      ensures disk.SafeSince(saved, start) && disk.faulted == old(disk.faulted)
    {
      hide Safe;
      for k := 0 to |staged|
        invariant disk.SafeSince(saved, start) && disk.faulted == old(disk.faulted)
      {
        Cleanup(staged[k], saved, start);
      }
    }

    /**
     Save a batch in phases.  It fails only if a system call did; otherwise every
     item of the batch has a whole pair in view, durable unless the pair looked
     intact to begin with.  Where no two items share a path, each half has the item's
     length in the end, and the item's content if one was missing or of another length.
     */
    method SaveBatch(batch: seq<Item>, ghost saved: Saved, ghost start: nat) returns (ok: bool)
      requires disk.SafeSince(saved, start)
      requires forall i :: i in batch ==> i in saved.items
      modifies this, disk
      ensures disk.SafeSince(saved, start)
      ensures disk.faulted == (old(disk.faulted) || !ok)
      ensures ok ==> forall i :: i in batch ==> PairInView(saved.items, disk.files, i.path)
      ensures ok ==> forall i :: i in batch && !LooksIntact(old(disk.files), i) ==>
                PairDurable(saved.items, disk.Now(), i.path)
      ensures ok && DistinctPaths(batch) ==> forall i :: i in batch ==>
                && Final(i.path, Meta) in disk.files && |disk.files[Final(i.path, Meta)].data| == |i.meta|
                && Final(i.path, Blob) in disk.files && |disk.files[Final(i.path, Blob)].data| == |i.blob|
      ensures ok && DistinctPaths(batch) ==> forall i :: i in batch ==>
                var meta, blob, before := Final(i.path, Meta), Final(i.path, Blob), old(disk.files);
                || (&& meta in before && |before[meta].data| == |i.meta|
                    && blob in before && |before[blob].data| == |i.blob|)
                || (disk.files[meta].data == i.meta && disk.files[blob].data == i.blob)
    {
      hide Safe, PairInView, PairDurable, DirDurable, AllHeld, LooksIntact, StagedFrom, PlacedFrom, SameFinals;
      var staged;
      ok, staged := StageAll(batch, saved, start);
      ghost var first, second := disk.files, disk.files;
      var dirs := {};
      if ok {
        ok := SyncAll(staged, saved, start);
        second := disk.files;
      }
      if ok {
        ok, dirs := RenameAll(staged, saved, start);
      }
      if !ok {
        CleanupAll(staged, saved, start);
        return;
      }
      ok := SyncDirs(dirs, saved, start);
      if ok {
        forall i | i in batch
          ensures BothPresent(disk.files, i.path)
          ensures !LooksIntact(old(disk.files), i) ==> i.path.dir in dirs
          ensures DistinctPaths(batch) ==> Ended(old(disk.files), disk.files, i)
        {
          BatchEnds(old(disk.files), first, second, disk.files, batch, staged, i);
        }
        forall i | i in batch ensures PairInView(saved.items, disk.files, i.path) {
          PresentIsWhole(saved, disk.Now(), i.path);
        }
        forall i | i in batch && !LooksIntact(old(disk.files), i)
          ensures PairDurable(saved.items, disk.Now(), i.path)
        {
          PresentIsDurable(saved, disk.Now(), i.path);
        }
        forall i | i in batch
          ensures LooksIntact(old(disk.files), i) <==>
                  && Final(i.path, Meta) in old(disk.files) && |old(disk.files)[Final(i.path, Meta)].data| == |i.meta|
                  && Final(i.path, Blob) in old(disk.files) && |old(disk.files)[Final(i.path, Blob)].data| == |i.blob|
        {
          IntactIff(old(disk.files), i);
        }
      }
    }
  }

  /** The two views agree on every final name. */
  ghost predicate SameFinals(files: map<Name, Entry>, files': map<Name, Entry>) {
    forall n: Name :: n.Final? ==>
      (n in files <==> n in files') && (n in files && n in files' ==> files[n] == files'[n])
  }

  lemma SameIntact(files: map<Name, Entry>, files': map<Name, Entry>, i: Item)
    requires SameFinals(files, files')
    ensures LooksIntact(files, i) <==> LooksIntact(files', i)
  {
  }

  ghost predicate DistinctPaths(batch: seq<Item>) {
    forall i, j :: 0 <= i < j < |batch| ==> batch[i].path != batch[j].path
  }

  ghost predicate Apart(staged: seq<Staged>) {
    forall i, j :: 0 <= i < j < |staged| ==> staged[i].item.path != staged[j].item.path
  }

  /** Nothing is staged for this path. */
  ghost predicate Elsewhere(staged: seq<Staged>, path: Path) {
    forall s :: s in staged ==> s.item.path != path
  }

  ghost predicate BothPlaced(files: map<Name, Entry>, i: Item) {
    Placed(files, i, Meta) && Placed(files, i, Blob)
  }

  lemma IntactIff(files: map<Name, Entry>, i: Item)
    ensures LooksIntact(files, i) <==>
            && Final(i.path, Meta) in files && |files[Final(i.path, Meta)].data| == |i.meta|
            && Final(i.path, Blob) in files && |files[Final(i.path, Blob)].data| == |i.blob|
  {
  }

  ghost predicate BothPresent(files: map<Name, Entry>, path: Path) {
    Final(path, Meta) in files && Final(path, Blob) in files
  }

  /** All staged files are there under distinct names, the first `n` synced. */
  ghost predicate AllHeld(files: map<Name, Entry>, staged: seq<Staged>, n: nat) {
    && (forall j :: 0 <= j < |staged| ==> staged[j].Held(files, j < n))
    && (forall j, k :: 0 <= j < k < |staged| ==> staged[j].nonce < staged[k].nonce)
  }

  lemma NothingHeld(files: map<Name, Entry>)
    ensures AllHeld(files, [], 0)
  {
  }

  /** Staging one more item leaves those staged before as they are. */
  lemma HeldNext(files: map<Name, Entry>, files': map<Name, Entry>, staged: seq<Staged>, s: Staged)
    requires AllHeld(files, staged, 0) && forall t :: t in staged ==> t.nonce < s.nonce
    requires forall n :: n != s.Temporary(Meta) && n != s.Temporary(Blob) ==>
               (n in files' <==> n in files) && (n in files' ==> files'[n] == files[n])
    ensures AllHeld(files', staged, 0)
    ensures s.Held(files', false) ==> AllHeld(files', staged + [s], 0)
  {
    forall j | 0 <= j < |staged| ensures staged[j].Held(files', false) {
      assert staged[j] in staged;
    }
  }

  ghost predicate IsStaged(staged: seq<Staged>, i: Item) {
    exists s :: s in staged && s.item == i
  }

  /** Staged are, of the first `k` items, those that did not look intact. */
  ghost predicate StagedFrom(files: map<Name, Entry>, batch: seq<Item>, k: nat, staged: seq<Staged>) {
    && k <= |batch|
    && (forall s :: s in staged ==> s.item in batch[..k] && !LooksIntact(files, s.item))
    && (forall j :: 0 <= j < k ==> LooksIntact(files, batch[j]) || IsStaged(staged, batch[j]))
    && (DistinctPaths(batch) ==> Apart(staged))
  }

  lemma NothingStaged(files: map<Name, Entry>, batch: seq<Item>)
    ensures StagedFrom(files, batch, 0, [])
  {
  }

  lemma StagedNext(files: map<Name, Entry>, batch: seq<Item>, k: nat, staged: seq<Staged>, s: Staged)
    requires StagedFrom(files, batch, k, staged) && k < |batch| && s.item == batch[k]
    ensures StagedFrom(files, batch, k + 1, if LooksIntact(files, batch[k]) then staged else staged + [s])
  {
    hide LooksIntact, IsStaged;
    assert batch[..k + 1] == batch[..k] + [batch[k]];
    MoreStaged(staged, s);
    if DistinctPaths(batch) {
      forall i | 0 <= i < |staged| ensures staged[i].item.path != s.item.path {
        var j :| 0 <= j < k && batch[j] == staged[i].item;
      }
    }
  }

  /** The first `k` staged items are in place, if no two share a path, and other paths are as before. */
  ghost predicate PlacedFrom(files: map<Name, Entry>, files': map<Name, Entry>, staged: seq<Staged>, k: nat) {
    && k <= |staged|
    && (forall j :: 0 <= j < k ==> BothPresent(files', staged[j].item.path))
    && (Apart(staged) ==> forall j :: 0 <= j < k ==> BothPlaced(files', staged[j].item))
    && (forall n: Name :: n.Final? && n in files' && Elsewhere(staged, n.path) ==> n in files && files'[n] == files[n])
  }

  lemma NothingPlaced(files: map<Name, Entry>, staged: seq<Staged>)
    ensures PlacedFrom(files, files, staged, 0)
  {
  }

  lemma PlacedNext(files0: map<Name, Entry>, files: map<Name, Entry>, files': map<Name, Entry>, staged: seq<Staged>,
                   k: nat)
    requires PlacedFrom(files0, files, staged, k) && k < |staged|
    requires BothPlaced(files', staged[k].item)
    requires forall n :: n in files && n.Final? ==> n in files'
    requires forall n: Name :: n.Final? && n.path != staged[k].item.path && n in files' ==>
               n in files && files'[n] == files[n]
    ensures PlacedFrom(files0, files', staged, k + 1)
  {
    assert staged[k] in staged;
    forall j | 0 <= j < k ensures Apart(staged) ==> BothPlaced(files', staged[j].item) {
      if Apart(staged) {
        assert BothPlaced(files, staged[j].item) && staged[j].item.path != staged[k].item.path;
      }
    }
  }

  /** How a save may end for an item: untouched because it looked intact, or in place. */
  ghost predicate Ended(before: map<Name, Entry>, after: map<Name, Entry>, i: Item) {
    && BothPresent(after, i.path)
    && |after[Final(i.path, Meta)].data| == |i.meta| && |after[Final(i.path, Blob)].data| == |i.blob|
    && (LooksIntact(before, i) ||
        (after[Final(i.path, Meta)].data == i.meta && after[Final(i.path, Blob)].data == i.blob))
  }

  /** What the phases of a batch come to for one item: staging, syncing, renaming. */
  lemma BatchEnds(files: map<Name, Entry>, first: map<Name, Entry>, second: map<Name, Entry>, after: map<Name, Entry>,
                  batch: seq<Item>, staged: seq<Staged>, i: Item)
    requires StagedFrom(files, batch, |batch|, staged) && SameFinals(first, files)
    requires second.Keys == first.Keys && forall n :: n in second ==> second[n].data == first[n].data
    requires PlacedFrom(second, after, staged, |staged|) && forall n :: n in second && n.Final? ==> n in after
    requires i in batch
    ensures BothPresent(after, i.path)
    ensures !LooksIntact(files, i) ==> IsStaged(staged, i)
    ensures DistinctPaths(batch) ==> Ended(files, after, i)
  {
    var j :| 0 <= j < |batch| && batch[j] == i;
    if LooksIntact(files, i) {
      assert Final(i.path, Meta) in second && Final(i.path, Blob) in second;
      if DistinctPaths(batch) {
        OthersElsewhere(batch, staged, files, i);
      }
    } else {
      assert IsStaged(staged, i);
      var s :| s in staged && s.item == i;
      var k :| 0 <= k < |staged| && staged[k] == s;
    }
  }

  /** An item that looked intact shares its path with nothing that was staged. */
  lemma OthersElsewhere(batch: seq<Item>, staged: seq<Staged>, files: map<Name, Entry>, i: Item)
    requires DistinctPaths(batch) && i in batch && LooksIntact(files, i)
    requires forall s :: s in staged ==> s.item in batch && !LooksIntact(files, s.item)
    ensures Elsewhere(staged, i.path)
  {
    hide LooksIntact;
    forall s | s in staged ensures s.item.path != i.path {
      var a, b :| 0 <= a < |batch| && batch[a] == i && 0 <= b < |batch| && batch[b] == s.item;
    }
  }

  lemma MoreStaged(staged: seq<Staged>, s: Staged)
    ensures IsStaged(staged + [s], s.item)
    ensures forall i :: IsStaged(staged, i) ==> IsStaged(staged + [s], i)
  {
    assert (staged + [s])[|staged|] == s;
    forall i | IsStaged(staged, i) ensures IsStaged(staged + [s], i) {
      var t :| t in staged && t.item == i;
      assert t in staged + [s];
    }
  }

  /** Every final file of the directory is durable as it is in view. */
  ghost predicate DirDurable(img: Image, dir: nat) {
    forall n :: n in img.files && n.Final? && n.path.dir == dir ==>
      n in img.durable && img.durable[n] == img.files[n] && n !in img.pending
  }

  lemma DirsDurable(img: Image, dir: nat)
    ensures DirDurable(DirSynced(img, dir), dir)
    ensures forall d :: DirDurable(img, d) ==> DirDurable(DirSynced(img, dir), d)
  {
  }

  lemma PresentIsWhole(saved: Saved, img: Image, path: Path)
    requires Safe(saved, img) && BothPresent(img.files, path)
    ensures PairInView(saved.items, img.files, path)
  {
    assert WholeEntry(saved.items, Final(path, Meta), img.files[Final(path, Meta)]);
    assert WholeEntry(saved.items, Final(path, Blob), img.files[Final(path, Blob)]);
    WholeHalves(saved.items, path, img.files[Final(path, Meta)].data, img.files[Final(path, Blob)].data);
  }

  lemma PresentIsDurable(saved: Saved, img: Image, path: Path)
    requires Safe(saved, img) && BothPresent(img.files, path) && DirDurable(img, path.dir)
    ensures PairDurable(saved.items, img, path)
  {
    assert WholeEntry(saved.items, Final(path, Meta), img.files[Final(path, Meta)]);
    assert WholeEntry(saved.items, Final(path, Blob), img.files[Final(path, Blob)]);
    WholeHalves(saved.items, path, img.files[Final(path, Meta)].data, img.files[Final(path, Blob)].data);
  }

  /** A pair in place is settled by syncing its directory. */
  lemma PlacedSettles(items: set<Item>, img: Image, i: Item)
    requires i in items && Placed(img.files, i, Meta) && Placed(img.files, i, Blob)
    ensures Settled(DirSynced(img, i.path.dir), i) && PairInView(items, DirSynced(img, i.path.dir).files, i.path)
  {
    assert i == Item(i.path, i.meta, i.blob);
  }

  /** Both files of a durable pair survive every crash in full, and under content addressing as one item. */
  lemma DurableSurvives(items: set<Item>, img: Image, path: Path, after: map<Name, seq<Byte>>)
    requires PairDurable(items, img, path) && CrashOutcome(img, after)
    ensures Final(path, Meta) in after && exists i :: i in items && i.path == path && after[Final(path, Meta)] == i.meta
    ensures Final(path, Blob) in after && exists i :: i in items && i.path == path && after[Final(path, Blob)] == i.blob
    ensures ContentAddressed(items) ==> Item(path, after[Final(path, Meta)], after[Final(path, Blob)]) in items
  {
    var meta, blob := Final(path, Meta), Final(path, Blob);
    var e :| MayRemain(img, meta, e) && (e.synced ==> after[meta] == e.data);
    var f :| MayRemain(img, blob, f) && (f.synced ==> after[blob] == f.data);
    assert Whole(items, meta, after[meta]) && Whole(items, blob, after[blob]);
  }

  /** On a safe disk, a pair that looks intact is whole. */
  lemma IntactIsWhole(saved: Saved, img: Image, i: Item)
    requires Safe(saved, img) && LooksIntact(img.files, i)
    ensures PairInView(saved.items, img.files, i.path)
  {
    PresentIsWhole(saved, img, i.path);
  }

  // ----- Why paths must be content addresses -----

  /** The meta of one item and the blob of another of its path always make up a saved item. */
  ghost predicate Interchangeable(items: set<Item>) {
    forall i, j :: i in items && j in items && i.path == j.path ==> OneItem(items, i.path, i.meta, j.blob)
  }

  /** No crash of any safe image leaves a pair that mixes two items. */
  ghost predicate NeverMixed(items: set<Item>) {
    forall img, after, p: Path {:trigger CrashOutcome(img, after), Final(p, Meta)} ::
      && Safe(Saved(items, false), img) && CrashOutcome(img, after)
      && Final(p, Meta) in after && Final(p, Blob) in after ==>
        OneItem(items, p, after[Final(p, Meta)], after[Final(p, Blob)])
  }

  /** The pair of `j` is durable, that of `i` has been renamed over it, and the directory is not yet synced. */
  function Overwritten(i: Item, j: Item): Image {
    var meta, blob := Final(i.path, Meta), Final(i.path, Blob);
    Image(map[meta := Entry(i.meta, true), blob := Entry(i.blob, true)],
          map[meta := Entry(j.meta, true), blob := Entry(j.blob, true)],
          map[meta := {Entry(i.meta, true)}, blob := {Entry(i.blob, true)}])
  }

  /** A crash may keep the meta of one item and the blob of the other. */
  lemma MixedPair(items: set<Item>, i: Item, j: Item)
    requires i in items && j in items && i.path == j.path
    ensures var after := map[Final(i.path, Meta) := i.meta, Final(i.path, Blob) := j.blob];
            Safe(Saved(items, false), Overwritten(i, j)) && CrashOutcome(Overwritten(i, j), after)
  {
    var img := Overwritten(i, j);
    var meta, blob := Final(i.path, Meta), Final(i.path, Blob);
    assert WholeEntry(items, meta, Entry(i.meta, true)) && WholeEntry(items, blob, Entry(i.blob, true));
    assert WholeEntry(items, meta, Entry(j.meta, true)) && WholeEntry(items, blob, Entry(j.blob, true));
    assert MayRemain(img, meta, Entry(i.meta, true)) && MayRemain(img, blob, Entry(j.blob, true));
  }

  /** Crashes never mix items exactly when mixing could not be told; content addressing is enough. */
  lemma NeverMixedIff(items: set<Item>)
    ensures NeverMixed(items) <==> Interchangeable(items)
    ensures ContentAddressed(items) ==> Interchangeable(items)
  {
    hide Safe, CrashOutcome;
    if NeverMixed(items) {
      forall i, j | i in items && j in items && i.path == j.path ensures OneItem(items, i.path, i.meta, j.blob) {
        MixedPair(items, i, j);
        var after := map[Final(i.path, Meta) := i.meta, Final(i.path, Blob) := j.blob];
        assert CrashOutcome(Overwritten(i, j), after);
      }
    }
    if Interchangeable(items) {
      forall img, after, p: Path | Safe(Saved(items, false), img) && CrashOutcome(img, after)
          && Final(p, Meta) in after && Final(p, Blob) in after
        ensures OneItem(items, p, after[Final(p, Meta)], after[Final(p, Blob)])
      {
        CrashKeepsWhole(Saved(items, false), img, after);
        assert Whole(items, Final(p, Meta), after[Final(p, Meta)]);
        assert Whole(items, Final(p, Blob), after[Final(p, Blob)]);
      }
    }
    if ContentAddressed(items) {
      forall i, j | i in items && j in items && i.path == j.path ensures OneItem(items, i.path, i.meta, j.blob) {
        assert i == Item(i.path, i.meta, i.blob);
      }
    }
  }

  /**
   Healing: whatever a crash left of any safe image, saving an item again ends
   with its whole pair in view unless a system call fails on the way, and then it
   says so; every image on the way is safe.
   */
  method Recover(after: map<Name, seq<Byte>>, i: Item, ghost saved: Saved, ghost img: Image)
    returns (disk: Disk, r: Outcome)
    requires Safe(saved, img) && CrashOutcome(img, after) && i in saved.items
    ensures fresh(disk) && disk.SafeSince(saved.(marked := false), 0)
    ensures r == Failed <==> disk.faulted
    ensures !disk.faulted ==> PairInView(saved.items, disk.files, i.path)
    ensures r == Skipped <==> LooksIntact(Rebooted(after).files, i)
    ensures r == Written ==> Settled(disk.Now(), i)
    ensures var meta, blob := Final(i.path, Meta), Final(i.path, Blob);
            && !disk.faulted
            && (forall j, k :: j in saved.items && k in saved.items && j.path == k.path ==> j.blob == k.blob) ==>
              && meta in disk.files && blob in disk.files
              && Item(i.path, disk.files[meta].data, disk.files[blob].data) in saved.items
  {
    hide Safe, CrashOutcome, Settled;
    CrashKeepsWhole(saved, img, after);
    disk := new Disk.Boot(after);
    var writer := new Writer(disk);
    r := writer.Save(i, saved.(marked := false), 0);
  }
}
