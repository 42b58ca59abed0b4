/** The pending-write store (`fuse_writeback.go`): a write is journalled before it is uploaded and
    forgotten once the upload succeeded; `recover` replays what is left. */
module WriteBack {
  import opened Basics
  import opened GoSort
  import opened Versions
  import opened DirtyRanges
  import opened Upload

  const DEFAULT_MAX_BYTES := 0x400_0000

  /** One journalled write: the data file and the fields of its metadata file. */
  datatype Entry = Entry(path: Path, data: Bytes, size: int, identity: string,
                         base: Version, baseSize: int, ranges: seq<Range>)

  type Pending = map<Path, Entry>

  /** The configuration of a store; no store at all is `None`. */
  datatype StoreConfig = StoreConfig(maxBytes: int, identity: string)

  /** Whether the local disk accepts the journal entry and later its removal. */
  datatype Disk = Disk(putOk: bool, removeOk: bool)

  /** How one replayed upload goes: reading the data file, the upload, removing the entry. */
  datatype Replay = Replay(readOk: bool, net: Net, removeOk: bool)

  function NewEntry(identity: string, path: Path, data: Bytes, base: Version, baseSize: int,
                    ranges: seq<Range>): Entry {
    Entry(path, data, |data|, identity, base, baseSize, ranges)
  }

  ghost function PutAndUploadSpec(cfg: Option<StoreConfig>, r: Remote, pending: Pending, path: Path, data: Bytes,
                                  base: Version, baseSize: int, ranges: seq<Range>, net: Net, disk: Disk)
    : (Remote, Pending, Result<Version, Error>)
  {
    var (after, res) := UploadSpec(r, path, data, base, baseSize, ranges, net);
    if cfg.None? || |data| > cfg.value.maxBytes then (after, pending, res)
    else if !disk.putOk then (r, pending, Err(Storage))
    else
      var entry := NewEntry(cfg.value.identity, path, data, base, baseSize, ranges);
      if res.Err? then (after, pending[path := entry], res)
      else if !disk.removeOk then (after, pending[path := entry], Err(Storage))
      else (after, pending - {path}, res)
  }

  ghost function EntryUpload(r: Remote, e: Entry, net: Net): (Remote, Result<Version, Error>) {
    UploadSpec(r, e.path, e.data, e.base, e.baseSize, e.ranges, net)
  }

  /** The upload callback that `recover` is given. */
  type UploadFunc<!R> = (R, Entry, Net) -> (R, Result<Version, Error>)

  predicate Replayable(identity: string, e: Entry, reply: Replay) {
    e.identity == identity && e.size >= 0 && reply.readOk && |e.data| == e.size
  }

  /** The loop of `recover` from entry `k` on: the remote, the number of entries uploaded and
      removed, and what stopped it. */
  ghost function RecoverFrom<R>(upload: UploadFunc<R>, identity: string, r: R, list: seq<Entry>,
                                replies: nat -> Replay, k: nat)
    : (R, nat, Option<Error>)
    requires k <= |list|
    decreases |list| - k
  {
    if k == |list| then (r, k, None)
    else if !Replayable(identity, list[k], replies(k)) then (r, k, Some(Storage))
    else
      var (after, res) := upload(r, list[k], replies(k).net);
      if res.Err? then (after, k, Some(res.error))
      else if !replies(k).removeOk then (after, k, Some(Storage))
      else RecoverFrom(upload, identity, after, list, replies, k + 1)
  }

  function FirstPaths(list: seq<Entry>, k: nat): set<Path>
    requires k <= |list|
  {
    set i | 0 <= i < k :: list[i].path
  }

  class WriteBackStore {
    const maxBytes: int
    const identity: string
    /** The name of the files of an entry is a hash of its path, assumed free of collisions; only
        its order matters. */
    const key: Path -> int
    var entries: Pending

    ghost predicate Valid()
      reads this
    {
      && (forall p, q :: key(p) == key(q) ==> p == q)
      && (forall p :: p in entries ==> entries[p].path == p)
    }

    ghost function Config(): StoreConfig { StoreConfig(maxBytes, identity) }

    constructor (maxBytes: int, identity: string, key: Path -> int)
      requires maxBytes != 0
      requires forall p, q :: key(p) == key(q) ==> p == q
      ensures Valid() && entries == map[] && this.key == key && this.identity == identity
      ensures this.maxBytes == if maxBytes < 0 then 0x400_0000 else maxBytes
    {
      this.maxBytes := if maxBytes < 0 then DEFAULT_MAX_BYTES else maxBytes;
      this.identity := identity;
      this.key := key;
      this.entries := map[];
    }

    method PutAndUpload(up: Uploader, path: Path, data: Bytes, base: Version, baseSize: int, ranges: seq<Range>,
                        net: Net, disk: Disk)
      returns (res: Result<Version, Error>)
      requires Valid()
      modifies this, up
      ensures Valid()
      ensures (up.remote, entries, res) ==
        PutAndUploadSpec(Some(Config()), old(up.remote), old(entries), path, data, base, baseSize, ranges, net, disk)
    {
      if |data| > maxBytes {
        res := up.Upload(path, data, base, baseSize, ranges, net);
        return;
      }
      if !disk.putOk { return Err(Storage); }
      entries := entries[path := NewEntry(identity, path, data, base, baseSize, ranges)];
      res := up.Upload(path, data, base, baseSize, ranges, net);
      if res.Err? { return; }
      if !disk.removeOk { return Err(Storage); }
      entries := entries - {path};
      assert entries == old(entries) - {path};
    }

    /** The journalled paths in the order of their file names. */
    method PendingPaths() returns (list: seq<Path>)
      requires Valid()
      ensures list == Listing(key, entries.Keys)
    {
      var keys := Elements(entries.Keys);
      var leq := (a, b) => key(a) <= key(b);
      assert TotalOrder(leq);
      list := Sort(leq, keys);
      ListingOfSet(list, entries.Keys);
      ListingUnique(key, entries.Keys, list);
    }

    /** The journalled entries, metadata and data together, in the order of their file names. */
    method PendingEntries() returns (list: seq<Entry>)
      requires Valid()
      ensures list == EntryList(key, entries)
    {
      var paths := PendingPaths();
      ListingLength(key, entries.Keys);
      var all := entries;
      assert forall i :: 0 <= i < |paths| ==> paths[i] in all;
      list := seq(|paths|, i requires 0 <= i < |paths| && paths[i] in all => all[paths[i]]);
    }

    method ReplayAll(up: Uploader, list: seq<Entry>, replies: nat -> Replay)
      returns (ghost done: nat, failure: Option<Error>)
      modifies this`entries, up
      ensures (up.remote, done, failure) == RecoverFrom(EntryUpload, identity, old(up.remote), list, replies, 0)
      ensures done <= |list| && entries == old(entries) - FirstPaths(list, done)
      ensures failure.None? ==> done == |list|
    {
      ghost var r0 := up.remote;
      assert entries == old(entries) - FirstPaths(list, 0);
      for i := 0 to |list|
        invariant entries == old(entries) - FirstPaths(list, i)
        invariant RecoverFrom(EntryUpload, identity, r0, list, replies, 0)
               == RecoverFrom(EntryUpload, identity, up.remote, list, replies, i)
      {
        var e := list[i];
        var reply := replies(i);
        done := i;
        if e.identity != identity || e.size < 0 { return done, Some(Storage); }
        if !reply.readOk { return done, Some(Storage); }
        if |e.data| != e.size { return done, Some(Storage); }
        var res := up.Upload(e.path, e.data, e.base, e.baseSize, e.ranges, reply.net);
        if res.Err? { return done, Some(res.error); }
        if !reply.removeOk { return done, Some(Storage); }
        assert FirstPaths(list, i + 1) == FirstPaths(list, i) + {e.path};
        entries := entries - {e.path};
      }
      return |list|, None;
    }

    method Recover(up: Uploader, replies: nat -> Replay) returns (count: nat, failure: Option<Error>)
      requires Valid()
      modifies this`entries, up
      ensures Valid()
      ensures var list := EntryList(key, old(entries));
        var (after, done, stopped) := RecoverFrom(EntryUpload, identity, old(up.remote), list, replies, 0);
        && done <= |list| && up.remote == after && failure == stopped
        && entries == old(entries) - FirstPaths(list, done)
        && (failure.None? ==> entries == map[])
        && count == if failure.None? then |old(entries)| else 0
    {
      var list := PendingEntries();
      ListCoversPending(key, entries);
      ghost var done;
      done, failure := ReplayAll(up, list, replies);
      count := if failure.None? then |list| else 0;
    }

    method PendingStats() returns (count: nat, bytes: nat)
      requires Valid()
      ensures count == |OwnPaths(identity, entries)| && bytes == SizeSum(entries, OwnPaths(identity, entries))
    {
      var list := PendingPaths();
      ListingLength(key, entries.Keys);
      count, bytes := CountOwn(identity, entries, list);
    }
  }

  /** The loop of `pendingStats` over the entries found. */
  method CountOwn(identity: string, entries: Pending, list: seq<Path>) returns (count: nat, bytes: nat)
    requires forall p :: p in list <==> p in entries
    requires forall i, j :: 0 <= i < j < |list| ==> list[i] != list[j]
    ensures count == |OwnPaths(identity, entries)| && bytes == SizeSum(entries, OwnPaths(identity, entries))
  {
    hide OwnPaths, SizeSum;
    count, bytes := 0, 0;
    ghost var own := OwnPaths(identity, entries);
    OwnPathsMeans(identity, entries);
    ghost var counted: set<Path> := {};
    NothingSums(entries);
    for i := 0 to |list|
      invariant counted <= own && forall p :: p in counted <==> p in list[..i] && p in own
      invariant count == |counted| && bytes == SizeSum(entries, counted)
    {
      PrefixStep(list, i);
      var p := list[i];
      assert p !in list[..i];
      if entries[p].identity != identity || entries[p].size < 0 { continue; }
      SizeSumAdd(entries, counted, p);
      counted := counted + {p};
      count := count + 1;
      if entries[p].size > 0 { bytes := bytes + entries[p].size; }
    }
    assert list[..|list|] == list;
    assert counted == own;
  }

  lemma OwnPathsMeans(identity: string, entries: Pending)
    ensures forall p :: p in OwnPaths(identity, entries) <==>
      p in entries && entries[p].identity == identity && entries[p].size >= 0
  {}

  /** The entries that belong to a mount and have a usable size. */
  ghost function OwnPaths(identity: string, entries: Pending): set<Path> {
    set p | p in entries && entries[p].identity == identity && entries[p].size >= 0
  }

  ghost function SizeOf(entries: Pending): Path -> nat {
    p => if p in entries && entries[p].size >= 0 then entries[p].size else 0
  }

  /** The sizes of some of the entries, added up. */
  ghost function SizeSum(entries: Pending, s: set<Path>): nat { Sum(SizeOf(entries), s) }

  lemma NothingSums(entries: Pending)
    ensures SizeSum(entries, {}) == 0
  {}

  lemma SizeSumAdd(entries: Pending, s: set<Path>, p: Path)
    requires p !in s && p in entries && entries[p].size >= 0
    ensures SizeSum(entries, s + {p}) == SizeSum(entries, s) + entries[p].size
  {
    SumRemove(SizeOf(entries), s + {p}, p);
    assert s + {p} - {p} == s;
  }

  // ---------- the order of replay ----------

  ghost predicate IsListing(key: Path -> int, keys: set<Path>, list: seq<Path>) {
    && (forall i, j :: 0 <= i < j < |list| ==> key(list[i]) < key(list[j]))
    && (forall p :: p in list <==> p in keys)
  }

  lemma ListingExists(key: Path -> int, keys: set<Path>) returns (list: seq<Path>)
    requires forall p, q :: key(p) == key(q) ==> p == q
    ensures IsListing(key, keys, list)
  {
    if keys == {} { return []; }
    var p := LargestKey(key, keys);
    var rest := ListingExists(key, keys - {p});
    list := rest + [p];
  }

  lemma ListingPossible(key: Path -> int, keys: set<Path>)
    requires forall p, q :: key(p) == key(q) ==> p == q
    ensures exists list :: IsListing(key, keys, list)
  {
    var list := ListingExists(key, keys);
  }

  lemma LargestKey(key: Path -> int, keys: set<Path>) returns (p: Path)
    requires keys != {}
    ensures p in keys && forall q :: q in keys ==> key(q) <= key(p)
  {
    p :| p in keys;
    if keys - {p} != {} {
      var q := LargestKey(key, keys - {p});
      if key(q) > key(p) { p := q; }
    }
  }

  ghost function Listing(key: Path -> int, keys: set<Path>): (list: seq<Path>)
    requires forall p, q :: key(p) == key(q) ==> p == q
    ensures IsListing(key, keys, list)
    ensures forall i, j :: 0 <= i < j < |list| ==> list[i] != list[j]
  {
    ListingPossible(key, keys);
    var list :| IsListing(key, keys, list);
    list
  }

  /** The journalled entries in the order `recover` takes them. */
  ghost function EntryList(key: Path -> int, entries: Pending): (list: seq<Entry>)
    requires forall p, q :: key(p) == key(q) ==> p == q
    ensures |list| == |entries|
  {
    var paths := Listing(key, entries.Keys);
    ListingLength(key, entries.Keys);
    seq(|paths|, i requires 0 <= i < |paths| => assert paths[i] in paths; entries[paths[i]])
  }

  lemma ListedEntry(key: Path -> int, entries: Pending, i: nat)
    requires forall p, q :: key(p) == key(q) ==> p == q
    requires i < |entries| && forall p :: p in entries ==> entries[p].path == p
    ensures var paths, list := Listing(key, entries.Keys), EntryList(key, entries);
      |paths| == |list| == |entries| && paths[i] in entries && list[i] == entries[paths[i]] && list[i].path == paths[i]
      && paths[i] !in FirstPaths(list, i)
  {
    var paths, list := Listing(key, entries.Keys), EntryList(key, entries);
    ListingLength(key, entries.Keys);
    forall k | 0 <= k <= i ensures list[k].path == paths[k] {
      assert paths[k] in paths;
    }
  }

  /** Replaying everything that is listed leaves nothing. */
  lemma ListCoversPending(key: Path -> int, entries: Pending)
    requires forall p, q :: key(p) == key(q) ==> p == q
    requires forall p :: p in entries ==> entries[p].path == p
    ensures var list := EntryList(key, entries); FirstPaths(list, |list|) == entries.Keys
  {
    hide EntryList;
    var paths, list := Listing(key, entries.Keys), EntryList(key, entries);
    ListingLength(key, entries.Keys);
    forall k | 0 <= k < |list| ensures list[k].path == paths[k] {
      ListedEntry(key, entries, k);
    }
    forall p | p in entries ensures p in FirstPaths(list, |list|) {
      assert p in paths;
      var k :| 0 <= k < |paths| && paths[k] == p;
      assert list[k].path == p;
    }
    forall p | p in FirstPaths(list, |list|) ensures p in entries.Keys {
      var k :| 0 <= k < |list| && list[k].path == p;
      ListedEntry(key, entries, k);
    }
  }

  lemma ListingUnique(key: Path -> int, keys: set<Path>, list: seq<Path>)
    requires forall p, q :: key(p) == key(q) ==> p == q
    requires forall i, j :: 0 <= i < j < |list| ==> key(list[i]) <= key(list[j]) && list[i] != list[j]
    requires forall p :: p in list <==> p in keys
    ensures list == Listing(key, keys)
  {
    SameListing(key, list, Listing(key, keys));
  }

  lemma {:induction false} SameListing(key: Path -> int, a: seq<Path>, b: seq<Path>)
    requires forall p, q :: key(p) == key(q) ==> p == q
    requires forall i, j :: 0 <= i < j < |a| ==> key(a[i]) < key(a[j])
    requires forall i, j :: 0 <= i < j < |b| ==> key(b[i]) < key(b[j])
    requires forall p :: p in a <==> p in b
    ensures a == b
    decreases |a|
  {
    assert b != [] ==> b[0] in a;
    assert a != [] ==> a[0] in b;
    if a == [] {
    } else {
      assert a[0] == b[0];
      assert a == [a[0]] + a[1..] && b == [b[0]] + b[1..];
      forall p ensures p in a[1..] <==> p in b[1..] {
        assert p in a[1..] <==> p in a && p != a[0];
        assert p in b[1..] <==> p in b && p != b[0];
      }
      SameListing(key, a[1..], b[1..]);
    }
  }

  lemma ListingLength(key: Path -> int, keys: set<Path>)
    requires forall p, q :: key(p) == key(q) ==> p == q
    ensures |Listing(key, keys)| == |keys|
  {
    var list := Listing(key, keys);
    DistinctLength(list);
    assert keys == set p | p in list;
  }

  lemma DistinctLength(list: seq<Path>)
    requires forall i, j :: 0 <= i < j < |list| ==> list[i] != list[j]
    ensures |set p | p in list| == |list|
  {
    if list == [] {
    } else {
      var init, last := list[..|list| - 1], list[|list| - 1];
      DistinctLength(init);
      assert list == init + [last];
      assert (set p | p in list) == (set p | p in init) + {last};
    }
  }

  // ---------- conservation ----------

  /** A journalled write whose upload fails is kept unchanged, and replaying it asks for the very
      same upload; a write that succeeds leaves nothing behind; no other entry is touched. */
  lemma FailedUploadIsKept(cfg: StoreConfig, r: Remote, pending: Pending, path: Path, data: Bytes, base: Version,
                           baseSize: int, ranges: seq<Range>, net: Net, disk: Disk, later: Remote, reply: Replay)
    requires |data| <= cfg.maxBytes && disk.putOk && disk.removeOk
    ensures var (after, pending', res) :=
      PutAndUploadSpec(Some(cfg), r, pending, path, data, base, baseSize, ranges, net, disk);
      && pending' - {path} == pending - {path}
      && (res.Ok? <==> path !in pending')
      && (res.Err? && reply.readOk ==>
            var e := pending'[path];
            && Replayable(cfg.identity, e, reply)
            && EntryUpload(later, e, reply.net) == UploadSpec(later, path, data, base, baseSize, ranges, reply.net))
  {
    var (after, pending', res) :=
      PutAndUploadSpec(Some(cfg), r, pending, path, data, base, baseSize, ranges, net, disk);
    if res.Err? {
      assert pending' - {path} == pending - {path};
    }
  }

  /** An entry that belongs to another mount, whose size is negative or not that of its data, or whose data
      cannot be read is not replayed: the recovery stops there, with a remote that it leaves alone and with
      this entry still there. Any other entry is uploaded. */
  lemma ForeignEntryStops<R>(upload: UploadFunc<R>, identity: string, r: R, list: seq<Entry>, replies: nat -> Replay,
                             k: nat)
    requires k < |list|
    ensures var e := list[k];
      if e.identity != identity || e.size < 0 || |e.data| != e.size || !replies(k).readOk then
        RecoverFrom(upload, identity, r, list, replies, k) == (r, k, Some(Storage))
      else
        var (after, res) := upload(r, e, replies(k).net);
        && (res.Err? ==> RecoverFrom(upload, identity, r, list, replies, k) == (after, k, Some(res.error)))
        && (res.Ok? && !replies(k).removeOk ==>
              RecoverFrom(upload, identity, r, list, replies, k) == (after, k, Some(Storage)))
        && (res.Ok? && replies(k).removeOk ==>
              RecoverFrom(upload, identity, r, list, replies, k)
                == RecoverFrom(upload, identity, after, list, replies, k + 1))
  {}

  /** The whole outcome of a journalled write. One too large for the store is just uploaded. Otherwise an
      entry that cannot be written stops everything; after that the upload decides what the remote holds,
      and the entry stays exactly if something failed, be it only its removal. */
  lemma JournalKeepsFailures(cfg: StoreConfig, r: Remote, pending: Pending, path: Path, data: Bytes, base: Version,
                             baseSize: int, ranges: seq<Range>, net: Net, disk: Disk)
    ensures var (after, left, res) :=
      PutAndUploadSpec(Some(cfg), r, pending, path, data, base, baseSize, ranges, net, disk);
      var (stored, answer) := UploadSpec(r, path, data, base, baseSize, ranges, net);
      if |data| > cfg.maxBytes then after == stored && left == pending && res == answer
      else if !disk.putOk then after == r && left == pending && res == Err(Storage)
      else
        && after == stored && left - {path} == pending - {path}
        && (res.Ok? <==> answer.Ok? && disk.removeOk) && (res.Ok? ==> res == answer && path !in left)
        && (res.Err? ==>
              && res.error == (if answer.Err? then answer.error else Storage)
              && path in left && left[path] == Entry(path, data, |data|, cfg.identity, base, baseSize, ranges))
  {
    hide UploadSpec;
    var (after, left, res) :=
      PutAndUploadSpec(Some(cfg), r, pending, path, data, base, baseSize, ranges, net, disk);
    if |data| <= cfg.maxBytes && disk.putOk { assert left - {path} == pending - {path}; }
  }

  /** The remote after the first `k` listed entries were uploaded, each once and in order. */
  ghost function Replayed<R>(upload: UploadFunc<R>, r: R, list: seq<Entry>, replies: nat -> Replay, k: nat): R
    requires k <= |list|
  {
    if k == 0 then r else upload(Replayed(upload, r, list, replies, k - 1), list[k - 1], replies(k - 1).net).0
  }

  ghost predicate UploadOk<R>(upload: UploadFunc<R>, r: R, list: seq<Entry>, replies: nat -> Replay, i: nat)
    requires i < |list|
  {
    upload(Replayed(upload, r, list, replies, i), list[i], replies(i).net).1.Ok?
  }

  /** The first `k` entries were valid and their uploads succeeded. */
  ghost predicate PrefixOk<R>(upload: UploadFunc<R>, identity: string, r: R, list: seq<Entry>, replies: nat -> Replay,
                              k: nat)
    requires k <= |list|
  {
    k == 0 || (PrefixOk(upload, identity, r, list, replies, k - 1)
               && Replayable(identity, list[k - 1], replies(k - 1)) && UploadOk(upload, r, list, replies, k - 1))
  }

  /** Recovery processes the entries one by one from the front: without a failure every entry has
      been uploaded exactly once, in order; with a failure at entry `done` exactly the entries
      before it were uploaded and removed, and nothing after it was attempted. */
  lemma RecoverConserves<R>(upload: UploadFunc<R>, identity: string, r: R, list: seq<Entry>, replies: nat -> Replay)
    ensures var (after, done, failure) := RecoverFrom(upload, identity, r, list, replies, 0);
      && done <= |list| && (failure.None? <==> done == |list|)
      && PrefixOk(upload, identity, r, list, replies, done)
      && (after == Replayed(upload, r, list, replies, done)
          || (done < |list| && after == Replayed(upload, r, list, replies, done + 1)))
  {
    RecoverConservesFrom(upload, identity, r, list, replies, 0);
  }

  lemma {:induction false} RecoverConservesFrom<R>(upload: UploadFunc<R>, identity: string, r: R, list: seq<Entry>,
                                                replies: nat -> Replay, k: nat)
    requires k <= |list| && PrefixOk(upload, identity, r, list, replies, k)
    ensures var (after, done, failure) :=
      RecoverFrom(upload, identity, Replayed(upload, r, list, replies, k), list, replies, k);
      && k <= done <= |list| && (failure.None? <==> done == |list|)
      && PrefixOk(upload, identity, r, list, replies, done)
      && (after == Replayed(upload, r, list, replies, done)
          || (done < |list| && after == Replayed(upload, r, list, replies, done + 1)))
    decreases |list| - k
  {
    var now := Replayed(upload, r, list, replies, k);
    if k == |list| || !Replayable(identity, list[k], replies(k)) {
    } else {
      var (after, res) := upload(now, list[k], replies(k).net);
      assert Replayed(upload, r, list, replies, k + 1) == after;
      if res.Ok? && replies(k).removeOk {
        assert UploadOk(upload, r, list, replies, k);
        RecoverConservesFrom(upload, identity, r, list, replies, k + 1);
      }
    }
  }
}
