/** What a drain leaves behind (`fuse_mount_control.go`): after the flushes, and after the replay of the
    pending store that follows them. */
module DrainEnd {
  import opened Basics
  import opened Versions
  import opened DirtyRanges
  import opened Upload
  import opened WriteBack
  import opened Handles
  import opened Protocol
  import opened Drain

  // ---------- one flush ----------

  /** An undisturbed upload touches the remote only at its own path. */
  lemma UploadFrame(r: Remote, at: Path, data: Bytes, base: Version, baseSize: int, ranges: seq<Range>, net: Net,
                    path: Path)
    requires Undisturbed(net) && path != at
    ensures var files := UploadSpec(r, at, data, base, baseSize, ranges, net).0.files;
      (path in files <==> path in r.files) && (path in r.files ==> files[path] == r.files[path])
  {
    hide ShouldPatch;
    UndisturbedLands(r);
    if net.patch.Patched? && at in r.files {
      var partSize := CalcAdaptivePartSize(Max(baseSize, |data|));
      var content := PatchedContent(r.files[at].content, data, DirtyPartSet(ranges, partSize, |data|), partSize);
      UndisturbedLands(SetContent(r, at, content, base, net.patch.version));
    }
  }

  /** So does a flush, which also touches the pending store only at its own entry. */
  lemma FlushFrame(cfg: Option<StoreConfig>, h: Handle, w: World, net: Net, disk: Disk, path: Path)
    requires Undisturbed(net) && (path != h.path || !Uploads(h))
    ensures var w' := FlushSpec(cfg, h, w, net, disk).1;
      && (path in w'.remote.files <==> path in w.remote.files)
      && (path in w.remote.files ==> w'.remote.files[path] == w.remote.files[path])
      && (path in w'.pending <==> path in w.pending)
  {
    hide UploadSpec;
    if Uploads(h) {
      UploadFrame(w.remote, h.path, h.data, h.version, h.baseSize, UploadRanges(h), net, path);
    }
  }

  /** After a successful flush through the store the path has a journal entry exactly when the
      buffer was too large to be journalled and an older entry was there. */
  lemma FlushedEntryGone(cfg: StoreConfig, h: Handle, w: World, net: Net, disk: Disk)
    requires Uploads(h) && FlushSpec(Some(cfg), h, w, net, disk).2.None?
    ensures h.path in FlushSpec(Some(cfg), h, w, net, disk).1.pending <==>
      |h.data| > cfg.maxBytes && h.path in w.pending
  {}

  /** A revision that the service gives to what an upload stores. */
  predicate Stamps(net: Net, revision: int) {
    || (net.patch.Patched? && revision == net.patch.version.revision)
    || (!net.write.WriteFails? && revision == net.write.version.revision)
  }

  /** The file has a revision that none of the handles has. */
  ghost predicate Stamped(hs: seq<Handle>, files: Files, path: Path) {
    && path in files && files[path].version.revision > 0
    && forall j :: 0 <= j < |hs| ==> files[path].version.revision != hs[j].version.revision
  }

  /** Revisions change on every write: what is stored gets one that no handle of the drain has. */
  ghost predicate StampsAreNew(hs: seq<Handle>, net: Net) {
    forall v :: Stamps(net, v) ==> v > 0 && forall j :: 0 <= j < |hs| ==> v != hs[j].version.revision
  }

  lemma FlushStamps(cfg: Option<StoreConfig>, hs: seq<Handle>, h: Handle, w: World, net: Net, disk: Disk, base: Bytes)
    requires Coherent(h, base) && Uploads(h) && Undisturbed(net) && Names(w.remote.files, h.path, h.version, base)
    requires StampsAreNew(hs, net) && FlushSpec(cfg, h, w, net, disk).2.None?
    ensures Stamped(hs, FlushSpec(cfg, h, w, net, disk).1.remote.files, h.path)
  {
    UploadStamps(w.remote, h, net, base);
    var (after, res) := UploadSpec(w.remote, h.path, h.data, h.version, h.baseSize, UploadRanges(h), net);
    assert Stamps(net, after.files[h.path].version.revision);
  }

  lemma UploadStamps(r: Remote, h: Handle, net: Net, base: Bytes)
    requires Coherent(h, base) && Undisturbed(net) && Names(r.files, h.path, h.version, base)
    ensures var (after, res) := UploadSpec(r, h.path, h.data, h.version, h.baseSize, UploadRanges(h), net);
      res.Ok? ==> h.path in after.files && Stamps(net, after.files[h.path].version.revision)
  {
    UndisturbedLands(r);
    var ranges := UploadRanges(h);
    if CheckSpec(r.files, h.path, h.version, net.check).None? && ShouldPatch(h.version, h.baseSize, |h.data|, ranges) {
      CoherentUploadTracks(h, base);
      NoConflictPinsRevision(r.files[h.path].version, h.version);
      var partSize := CalcAdaptivePartSize(Max(h.baseSize, |h.data|));
      PatchSendsSomething(h.data, h.baseSize, ranges, h.version, base, partSize);
      var parts := DirtyPartSet(ranges, partSize, |h.data|);
      if net.patch.Patched? {
        var content := PatchedContent(r.files[h.path].content, h.data, parts, partSize);
        UndisturbedLands(SetContent(r, h.path, content, h.version, net.patch.version));
      }
    }
  }

  /** A handle whose file has meanwhile got another revision is refused. */
  lemma StampedConflicts(cfg: Option<StoreConfig>, hs: seq<Handle>, i: nat, w: World, net: Net, disk: Disk)
    requires i < |hs| && Uploads(hs[i]) && hs[i].version.revision > 0 && Stamped(hs, w.remote.files, hs[i].path)
    ensures FlushSpec(cfg, hs[i], w, net, disk).2.Some?
    ensures net.check.Answered? && (cfg.None? || |hs[i].data| > cfg.value.maxBytes || disk.putOk) ==>
      FlushSpec(cfg, hs[i], w, net, disk).2 == Some(Conflict)
  {}

  // ---------- the flushes, one after the other ----------

  /** The handles from `k` on that will upload are coherent with contents the remote still names. */
  ghost predicate ReadyFrom(hs: seq<Handle>, bases: seq<Bytes>, files: Files, k: nat) {
    && |bases| == |hs|
    && forall i :: k <= i < |hs| && Uploads(hs[i]) ==> ReadyAt(hs[i], bases[i], files)
  }

  ghost predicate ReadyAt(h: Handle, base: Bytes, files: Files) {
    h.version.revision > 0 && Coherent(h, base) && Names(files, h.path, h.version, base)
  }

  /** The first `k` uploading handles have their bytes on the remote under new revisions, and no two of
      them have the same path. */
  ghost predicate CommittedUpTo(hs: seq<Handle>, files: Files, k: nat)
    requires k <= |hs|
  {
    && (forall i :: 0 <= i < k && Uploads(hs[i]) ==>
          ContentAt(files, hs[i].path) == Some(hs[i].data) && Stamped(hs, files, hs[i].path))
    && (forall i, j :: 0 <= i < j < k && Uploads(hs[i]) && Uploads(hs[j]) ==> hs[i].path != hs[j].path)
  }

  lemma DrainOne(cfg: Option<StoreConfig>, hs: seq<Handle>, bases: seq<Bytes>, w: World, k: nat, net: Net, disk: Disk)
    requires k < |hs| && CommittedUpTo(hs, w.remote.files, k) && ReadyFrom(hs, bases, w.remote.files, k)
    requires Undisturbed(net) && StampsAreNew(hs, net) && FlushSpec(cfg, hs[k], w, net, disk).2.None?
    ensures var w' := FlushSpec(cfg, hs[k], w, net, disk).1;
      CommittedUpTo(hs, w'.remote.files, k + 1) && ReadyFrom(hs, bases, w'.remote.files, k + 1)
  {
    hide FlushSpec, Coherent, StampsAreNew;
    var h, w' := hs[k], FlushSpec(cfg, hs[k], w, net, disk).1;
    if Uploads(h) {
      assert ReadyAt(h, bases[k], w.remote.files);
      FlushCommitsBuffer(cfg, h, w, net, disk, bases[k]);
      FlushStamps(cfg, hs, h, w, net, disk, bases[k]);
      forall i | 0 <= i < k && Uploads(hs[i]) ensures hs[i].path != h.path {
        if hs[i].path == h.path { StampedConflicts(cfg, hs, k, w, net, disk); }
      }
    }
    forall i | 0 <= i < |hs| && i != k && Uploads(hs[i]) && (!Uploads(h) || hs[i].path != h.path)
      ensures hs[i].path in w'.remote.files <==> hs[i].path in w.remote.files
      ensures hs[i].path in w.remote.files ==> w'.remote.files[hs[i].path] == w.remote.files[hs[i].path]
    {
      FlushFrame(cfg, h, w, net, disk, hs[i].path);
    }
    forall i | k < i < |hs| && Uploads(hs[i]) ensures ReadyAt(hs[i], bases[i], w'.remote.files) {
      assert ReadyAt(hs[i], bases[i], w.remote.files);
    }
  }

  /** What a drain is given: handles coherent with what they have read, a service that nobody else uses
      meanwhile and that gives new revisions. */
  ghost predicate Drainable(hs: seq<Handle>, bases: seq<Bytes>, w: World, env: nat -> FlushEnv) {
    && ReadyFrom(hs, bases, w.remote.files, 0)
    && forall k :: 0 <= k < |hs| ==> Undisturbed(env(k).net) && StampsAreNew(hs, env(k).net)
  }

  /** After successful flushes, in whatever order the handles came, the remote holds their bytes. */
  lemma {:induction false} FlushesCommit(cfg: Option<StoreConfig>, hs: seq<Handle>, bases: seq<Bytes>, w: World,
                                         env: nat -> FlushEnv, k: nat)
    requires k <= |hs| && Drainable(hs, bases, w, env) && AllFlushed(Flushing(cfg), hs, w, env, k)
    ensures var w' := WorldAfter(Flushing(cfg), hs, w, env, k);
      CommittedUpTo(hs, w'.remote.files, k) && ReadyFrom(hs, bases, w'.remote.files, k)
  {
    hide CommittedUpTo, ReadyFrom, StampsAreNew;
    if k == 0 {
      NothingCommitted(hs, w.remote.files);
    } else {
      FlushesCommit(cfg, hs, bases, w, env, k - 1);
      var before := WorldAfter(Flushing(cfg), hs, w, env, k - 1);
      DrainOne(cfg, hs, bases, before, k - 1, env(k - 1).net, env(k - 1).disk);
    }
  }

  lemma NothingCommitted(hs: seq<Handle>, files: Files)
    ensures CommittedUpTo(hs, files, 0)
  {}

  /** Of two dirty handles on one path only the first can be flushed: the flush of the second is refused,
      as a conflict unless the check or the journal fails first, so the drain fails. */
  lemma SecondFlushConflicts(cfg: Option<StoreConfig>, hs: seq<Handle>, bases: seq<Bytes>, w: World,
                             env: nat -> FlushEnv, i: nat, j: nat)
    requires Drainable(hs, bases, w, env) && i < j < |hs| && AllFlushed(Flushing(cfg), hs, w, env, j)
    requires Uploads(hs[i]) && Uploads(hs[j]) && hs[i].path == hs[j].path
    ensures !AllFlushed(Flushing(cfg), hs, w, env, |hs|)
    ensures var failure := Flushing(cfg)(hs[j], WorldAfter(Flushing(cfg), hs, w, env, j), env(j)).2;
      && failure.Some?
      && (env(j).net.check.Answered? && (cfg.None? || |hs[j].data| > cfg.value.maxBytes || env(j).disk.putOk) ==>
            failure == Some(Conflict))
  {
    hide FlushSpec, Coherent, StampsAreNew;
    FlushesCommit(cfg, hs, bases, w, env, j);
    assert ReadyAt(hs[j], bases[j], w.remote.files);
    StampedConflicts(cfg, hs, j, WorldAfter(Flushing(cfg), hs, w, env, j), env(j).net, env(j).disk);
    if AllFlushed(Flushing(cfg), hs, w, env, |hs|) { AllFlushedPrefix(Flushing(cfg), hs, w, env, |hs|, j + 1); }
  }

  // ---------- what is pending after the flushes ----------

  /** The handle's bytes go through the pending store. */
  predicate Journalled(cfg: Option<StoreConfig>, h: Handle) { cfg.Some? && |h.data| <= cfg.value.maxBytes }

  lemma FlushPending(cfg: Option<StoreConfig>, h: Handle, w: World, net: Net, disk: Disk, path: Path)
    requires FlushSpec(cfg, h, w, net, disk).2.None?
    ensures var w' := FlushSpec(cfg, h, w, net, disk).1;
      && (path in w'.pending <==> path in w.pending && !(Uploads(h) && h.path == path && Journalled(cfg, h)))
      && (path in w'.pending ==> w'.pending[path] == w.pending[path])
  {
    hide UploadSpec;
  }

  /** Successful flushes only take entries away: those of the paths they flushed through the store. */
  lemma {:induction false} PendingLeft(cfg: Option<StoreConfig>, hs: seq<Handle>, w: World, env: nat -> FlushEnv,
                                       k: nat,
                                       path: Path)
    requires k <= |hs| && AllFlushed(Flushing(cfg), hs, w, env, k)
    ensures var w' := WorldAfter(Flushing(cfg), hs, w, env, k);
      && (path in w'.pending <==>
            path in w.pending && forall i :: 0 <= i < k && Uploads(hs[i]) && hs[i].path == path ==>
              !Journalled(cfg, hs[i]))
      && (path in w'.pending ==> w'.pending[path] == w.pending[path])
  {
    hide FlushSpec;
    if k == 0 {
    } else {
      PendingLeft(cfg, hs, w, env, k - 1, path);
      var before := WorldAfter(Flushing(cfg), hs, w, env, k - 1);
      FlushPending(cfg, hs[k - 1], before, env(k - 1).net, env(k - 1).disk, path);
    }
  }

  // ---------- the replay ----------

  /** An entry that may be uploaded leaves its bytes if its upload succeeds. */
  lemma EntryStores(r: Remote, e: Entry, net: Net, named: Naming)
    requires AllNamed(r.files, named) && UploadOkFor(e.path, e.data, e.base, e.baseSize, e.ranges, named)
    requires Undisturbed(net) && EntryUpload(r, e, net).1.Ok?
    ensures ContentAt(EntryUpload(r, e, net).0.files, e.path) == Some(e.data)
  {
    UndisturbedLands(r);
    if ShouldPatch(e.base, e.baseSize, |e.data|, e.ranges) {
      UploadStoresBuffer(r, e.path, e.data, e.base, e.baseSize, e.ranges, net);
    }
  }

  /** No two listed entries have the same path. */
  ghost predicate DistinctEntries(list: seq<Entry>) {
    forall i, j :: 0 <= i < j < |list| ==> list[i].path != list[j].path
  }

  /** The remote names its contents before each replayed entry, and the entries may be uploaded. */
  ghost predicate ReplaysNamed(r: Remote, list: seq<Entry>, replies: nat -> Replay, named: Naming) {
    && (forall k :: 0 <= k < |list| ==> AllNamed(Replayed(EntryUpload, r, list, replies, k).files, named))
    && (forall k :: 0 <= k < |list| ==>
          && UploadOkFor(list[k].path, list[k].data, list[k].base, list[k].baseSize, list[k].ranges, named)
          && Undisturbed(replies(k).net))
  }

  /** After `k` successful replays a path has the bytes of its entry if it was among them, and is as it
      was otherwise. */
  lemma {:induction false} ReplayedContent(identity: string, r: Remote, list: seq<Entry>, replies: nat -> Replay,
                                           named: Naming, k: nat, path: Path)
    requires k <= |list| && DistinctEntries(list) && ReplaysNamed(r, list, replies, named)
    requires PrefixOk(EntryUpload, identity, r, list, replies, k)
    ensures var after := Replayed(EntryUpload, r, list, replies, k).files;
      && (forall j :: 0 <= j < k && list[j].path == path ==> ContentAt(after, path) == Some(list[j].data))
      && ((forall j :: 0 <= j < k ==> list[j].path != path) ==> ContentAt(after, path) == ContentAt(r.files, path))
  {
    hide AllNamed, UploadOkFor, Undisturbed, Replayable, UploadSpec;
    if k == 0 {
    } else {
      ReplayedContent(identity, r, list, replies, named, k - 1, path);
      var before, e, net := Replayed(EntryUpload, r, list, replies, k - 1), list[k - 1], replies(k - 1).net;
      assert UploadOk(EntryUpload, r, list, replies, k - 1);
      if e.path == path {
        EntryStores(before, e, net, named);
      } else {
        UploadFrame(before, e.path, e.data, e.base, e.baseSize, e.ranges, net, path);
      }
    }
  }

  // ---------- the end of the drain ----------

  ghost function StoreOf(store: WriteBackStore?): Option<StoreConfig> {
    if store == null then None else Some(store.Config())
  }

  /** The entries that are replayed come from the journal as it was before the drain. */
  lemma ListedComesFrom(key: Path -> int, pending: Pending, k: nat)
    requires forall p, q :: key(p) == key(q) ==> p == q
    requires k < |pending| && forall p :: p in pending ==> pending[p].path == p
    ensures var e := EntryList(key, pending)[k]; e.path in pending && e == pending[e.path]
  {
    ListedEntry(key, pending, k);
  }

  lemma PathIsListed(key: Path -> int, pending: Pending, path: Path) returns (k: nat)
    requires forall p, q :: key(p) == key(q) ==> p == q
    requires path in pending && forall p :: p in pending ==> pending[p].path == p
    ensures k < |pending| && EntryList(key, pending)[k] == pending[path] && EntryList(key, pending)[k].path == path
  {
    ListCoversPending(key, pending);
    var list := EntryList(key, pending);
    assert path in FirstPaths(list, |list|);
    k :| 0 <= k < |list| && list[k].path == path;
    ListedEntry(key, pending, k);
  }

  lemma ListedDistinct(key: Path -> int, pending: Pending)
    requires forall p, q :: key(p) == key(q) ==> p == q
    requires forall p :: p in pending ==> pending[p].path == p
    ensures DistinctEntries(EntryList(key, pending))
  {
    var list := EntryList(key, pending);
    forall i, j | 0 <= i < j < |list| ensures list[i].path != list[j].path {
      ListedEntry(key, pending, i);
      ListedEntry(key, pending, j);
    }
  }

  /** What the replay of a whole journal leaves at a path. */
  lemma RecoveredContent(store: WriteBackStore, mid: World, end: World, replies: nat -> Replay, named: Naming,
                         path: Path)
    requires Recovered(store, mid, end, replies) && forall p :: p in mid.pending ==> mid.pending[p].path == p
    requires ReplaysNamed(mid.remote, EntryList(store.key, mid.pending), replies, named)
    ensures ContentAt(end.remote.files, path) ==
      if path in mid.pending then Some(mid.pending[path].data) else ContentAt(mid.remote.files, path)
  {
    hide ReplaysNamed, RecoverFrom, PrefixOk;
    var list := EntryList(store.key, mid.pending);
    RecoverConserves(EntryUpload, store.identity, mid.remote, list, replies);
    ListedDistinct(store.key, mid.pending);
    ReplayedContent(store.identity, mid.remote, list, replies, named, |list|, path);
    if path in mid.pending {
      var k := PathIsListed(store.key, mid.pending, path);
      assert list[k].path == path;
    } else {
      forall j | 0 <= j < |list| ensures list[j].path != path { ListedComesFrom(store.key, mid.pending, j); }
    }
  }

  /** A recovery that stops loses no journalled write: each is still there, unchanged, or was uploaded
      successfully in its turn. */
  lemma StoppedRecoveryKeeps(store: WriteBackStore, mid: World, end: World, replies: nat -> Replay, error: Error,
                             path: Path)
    requires RecoveryStops(store, mid, end, replies, error) && path in mid.pending
    requires forall p :: p in mid.pending ==> mid.pending[p].path == p
    ensures var list := EntryList(store.key, mid.pending);
      || (path in end.pending && end.pending[path] == mid.pending[path])
      || exists k :: 0 <= k < |list| && list[k] == mid.pending[path] &&
           UploadOk(EntryUpload, mid.remote, list, replies, k)
  {
    hide RecoverFrom, EntryList, UploadOk, PrefixOk;
    var list := EntryList(store.key, mid.pending);
    RecoverConserves(EntryUpload, store.identity, mid.remote, list, replies);
    var done := RecoverFrom(EntryUpload, store.identity, mid.remote, list, replies, 0).1;
    if path in FirstPaths(list, done) {
      var k :| 0 <= k < done && list[k].path == path;
      ListedComesFrom(store.key, mid.pending, k);
      PrefixWasUploaded(store.identity, mid.remote, list, replies, done, k);
    }
  }

  lemma {:induction false} PrefixWasUploaded(identity: string, r: Remote, list: seq<Entry>, replies: nat -> Replay,
                                             done: nat, k: nat)
    requires k < done <= |list| && PrefixOk(EntryUpload, identity, r, list, replies, done)
    ensures UploadOk(EntryUpload, r, list, replies, k)
  {
    hide UploadOk, Replayable;
    if k == done - 1 {
    } else {
      PrefixWasUploaded(identity, r, list, replies, done - 1, k);
    }
  }

  /** At the end of a drain without failure the remote holds the bytes of a dirty undeleted handle
      exactly if they went through the pending store, or no older write of the same path was pending, or
      that one had the same bytes: an older entry is replayed over a buffer that bypassed the store. */
  lemma DrainEndsWithBuffers(store: WriteBackStore?, hs: seq<Handle>, bases: seq<Bytes>, w: World, env: nat -> FlushEnv,
                             now: seq<Handle>, mid: World, end: World, replies: nat -> Replay, named: Naming, i: nat)
    requires Drainable(hs, bases, w, env) && i < |hs| && Uploads(hs[i])
    requires Progress(Flushing(StoreOf(store)), hs, w, env, now, mid, |hs|)
    requires Recovered(store, mid, end, replies) && forall p :: p in w.pending ==> w.pending[p].path == p
    requires store != null ==> ReplaysNamed(mid.remote, EntryList(store.key, mid.pending), replies, named)
    ensures ContentAt(end.remote.files, hs[i].path) == Some(hs[i].data) <==>
      || store == null || Journalled(StoreOf(store), hs[i])
      || hs[i].path !in w.pending || w.pending[hs[i].path].data == hs[i].data
  {
    hide Drainable, ReplaysNamed, ReadyFrom, Stamped;
    var cfg, path := StoreOf(store), hs[i].path;
    FlushesCommit(cfg, hs, bases, w, env, |hs|);
    assert ContentAt(mid.remote.files, path) == Some(hs[i].data);
    if store != null {
      forall p | p in mid.pending ensures mid.pending[p].path == p { PendingLeft(cfg, hs, w, env, |hs|, p); }
      RecoveredContent(store, mid, end, replies, named, path);
      PendingLeft(cfg, hs, w, env, |hs|, path);
      forall j | 0 <= j < |hs| && Uploads(hs[j]) && hs[j].path == path ensures j == i {}
    }
  }

  /** No two of the handles such a drain uploads have the same path. */
  lemma DrainedPathsDiffer(store: WriteBackStore?, hs: seq<Handle>, bases: seq<Bytes>, w: World, env: nat -> FlushEnv,
                           now: seq<Handle>, mid: World)
    requires Drainable(hs, bases, w, env) && Progress(Flushing(StoreOf(store)), hs, w, env, now, mid, |hs|)
    ensures forall i, j :: 0 <= i < j < |hs| && Uploads(hs[i]) && Uploads(hs[j]) ==> hs[i].path != hs[j].path
  {
    FlushesCommit(StoreOf(store), hs, bases, w, env, |hs|);
  }

  // ---------- an older entry that wins ----------

  const TINY := StoreConfig(1, "m")
  const READY := Disk(true, true)

  function Answering(write: WriteReply): Net { Net(Answered, NOBODY, PatchFails(false), NOBODY, Answered, write) }

  /** Creating a file when the reply to the write is lost leaves an entry with empty bytes and no base. */
  lemma LostCreateLeavesEntry(path: Path, w: World)
    ensures var (after, res) :=
      StoreSpec(Some(TINY), w, path, [], UNKNOWN, 0, [Range(0, 0)], Answering(ReplyLost(Version(1, ""))), READY);
      && res.Err? && path in after.pending && after.pending[path] == NewEntry("m", path, [], UNKNOWN, 0, [Range(0, 0)])
  {}

  function OldEntry(path: Path): Entry { NewEntry("m", path, [], UNKNOWN, 0, [Range(0, 0)]) }

  ghost function LargeHandle(path: Path): Handle {
    WriteHandle(OpenSpec(path, [], true, false, Version(1, ""), false), [1, 2], 0)
  }

  function WithOldEntry(path: Path, content: Bytes, revision: int): Remote {
    Remote(map[path := Obj(content, Version(revision, ""))], [])
  }

  lemma LargeHandleIs(path: Path)
    ensures var h := LargeHandle(path);
      && Uploads(h) && h.data == [1, 2] && Coherent(h, []) && h.ranges == [Range(0, 2)] && h.path == path
      && h.version == Version(1, "") && !h.forceWhole && h.baseSize == 0
  {
    assert [] + [Range(0, 2)] == [Range(0, 2)];
    MergedOfCanonical([Range(0, 2)]);
  }

  /** The replay of the old entry, whatever is there. */
  lemma OldEntryReplays(r: Remote, path: Path)
    ensures var reply := Replay(true, Answering(Written(Version(3, ""), 3)), true);
      var (after, done, stopped) := RecoverFrom(EntryUpload, "m", r, [OldEntry(path)], _ => reply, 0);
      done == 1 && stopped.None? && path in after.files && after.files[path].content == []
  {
    UndisturbedLands(r);
    var reply := Replay(true, Answering(Written(Version(3, ""), 3)), true);
    var after := EntryUpload(r, OldEntry(path), reply.net).0;
    assert RecoverFrom(EntryUpload, "m", after, [OldEntry(path)], _ => reply, 1) == (after, 1, None);
  }

  /** A dirty handle on the same path whose buffer is too large for the store is flushed past it. The
      recovery then replays the empty entry, which nothing refuses, and the drain reports no failure:
      the buffer is gone. */
  lemma OlderEntryOverwrites(path: Path)
    ensures var h, w := LargeHandle(path), World(WithOldEntry(path, [], 1), map[path := OldEntry(path)], []);
      var (h', mid, failure) := FlushSpec(Some(TINY), h, w, Answering(Written(Version(2, ""), 2)), READY);
      var reply := Replay(true, Answering(Written(Version(3, ""), 3)), true);
      var (after, done, stopped) := RecoverFrom(EntryUpload, "m", mid.remote, [OldEntry(path)], _ => reply, 0);
      && Uploads(h) && h.data == [1, 2] && Coherent(h, []) && failure.None? && mid.pending == w.pending
      && done == 1 && stopped.None? && path in after.files && after.files[path].content == []
  {
    hide LargeHandle, RecoverFrom, Merged, Coherent;
    var h, r := LargeHandle(path), WithOldEntry(path, [], 1);
    LargeHandleIs(path);
    UndisturbedLands(r);
    var w := World(r, map[path := OldEntry(path)], []);
    OldEntryReplays(FlushSpec(Some(TINY), h, w, Answering(Written(Version(2, ""), 2)), READY).1.remote, path);
  }
}
