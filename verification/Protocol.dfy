/** Whole runs of the FUSE mount: open handles, the pending store, the read cache and other
    writers, acting on one remote file system in any order. */
module Protocol {
  import opened Basics
  import opened Versions
  import opened DirtyRanges
  import opened ReadCache
  import opened Upload
  import opened WriteBack
  import opened Handles

  /** What revisions name: a revision the service reports for a path determines the content. */
  type Naming = map<(Path, int), Bytes>

  datatype Config = Config(store: Option<StoreConfig>, maxFile: int)

  /** `handles` are the open handles by their open sequence number; `seen` is, for each of them,
      the content it last read from or committed to the remote. */
  datatype Sys = Sys(w: World, handles: map<int, Handle>, seen: map<int, Bytes>, named: Naming)

  datatype Step =
    | Open(id: int, path: Path, writable: bool, truncate: bool, cached: bool)
    | Create(id: int, path: Path, truncate: bool, net: Net, disk: Disk)
    | Write(id: int, data: Bytes, off: int)
    | Setattr(id: int, size: Option<nat>, mode: Option<int>)
    | Flush(id: int, net: Net, disk: Disk)
    | Release(id: int, net: Net, disk: Disk)
    | Unlink(path: Path)
    | Rename(source: Path, target: Path, moved: Files, version: Version, statOk: bool)
    | TruncatePath(path: Path, newSize: nat, cached: bool, net: Net, disk: Disk)
    | ReplayEntry(path: Path, reply: Replay)
    | External(others: Others)

  // ---------- the steps ----------

  predicate Live(h: Handle) { !h.closed && !h.deleted }

  predicate DirtySibling(s: Sys, path: Path, id: int) {
    id in s.handles && Live(s.handles[id]) && s.handles[id].path == path && s.handles[id].dirty
  }

  /** The newest dirty handle on the path, whose buffer a new handle inherits. */
  predicate NewestDirtySibling(s: Sys, path: Path, id: int) {
    DirtySibling(s, path, id) && forall k :: k in s.handles && DirtySibling(s, path, k) ==> k <= id
  }

  /** Reading a file at the version just observed, from the cache or from the remote. */
  predicate ReadsFile(cfg: Config, w: World, path: Path, cached: bool, data: Bytes, w': World)
    requires path in w.remote.files
  {
    var version := w.remote.files[path].version;
    if cached then
      var latest := Latest(w.hist, cfg.maxFile, path);
      latest.Some? && latest.value.0 == data && latest.value.1.Matches(version) && w' == w
    else
      data == w.remote.files[path].content && w' == w.(hist := w.hist + [Op.Put(path, data, version)])
  }

  predicate Fresh(s: Sys, id: int) { forall k :: k in s.handles ==> k < id }

  ghost predicate OpenStep(cfg: Config, s: Sys, st: Step, s': Sys)
    requires st.Open?
  {
    && Fresh(s, st.id) && st.path in s.w.remote.files
    && var obj := s.w.remote.files[st.path];
       var truncates := st.writable && st.truncate;
       if truncates then
         && s'.w == s.w
         && s'.handles == s.handles[st.id := OpenSpec(st.path, [], st.writable, true, obj.version, st.truncate)]
         && s'.seen == s.seen[st.id := obj.content]
       else if exists sib :: sib in s.handles && DirtySibling(s, st.path, sib) then
         exists sib :: sib in s.handles && sib in s.seen && NewestDirtySibling(s, st.path, sib)
           && s'.w == s.w
           && s'.handles == s.handles[st.id := OpenSpec(st.path, s.handles[sib].data, st.writable, false,
                                                        s.handles[sib].version, st.truncate)]
           && s'.seen == s.seen[st.id := s.seen[sib]]
       else
         exists data: Bytes :: ReadsFile(cfg, s.w, st.path, st.cached, data, s'.w)
           && s'.handles == s.handles[st.id := OpenSpec(st.path, data, st.writable, false, obj.version, st.truncate)]
           && s'.seen == s.seen[st.id := obj.content]
  }

  ghost predicate CreateStep(cfg: Config, s: Sys, st: Step, s': Sys)
    requires st.Create?
  {
    var (w', res) := StoreSpec(cfg.store, s.w, st.path, [], UNKNOWN, 0, [Range(0, 0)], st.net, st.disk);
    && Fresh(s, st.id) && s'.w == w'
    && if res.Ok? then
         && s'.handles == s.handles[st.id := OpenSpec(st.path, [], true, false, res.value, st.truncate)]
         && s'.seen == s.seen[st.id := []]
       else s'.handles == s.handles && s'.seen == s.seen
  }

  ghost predicate FlushStep(cfg: Config, s: Sys, id: int, net: Net, disk: Disk, s': Sys)
  {
    && id in s.handles && id in s.seen
    && var (h', w', failure) := FlushSpec(cfg.store, s.handles[id], s.w, net, disk);
       && s'.w == w'
       && s'.handles == s.handles[id := h']
       && s'.seen == if failure.None? && Uploads(s.handles[id]) then s.seen[id := s.handles[id].data] else s.seen
  }

  ghost predicate ReleaseStep(cfg: Config, s: Sys, st: Step, s': Sys)
    requires st.Release?
  {
    && st.id in s.handles
    && var (h', w', failure) := FlushSpec(cfg.store, s.handles[st.id].(closed := true), s.w, st.net, st.disk);
       && s'.w == w'
       && s'.handles == s.handles - {st.id} && s'.seen == s.seen - {st.id}
  }

  ghost predicate TruncateStep(cfg: Config, s: Sys, st: Step, s': Sys)
    requires st.TruncatePath?
  {
    && st.path in s.w.remote.files
    && exists data: Bytes, w1: World ::
         ReadsFile(cfg, s.w, st.path, st.cached, data, w1) && TruncatesTo(cfg, s, st, w1, Resized(data, st.newSize), s')
  }

  ghost predicate TruncatesTo(cfg: Config, s: Sys, st: Step, w1: World, resized: Bytes, s': Sys)
    requires st.TruncatePath? && st.path in s.w.remote.files
  {
    var base := s.w.remote.files[st.path].version;
    var (w', res) := StoreSpec(cfg.store, w1, st.path, resized, base, |resized|, [Range(0, |resized|)], st.net,
                               st.disk);
    && s'.w == w'
    && if res.Ok? then
         && s'.handles == (map id | id in s.handles :: RefreshHandle(s.handles[id], st.path, res.value))
         && s'.seen == (map id | id in s.seen ::
              if id in s.handles && Refreshes(s.handles[id], st.path) then resized else s.seen[id])
       else s'.handles == s.handles && s'.seen == s.seen
  }

  predicate Refreshes(h: Handle, path: Path) {
    Live(h) && h.writable && h.path == path && h.opensTruncated
  }

  /** `moved` is what the service makes of `files` when a file or a directory is renamed: everything at
      and below `source` is at its new path with its content, and elsewhere nothing changes. */
  ghost predicate RenamesTo(files: Files, source: Path, target: Path, moved: Files) {
    && (exists p :: p in files && Under(p, source))
    && (forall p :: p in files && Under(p, source) ==>
          && RenamedPath(p, source, target) in moved
          && moved[RenamedPath(p, source, target)].content == files[p].content)
    && (forall q :: q in moved && !Under(q, target) ==> q in files && !Under(q, source) && moved[q] == files[q])
    && (forall p :: p in files && !Under(p, source) && !Under(p, target) ==> p in moved && moved[p] == files[p])
  }

  ghost predicate StepRelation(cfg: Config, s: Sys, st: Step, s': Sys) {
    match st
    case Open(_, _, _, _, _) => OpenStep(cfg, s, st, s')
    case Create(_, _, _, _, _) => CreateStep(cfg, s, st, s')
    case Write(id, data, off) =>
      && id in s.handles && s'.w == s.w && s'.seen == s.seen
      && s'.handles == s.handles[id := WriteHandle(s.handles[id], data, off)]
    case Setattr(id, size, mode) =>
      && id in s.handles && s'.w == s.w && s'.seen == s.seen
      && s'.handles == s.handles[id := SetattrHandle(s.handles[id], size, mode).0]
    case Flush(id, net, disk) => FlushStep(cfg, s, id, net, disk, s')
    case Release(_, _, _) => ReleaseStep(cfg, s, st, s')
    case Unlink(path) =>
      && s'.w == World(s.w.remote.(files := s.w.remote.files - {path}), s.w.pending,
                       s.w.hist + [InvalidatePrefix(path)])
      && s'.handles == (map id | id in s.handles :: MarkDeletedHandle(s.handles[id], path)) && s'.seen == s.seen
    case Rename(source, target, moved, version, statOk) =>
      && RenamesTo(s.w.remote.files, source, target, moved)
      && s'.w == World(s.w.remote.(files := moved), s.w.pending,
                       s.w.hist + [InvalidatePrefix(source)] + [InvalidatePrefix(target)])
      && s'.handles == (map id | id in s.handles ::
           RetargetHandle(s.handles[id], source, target, if statOk then version else UNKNOWN))
      && s'.seen == s.seen
    case TruncatePath(_, _, _, _, _) => TruncateStep(cfg, s, st, s')
    case ReplayEntry(path, reply) =>
      && path in s.w.pending && s'.handles == s.handles && s'.seen == s.seen
      && var (after, res) := EntryUpload(s.w.remote, s.w.pending[path], reply.net);
         s'.w == World(after, if res.Ok? && reply.removeOk then s.w.pending - {path} else s.w.pending, s.w.hist)
    case External(others) =>
      && s'.w == s.w.(remote := Land(s.w.remote, others)) && s'.handles == s.handles && s'.seen == s.seen
  }

  /** The service names what it stores: every file has a positive revision, and at one path a
      revision never stands for two different contents. */
  ghost predicate AllNamed(files: Files, named: Naming) {
    forall p :: p in files ==>
      && files[p].version.revision > 0
      && (p, files[p].version.revision) in named
      && named[(p, files[p].version.revision)] == files[p].content
  }

  ghost predicate Grows(a: Naming, b: Naming) {
    forall k :: k in a ==> k in b && b[k] == a[k]
  }

  ghost predicate Next(cfg: Config, s: Sys, st: Step, s': Sys) {
    && StepRelation(cfg, s, st, s')
    && Grows(s.named, s'.named) && AllNamed(s'.w.remote.files, s'.named)
  }

  // ---------- the premises ----------

  /** Check and upload are one step, and a write reports the revision it produced. */
  predicate Atomic(net: Net) {
    && Undisturbed(net)
    && (net.write.Written? ==> net.write.reported == net.write.version.revision)
  }

  /** The handle has the revision that the remote file at its path has. */
  predicate UpToDate(files: Files, h: Handle) {
    h.path in files && h.version.revision == files[h.path].version.revision
  }

  /** The three places that rebind a handle without reading again are used only where they are
      harmless. A handle opened for writing inherits the buffer of a dirty one only if that is empty or
      is what the other one has seen; a handle that a rename moves is up to date before and after it; a
      truncated path refreshes only handles that upload everything, that have an empty base, or that
      are up to date and keep their size. */
  ghost predicate Benign(s: Sys, st: Step) {
    match st
    case Open(_, path, writable, truncate, _) =>
      writable && !truncate ==> forall sib :: sib in s.handles && NewestDirtySibling(s, path, sib) ==>
        CleanOrEmpty(s, sib)
    case Create(_, _, _, net, _) => Atomic(net)
    case Flush(_, net, _) => Atomic(net)
    case Release(_, net, _) => Atomic(net)
    case ReplayEntry(_, reply) => Atomic(reply.net)
    case Rename(source, target, moved, version, statOk) =>
      forall id :: id in s.handles && !s.handles[id].deleted && Under(s.handles[id].path, source) ==>
        && UpToDate(s.w.remote.files, s.handles[id])
        && UpToDate(moved, RetargetHandle(s.handles[id], source, target, if statOk then version else UNKNOWN))
    case TruncatePath(path, newSize, _, net, _) =>
      && Atomic(net)
      && forall id :: id in s.handles && Refreshes(s.handles[id], path) ==>
           RefreshIsHarmless(s.w.remote.files, s.handles[id], newSize)
    case _ => true
  }

  predicate CleanOrEmpty(s: Sys, id: int)
    requires id in s.handles
  {
    s.handles[id].data == [] || (id in s.seen && s.handles[id].data == s.seen[id])
  }

  predicate RefreshIsHarmless(files: Files, h: Handle, newSize: nat) {
    h.forceWhole || h.baseSize <= 0 || (newSize == h.baseSize && UpToDate(files, h))
  }

  // ---------- the invariant ----------

  /** A handle's version names, at its path, the content the handle has seen; a handle that can upload
      is coherent with it. */
  ghost predicate HandleOk(h: Handle, seen: Bytes, named: Naming) {
    h.deleted ||
    (&& h.version.revision > 0
     && (h.path, h.version.revision) in named && named[(h.path, h.version.revision)] == seen
     && (h.writable ==> Coherent(h, seen)))
  }

  ghost predicate HandlesOk(handles: map<int, Handle>, seen: map<int, Bytes>, named: Naming) {
    forall id :: id in handles ==> id in seen && HandleOk(handles[id], seen[id], named)
  }

  /** An upload with a known base says which content it expects, and if it may be patched then its
      dirty ranges track that content. */
  ghost predicate UploadOkFor(path: Path, data: Bytes, base: Version, baseSize: int, ranges: seq<Range>,
                              named: Naming) {
    base.Known() ==>
      && base.revision > 0 && (path, base.revision) in named
      && (Tracks(data, baseSize, ranges, named[(path, base.revision)])
          || !ShouldPatch(base, baseSize, |data|, ranges))
  }

  ghost predicate PendingOk(pending: Pending, named: Naming) {
    forall p :: p in pending ==>
      pending[p].path == p &&
        UploadOkFor(p, pending[p].data, pending[p].base, pending[p].baseSize, pending[p].ranges, named)
  }

  /** The change replaced exactly the content its base version names, or rewrote its own bytes. */
  ghost predicate ChangeOk(c: Change, named: Naming) {
    c.base.Known() ==>
      || ((c.path, c.base.revision) in named && c.replaced == Some(named[(c.path, c.base.revision)]))
      || c.replaced == Some(c.data)
  }

  /** No update is lost: every content change this client made with a known base. */
  ghost predicate NoLostUpdate(changes: seq<Change>, named: Naming) {
    forall i :: 0 <= i < |changes| ==> ChangeOk(changes[i], named)
  }

  ghost predicate Inv(s: Sys) {
    && AllNamed(s.w.remote.files, s.named)
    && HandlesOk(s.handles, s.seen, s.named)
    && PendingOk(s.w.pending, s.named)
    && SoundHistory(s.w.hist, s.named)
    && NoLostUpdate(s.w.remote.changes, s.named)
  }

  // ---------- naming only grows ----------

  lemma HandleOkGrows(h: Handle, seen: Bytes, a: Naming, b: Naming)
    requires HandleOk(h, seen, a) && Grows(a, b)
    ensures HandleOk(h, seen, b)
  {}

  lemma HandlesOkGrow(handles: map<int, Handle>, seen: map<int, Bytes>, a: Naming, b: Naming)
    requires HandlesOk(handles, seen, a) && Grows(a, b)
    ensures HandlesOk(handles, seen, b)
  {
    forall id | id in handles ensures id in seen && HandleOk(handles[id], seen[id], b) {
      HandleOkGrows(handles[id], seen[id], a, b);
    }
  }

  lemma PendingOkGrows(pending: Pending, a: Naming, b: Naming)
    requires PendingOk(pending, a) && Grows(a, b)
    ensures PendingOk(pending, b)
  {}

  lemma HistoryGrows(hist: seq<Op>, a: Naming, b: Naming)
    requires SoundHistory(hist, a) && Grows(a, b)
    ensures SoundHistory(hist, b)
  {}

  lemma ChangesGrow(changes: seq<Change>, a: Naming, b: Naming)
    requires NoLostUpdate(changes, a) && Grows(a, b)
    ensures NoLostUpdate(changes, b)
  {}

  // ---------- one upload ----------

  /** Everything the runs need to know about one atomic upload. */
  lemma UploadKeeps(r: Remote, path: Path, data: Bytes, base: Version, baseSize: int, ranges: seq<Range>, net: Net,
                    named: Naming, named': Naming)
    requires AllNamed(r.files, named) && NoLostUpdate(r.changes, named) && Grows(named, named')
    requires UploadOkFor(path, data, base, baseSize, ranges, named) && Atomic(net)
    requires AllNamed(UploadSpec(r, path, data, base, baseSize, ranges, net).0.files, named')
    ensures var (after, res) := UploadSpec(r, path, data, base, baseSize, ranges, net);
      && NoLostUpdate(after.changes, named')
      && (res.Ok? ==>
            && path in after.files && after.files[path].content == data
            && res.value.revision > 0 && (path, res.value.revision) in named'
            && named'[(path, res.value.revision)] == data)
      && (res.Ok? && base.Known() ==> path in r.files && r.files[path].content == named[(path, base.revision)])
  {
    ChangesGrow(r.changes, named, named');
    UndisturbedLands(r);
    if CheckSpec(r.files, path, base, net.check).None? {
      if base.Known() { NoConflictPinsRevision(r.files[path].version, base); }
      if ShouldPatch(base, baseSize, |data|, ranges) {
        TrackedPatchSets(r, path, data, base, baseSize, ranges, net);
      }
    }
  }

  /** An undisturbed patch of a tracked buffer does what a whole write would do. */
  lemma TrackedPatchSets(r: Remote, path: Path, data: Bytes, base: Version, baseSize: int, ranges: seq<Range>, net: Net)
    requires path in r.files && Undisturbed(net) && ShouldPatch(base, baseSize, |data|, ranges)
    requires Tracks(data, baseSize, ranges, r.files[path].content)
    ensures var (after, outcome) := PatchSpec(r, path, data, base, baseSize, ranges, net);
      && (after == r || (net.patch.Patched? && after == SetContent(r, path, data, base, net.patch.version)))
      && (outcome.PatchOk? ==>
            net.patch.Patched? && after != r && outcome.version == net.patch.version)
  {
    hide ShouldPatch, Tracks, PatchedContent, DirtyPartSet;
    var partSize := CalcAdaptivePartSize(Max(baseSize, |data|));
    PatchSendsSomething(data, baseSize, ranges, base, r.files[path].content, partSize);
    assert baseSize > 0 && |data| == baseSize by { PatchedSize(base, baseSize, |data|, ranges); }
    TrackedPatchIsBuffer(r.files[path].content, data, baseSize, ranges, partSize);
    if net.patch.Patched? {
      UndisturbedLands(SetContent(r, path, data, base, net.patch.version));
      assert |SetContent(r, path, data, base, net.patch.version).changes| != |r.changes|;
    }
  }

  lemma PatchedSize(base: Version, baseSize: int, newSize: int, ranges: seq<Range>)
    requires ShouldPatch(base, baseSize, newSize, ranges)
    ensures baseSize > 0 && newSize == baseSize
  {}

  /** The same for an upload that goes through the pending store and the read cache. */
  lemma StoreKeeps(cfg: Option<StoreConfig>, w: World, path: Path, data: Bytes, base: Version, baseSize: int,
                   ranges: seq<Range>, net: Net, disk: Disk, named: Naming, named': Naming)
    requires AllNamed(w.remote.files, named) && NoLostUpdate(w.remote.changes, named) && Grows(named, named')
    requires PendingOk(w.pending, named) && SoundHistory(w.hist, named)
    requires UploadOkFor(path, data, base, baseSize, ranges, named) && Atomic(net)
    requires AllNamed(StoreSpec(cfg, w, path, data, base, baseSize, ranges, net, disk).0.remote.files, named')
    ensures var (w', res) := StoreSpec(cfg, w, path, data, base, baseSize, ranges, net, disk);
      && NoLostUpdate(w'.remote.changes, named') && PendingOk(w'.pending, named') && SoundHistory(w'.hist, named')
      && (res.Ok? ==>
            && path in w'.remote.files && w'.remote.files[path].content == data
            && res.value.revision > 0 && (path, res.value.revision) in named'
            && named'[(path, res.value.revision)] == data)
      && (res.Ok? && base.Known() ==>
          path in w.remote.files && w.remote.files[path].content == named[(path, base.revision)])
  {
    hide UploadSpec, NoLostUpdate, ShouldPatch, Tracks, SoundHistory, PendingOk, AllNamed, Grows;
    PendingOkGrows(w.pending, named, named');
    HistoryGrows(w.hist, named, named');
    ChangesGrow(w.remote.changes, named, named');
    if cfg.Some? {
      var entry := NewEntry(cfg.value.identity, path, data, base, baseSize, ranges);
      JournalledOk(w.pending, entry, named, named');
    }
    if !(cfg.Some? && |data| <= cfg.value.maxBytes && !disk.putOk) {
      UploadKeeps(w.remote, path, data, base, baseSize, ranges, net, named, named');
    }
    forall v: Version | v.revision > 0 ==> (path, v.revision) in named' && named'[(path, v.revision)] == data
      ensures SoundHistory(w.hist + [Op.Put(path, data, v)], named')
    {
      HistoryAppend(w.hist, Op.Put(path, data, v), named');
    }
    HistoryAppend(w.hist, Op.Invalidate(path), named');
  }

  lemma HistoryAppend(hist: seq<Op>, op: Op, named: Naming)
    requires SoundHistory(hist, named)
    requires op.Put? && op.version.revision > 0 ==>
      (op.path, op.version.revision) in named && named[(op.path, op.version.revision)] == op.data
    ensures SoundHistory(hist + [op], named)
  {}

  lemma JournalledOk(pending: Pending, e: Entry, named: Naming, named': Naming)
    requires PendingOk(pending, named) && Grows(named, named')
    requires UploadOkFor(e.path, e.data, e.base, e.baseSize, e.ranges, named)
    ensures PendingOk(pending[e.path := e], named') && PendingOk(pending - {e.path}, named')
  {}

  lemma HandleMayUpload(h: Handle, seen: Bytes, named: Naming)
    requires HandleOk(h, seen, named) && h.writable && !h.deleted
    ensures UploadOkFor(h.path, h.data, h.version, h.baseSize, UploadRanges(h), named)
  {
    CoherentUploadTracks(h, seen);
  }

  /** A whole-buffer upload is never patched, so it needs no tracking. */
  lemma WholeMayUpload(path: Path, data: Bytes, base: Version, baseSize: int, named: Naming)
    requires base.Known() ==> base.revision > 0 && (path, base.revision) in named
    ensures UploadOkFor(path, data, base, baseSize, [Range(0, |data|)], named)
  {
    WholeBufferIsNotPatched(data, base);
  }

  /** A flush keeps the invariant; when it uploads and succeeds, the remote then holds the buffer,
      and what it replaced is exactly what the handle had seen. */
  lemma FlushKeeps(cfg: Config, s: Sys, h: Handle, seen: Bytes, net: Net, disk: Disk, named': Naming)
    requires Inv(s) && HandleOk(h, seen, s.named) && Atomic(net) && Grows(s.named, named')
    requires AllNamed(FlushSpec(cfg.store, h, s.w, net, disk).1.remote.files, named')
    ensures var (h', w', failure) := FlushSpec(cfg.store, h, s.w, net, disk);
      && NoLostUpdate(w'.remote.changes, named') && PendingOk(w'.pending, named') && SoundHistory(w'.hist, named')
      && HandleOk(h', if failure.None? && Uploads(h) then h.data else seen, named')
      && (failure.None? && Uploads(h) ==>
            && h.path in w'.remote.files && w'.remote.files[h.path].content == h.data
            && h.path in s.w.remote.files && s.w.remote.files[h.path].content == seen)
  {
    HandleOkGrows(h, seen, s.named, named');
    PendingOkGrows(s.w.pending, s.named, named');
    HistoryGrows(s.w.hist, s.named, named');
    ChangesGrow(s.w.remote.changes, s.named, named');
    if Uploads(h) {
      HandleMayUpload(h, seen, s.named);
      StoreKeeps(cfg.store, s.w, h.path, h.data, h.version, h.baseSize, UploadRanges(h), net, disk, s.named, named');
    }
  }

  lemma ReadKeeps(cfg: Config, s: Sys, path: Path, cached: bool, data: Bytes, w': World)
    requires Inv(s) && path in s.w.remote.files && ReadsFile(cfg, s.w, path, cached, data, w')
    ensures data == s.w.remote.files[path].content
    ensures SoundHistory(w'.hist, s.named) && w'.remote == s.w.remote && w'.pending == s.w.pending
  {
    var version := s.w.remote.files[path].version;
    if cached {
      var latest := Latest(s.w.hist, cfg.maxFile, path);
      HitReturnsNamedContent(s.w.hist, cfg.maxFile, s.named, path, version, data, latest.value.1);
    }
  }

  // ---------- each step keeps the invariant ----------

  /** What an open that is not a truncation puts into the handle: the buffer and the version of the
      newest dirty handle on the path, or what it reads. */
  lemma OpenCases(cfg: Config, s: Sys, st: Step, s': Sys) returns (data: Bytes, version: Version, seen: Bytes)
    requires Inv(s) && st.Open? && OpenStep(cfg, s, st, s') && !(st.writable && st.truncate)
    ensures s'.handles == s.handles[st.id := OpenSpec(st.path, data, st.writable, false, version, st.truncate)]
    ensures s'.seen == s.seen[st.id := seen]
    ensures forall sib :: sib in s.handles && NewestDirtySibling(s, st.path, sib) ==>
      && sib in s.seen && s'.w == s.w
      && data == s.handles[sib].data && version == s.handles[sib].version && seen == s.seen[sib]
    ensures (forall sib :: sib in s.handles ==> !DirtySibling(s, st.path, sib)) ==>
      && ReadsFile(cfg, s.w, st.path, st.cached, data, s'.w)
      && version == s.w.remote.files[st.path].version && seen == s.w.remote.files[st.path].content
    ensures (exists sib :: sib in s.handles && DirtySibling(s, st.path, sib)) ==>
      exists sib :: sib in s.handles && NewestDirtySibling(s, st.path, sib)
  {
    hide ReadsFile, OpenSpec, Inv;
    if exists sib :: sib in s.handles && DirtySibling(s, st.path, sib) {
      var sib :| sib in s.handles && sib in s.seen && NewestDirtySibling(s, st.path, sib)
        && s'.w == s.w
        && s'.handles == s.handles[st.id := OpenSpec(st.path, s.handles[sib].data, st.writable, false,
                                                     s.handles[sib].version, st.truncate)]
        && s'.seen == s.seen[st.id := s.seen[sib]];
      data, version, seen := s.handles[sib].data, s.handles[sib].version, s.seen[sib];
    } else {
      var obj := s.w.remote.files[st.path];
      data :| ReadsFile(cfg, s.w, st.path, st.cached, data, s'.w)
        && s'.handles == s.handles[st.id := OpenSpec(st.path, data, st.writable, false, obj.version, st.truncate)]
        && s'.seen == s.seen[st.id := obj.content];
      version, seen := obj.version, obj.content;
    }
  }

  /** A new handle that is all right keeps the invariant, whatever the cache learns. */
  lemma NewHandleKeeps(s: Sys, s': Sys, id: int, h: Handle, seen: Bytes)
    requires Inv(s) && Grows(s.named, s'.named) && AllNamed(s'.w.remote.files, s'.named)
    requires s'.handles == s.handles[id := h] && s'.seen == s.seen[id := seen] && HandleOk(h, seen, s'.named)
    requires s'.w.remote == s.w.remote && s'.w.pending == s.w.pending && SoundHistory(s'.w.hist, s.named)
    ensures Inv(s')
  {
    hide HandleOk, SoundHistory, PendingOk, NoLostUpdate, Grows, AllNamed;
    HandlesOkGrow(s.handles, s.seen, s.named, s'.named);
    PendingOkGrows(s.w.pending, s.named, s'.named);
    HistoryGrows(s'.w.hist, s.named, s'.named);
    ChangesGrow(s.w.remote.changes, s.named, s'.named);
  }

  lemma OpenKeeps(cfg: Config, s: Sys, st: Step, s': Sys)
    requires Inv(s) && st.Open? && Next(cfg, s, st, s') && Benign(s, st)
    ensures Inv(s')
  {
    if st.writable && st.truncate {
      TruncatingOpenKeeps(cfg, s, st, s');
    } else {
      OtherOpenKeeps(cfg, s, st, s');
    }
  }

  lemma TruncatingOpenKeeps(cfg: Config, s: Sys, st: Step, s': Sys)
    requires Inv(s) && st.Open? && Next(cfg, s, st, s') && st.writable && st.truncate
    ensures Inv(s')
  {
    hide OpenSpec, HandlesOk, PendingOk, SoundHistory, NoLostUpdate, HandleOk, ReadsFile;
    var obj := s.w.remote.files[st.path];
    OpenedHandleOk(st.path, [], obj.content, st.writable, true, obj.version, st.truncate, s'.named);
    NewHandleKeeps(s, s', st.id, OpenSpec(st.path, [], st.writable, true, obj.version, st.truncate), obj.content);
  }

  lemma OtherOpenKeeps(cfg: Config, s: Sys, st: Step, s': Sys)
    requires Inv(s) && st.Open? && Next(cfg, s, st, s') && Benign(s, st) && !(st.writable && st.truncate)
    ensures Inv(s')
  {
    hide OpenSpec, HandlesOk, PendingOk, SoundHistory, NoLostUpdate, HandleOk, ReadsFile, Benign, DirtySibling;
    hide NewestDirtySibling;
    var data, version, seen := OpenCases(cfg, s, st, s');
    if sib :| sib in s.handles && NewestDirtySibling(s, st.path, sib) {
      InheritedOk(s, st, sib, s'.named);
    } else {
      ReadKeeps(cfg, s, st.path, st.cached, data, s'.w);
      OpenedHandleOk(st.path, data, seen, st.writable, false, version, st.truncate, s'.named);
    }
    NewHandleKeeps(s, s', st.id, OpenSpec(st.path, data, st.writable, false, version, st.truncate), seen);
  }

  /** What an open gives: a new handle beside those there were. With truncation it is empty and dirty.
      Without, it is clean, and has the buffer and the version of the newest handle on the path that is
      dirty, not closed and not deleted, or the content and the version of the remote file if there is none. */
  lemma OpenGives(cfg: Config, s: Sys, st: Step, s': Sys)
    requires Inv(s) && st.Open? && OpenStep(cfg, s, st, s')
    ensures Opened(s, st, s')
  {
    hide ReadsFile, HandlesOk, PendingOk, SoundHistory, NoLostUpdate;
    if !(st.writable && st.truncate) {
      var data, version, seen := OpenCases(cfg, s, st, s');
      forall sib | sib in s.handles && IsNewest(s, st.path, sib) ensures NewestDirtySibling(s, st.path, sib) {}
      if forall sib :: sib in s.handles ==> !IsDirtyOn(s.handles[sib], st.path) {
        forall sib | sib in s.handles ensures !DirtySibling(s, st.path, sib) {}
        ReadKeeps(cfg, s, st.path, st.cached, data, s'.w);
      }
    }
  }

  /** The handle has changes of the file at this path that are still to be sent. */
  predicate IsDirtyOn(h: Handle, path: Path) { h.path == path && h.dirty && !h.closed && !h.deleted }

  predicate IsNewest(s: Sys, path: Path, id: int)
    requires id in s.handles
  {
    IsDirtyOn(s.handles[id], path) && forall k :: k in s.handles && k > id ==> !IsDirtyOn(s.handles[k], path)
  }

  /** What an open leaves. */
  ghost predicate Opened(s: Sys, st: Step, s': Sys)
    requires st.Open? && st.path in s.w.remote.files
  {
    && st.id !in s.handles && st.id in s'.handles && s'.handles == s.handles[st.id := s'.handles[st.id]]
    && var h, obj := s'.handles[st.id], s.w.remote.files[st.path];
       && h.path == st.path && h.writable == st.writable && h.opensTruncated == st.truncate
       && !h.closed && !h.deleted && !h.forceWhole && h.baseSize == |h.data|
       && if st.writable && st.truncate then h.data == [] && h.dirty && h.version == obj.version
          else
            && !h.dirty && h.ranges == []
            && (forall sib :: sib in s.handles && IsNewest(s, st.path, sib) ==>
                  h.data == s.handles[sib].data && h.version == s.handles[sib].version)
            && ((forall sib :: sib in s.handles ==> !IsDirtyOn(s.handles[sib], st.path)) ==>
                  h.data == obj.content && h.version == obj.version)
  }

  lemma OpenedHandleOk(path: Path, data: Bytes, seen: Bytes, writable: bool, truncates: bool, version: Version,
                       flag: bool, named: Naming)
    requires version.revision > 0 && (path, version.revision) in named && named[(path, version.revision)] == seen
    requires data == [] || data == seen
    requires truncates ==> data == []
    ensures HandleOk(OpenSpec(path, data, writable, truncates, version, flag), seen, named)
    ensures OpenSpec(path, data, writable, truncates, version, flag).data == data
  {
    assert Merged([]) == [];
  }

  /** A handle that inherits from a dirty one names what that one names; if it can upload then the
      inherited buffer is empty or is what was seen. */
  lemma InheritedOk(s: Sys, st: Step, sib: int, named: Naming)
    requires Inv(s) && st.Open? && Benign(s, st) && !(st.writable && st.truncate) && Grows(s.named, named)
    requires sib in s.handles && sib in s.seen && NewestDirtySibling(s, st.path, sib)
    ensures var h := s.handles[sib];
      var o := OpenSpec(st.path, h.data, st.writable, false, h.version, st.truncate);
      HandleOk(o, s.seen[sib], named) && o.data == h.data
  {
    var h := s.handles[sib];
    HandleOkGrows(h, s.seen[sib], s.named, named);
    if st.writable {
      assert CleanOrEmpty(s, sib);
      OpenedHandleOk(st.path, h.data, s.seen[sib], st.writable, false, h.version, st.truncate, named);
    }
  }

  lemma CreateKeeps(cfg: Config, s: Sys, st: Step, s': Sys)
    requires Inv(s) && st.Create? && Next(cfg, s, st, s') && Benign(s, st)
    ensures Inv(s')
  {
    HandlesOkGrow(s.handles, s.seen, s.named, s'.named);
    StoreKeeps(cfg.store, s.w, st.path, [], UNKNOWN, 0, [Range(0, 0)], st.net, st.disk, s.named, s'.named);
  }

  lemma FlushStepKeeps(cfg: Config, s: Sys, st: Step, s': Sys)
    requires Inv(s) && st.Flush? && Next(cfg, s, st, s') && Benign(s, st)
    ensures Inv(s')
  {
    HandlesOkGrow(s.handles, s.seen, s.named, s'.named);
    FlushKeeps(cfg, s, s.handles[st.id], s.seen[st.id], st.net, st.disk, s'.named);
  }

  lemma ReleaseKeeps(cfg: Config, s: Sys, st: Step, s': Sys)
    requires Inv(s) && st.Release? && Next(cfg, s, st, s') && Benign(s, st)
    ensures Inv(s')
  {
    HandlesOkGrow(s.handles, s.seen, s.named, s'.named);
    FlushKeeps(cfg, s, s.handles[st.id].(closed := true), s.seen[st.id], st.net, st.disk, s'.named);
  }

  lemma EditKeeps(cfg: Config, s: Sys, st: Step, s': Sys)
    requires Inv(s) && (st.Write? || st.Setattr?) && Next(cfg, s, st, s')
    ensures Inv(s')
  {
    var h := s.handles[st.id];
    if !h.deleted && h.writable {
      if st.Write? {
        WriteKeepsCoherence(h, s.seen[st.id], st.data, st.off);
      } else {
        SetattrKeepsCoherence(h, s.seen[st.id], st.size, st.mode);
      }
    }
    assert HandlesOk(s'.handles, s'.seen, s.named);
    HandlesOkGrow(s'.handles, s'.seen, s.named, s'.named);
    PendingOkGrows(s.w.pending, s.named, s'.named);
    HistoryGrows(s.w.hist, s.named, s'.named);
    ChangesGrow(s.w.remote.changes, s.named, s'.named);
  }

  lemma UnlinkKeeps(cfg: Config, s: Sys, st: Step, s': Sys)
    requires Inv(s) && st.Unlink? && Next(cfg, s, st, s')
    ensures Inv(s')
  {
    HandlesOkGrow(s.handles, s.seen, s.named, s'.named);
    PendingOkGrows(s.w.pending, s.named, s'.named);
    HistoryGrows(s.w.hist, s.named, s'.named);
    ChangesGrow(s.w.remote.changes, s.named, s'.named);
  }

  lemma ExternalKeeps(cfg: Config, s: Sys, st: Step, s': Sys)
    requires Inv(s) && st.External? && Next(cfg, s, st, s')
    ensures Inv(s')
  {
    HandlesOkGrow(s.handles, s.seen, s.named, s'.named);
    PendingOkGrows(s.w.pending, s.named, s'.named);
    HistoryGrows(s.w.hist, s.named, s'.named);
    ChangesGrow(s.w.remote.changes, s.named, s'.named);
  }

  lemma ReplayKeeps(cfg: Config, s: Sys, st: Step, s': Sys)
    requires Inv(s) && st.ReplayEntry? && Next(cfg, s, st, s') && Benign(s, st)
    ensures Inv(s')
  {
    var e := s.w.pending[st.path];
    HandlesOkGrow(s.handles, s.seen, s.named, s'.named);
    PendingOkGrows(s.w.pending, s.named, s'.named);
    HistoryGrows(s.w.hist, s.named, s'.named);
    UploadKeeps(s.w.remote, e.path, e.data, e.base, e.baseSize, e.ranges, st.reply.net, s.named, s'.named);
  }

  lemma RenameKeeps(cfg: Config, s: Sys, st: Step, s': Sys)
    requires Inv(s) && st.Rename? && Next(cfg, s, st, s') && Benign(s, st)
    ensures Inv(s')
  {
    hide NoLostUpdate, PendingOk, SoundHistory, Coherent, RenamesTo, AllNamed, Grows, UpToDate;
    HandlesOkGrow(s.handles, s.seen, s.named, s'.named);
    PendingOkGrows(s.w.pending, s.named, s'.named);
    HistoryGrows(s.w.hist, s.named, s'.named);
    ChangesGrow(s.w.remote.changes, s.named, s'.named);
    HistoryAppend(s.w.hist, InvalidatePrefix(st.source), s'.named);
    HistoryAppend(s.w.hist + [InvalidatePrefix(st.source)], InvalidatePrefix(st.target), s'.named);
    forall id | id in s'.handles ensures id in s'.seen && HandleOk(s'.handles[id], s'.seen[id], s'.named) {
      var h := s.handles[id];
      if !h.deleted && Under(h.path, st.source) {
        RenamedHandleOk(s.w.remote.files, st.source, st.target, st.moved, h, s.seen[id],
                        if st.statOk then st.version else UNKNOWN, s.named, s'.named);
      }
    }
  }

  lemma RenamedHandleOk(files: Files, source: Path, target: Path, moved: Files, h: Handle, seen: Bytes, v: Version,
                        named: Naming, named': Naming)
    requires AllNamed(files, named) && AllNamed(moved, named') && RenamesTo(files, source, target, moved)
    requires HandleOk(h, seen, named) && !h.deleted && Under(h.path, source) && UpToDate(files, h)
    requires UpToDate(moved, RetargetHandle(h, source, target, v))
    ensures HandleOk(RetargetHandle(h, source, target, v), seen, named')
  {
    assert RetargetHandle(h, source, target, v).path == RenamedPath(h.path, source, target);
  }

  lemma TruncateKeeps(cfg: Config, s: Sys, st: Step, s': Sys)
    requires Inv(s) && st.TruncatePath? && Next(cfg, s, st, s') && Benign(s, st)
    ensures Inv(s')
  {
    hide Latest, Tracks, ShouldPatch, StoreSpec;
    var data: Bytes, w1: World :| ReadsFile(cfg, s.w, st.path, st.cached, data, w1)
      && TruncatesTo(cfg, s, st, w1, Resized(data, st.newSize), s');
    ReadKeeps(cfg, s, st.path, st.cached, data, w1);
    var resized, base := Resized(data, st.newSize), s.w.remote.files[st.path].version;
    WholeMayUpload(st.path, resized, base, |resized|, s.named);
    StoreKeeps(cfg.store, w1, st.path, resized, base, |resized|, [Range(0, |resized|)], st.net, st.disk, s.named,
               s'.named);
    HandlesOkGrow(s.handles, s.seen, s.named, s'.named);
    forall id | id in s'.handles ensures id in s'.seen && HandleOk(s'.handles[id], s'.seen[id], s'.named) {
      assert id in s.handles && id in s.seen;
      var h := s.handles[id];
      if Refreshes(h, st.path) { RefreshedIsCoherent(s, h, s.seen[id], st.newSize); }
    }
  }

  /** A refreshed handle is coherent with the truncated content where the refresh is harmless. */
  lemma RefreshedIsCoherent(s: Sys, h: Handle, seen: Bytes, newSize: nat)
    requires AllNamed(s.w.remote.files, s.named) && HandleOk(h, seen, s.named) && Refreshes(h, h.path)
    requires h.path in s.w.remote.files && RefreshIsHarmless(s.w.remote.files, h, newSize)
    ensures Coherent(h, Resized(s.w.remote.files[h.path].content, newSize))
  {
    if !h.forceWhole && h.baseSize > 0 {
      assert s.w.remote.files[h.path].content == seen;
      assert Resized(seen, newSize) == seen;
    }
  }

  lemma StepKeeps(cfg: Config, s: Sys, st: Step, s': Sys)
    requires Inv(s) && Next(cfg, s, st, s') && Benign(s, st)
    ensures Inv(s')
  {
    hide Inv, Next, Benign;
    match st
    case Open(_, _, _, _, _) => OpenKeeps(cfg, s, st, s');
    case Create(_, _, _, _, _) => CreateKeeps(cfg, s, st, s');
    case Write(_, _, _) => EditKeeps(cfg, s, st, s');
    case Setattr(_, _, _) => EditKeeps(cfg, s, st, s');
    case Flush(_, _, _) => FlushStepKeeps(cfg, s, st, s');
    case Release(_, _, _) => ReleaseKeeps(cfg, s, st, s');
    case Unlink(_) => UnlinkKeeps(cfg, s, st, s');
    case Rename(_, _, _, _, _) => RenameKeeps(cfg, s, st, s');
    case TruncatePath(_, _, _, _, _) => TruncateKeeps(cfg, s, st, s');
    case ReplayEntry(_, _) => ReplayKeeps(cfg, s, st, s');
    case External(_) => ExternalKeeps(cfg, s, st, s');
  }

  // ---------- whole runs ----------

  /** A mount starts with no open handle, an empty cache and whatever an earlier mount journalled. */
  ghost predicate Init(s: Sys) {
    && s.handles == map[] && s.w.hist == [] && s.w.remote.changes == []
    && AllNamed(s.w.remote.files, s.named) && PendingOk(s.w.pending, s.named)
  }

  ghost predicate Run(cfg: Config, states: seq<Sys>, steps: seq<Step>) {
    && |states| == |steps| + 1 && Init(states[0])
    && forall i :: 0 <= i < |steps| ==> Next(cfg, states[i], steps[i], states[i + 1]) && Benign(states[i], steps[i])
  }

  lemma {:induction false} RunKeepsInvariant(cfg: Config, states: seq<Sys>, steps: seq<Step>, n: nat)
    requires Run(cfg, states, steps) && n < |states|
    ensures Inv(states[n])
  {
    hide Next, Benign;
    if n == 0 {
    } else {
      hide Inv;
      RunKeepsInvariant(cfg, states, steps, n - 1);
      StepKeeps(cfg, states[n - 1], steps[n - 1], states[n]);
    }
  }

  /** In every run, every content change the client made with a known base version - directly, by
      patch or by replay - replaced exactly the content that version names, or rewrote its own bytes. */
  lemma RunsLoseNoUpdate(cfg: Config, states: seq<Sys>, steps: seq<Step>, n: nat)
    requires Run(cfg, states, steps) && n < |states|
    ensures NoLostUpdate(states[n].w.remote.changes, states[n].named)
  {
    RunKeepsInvariant(cfg, states, steps, n);
  }

  /** The handle a flush or a release sends. */
  function Sent(s: Sys, st: Step): Handle
    requires (st.Flush? || st.Release?) && st.id in s.handles
  {
    if st.Flush? then s.handles[st.id] else s.handles[st.id].(closed := true)
  }

  /** In every run, a flush or a release that uploads and succeeds turns the remote content from exactly
      what the handle had seen into exactly the handle's buffer, whether it went by patch or not. */
  lemma RunsCommitBuffers(cfg: Config, states: seq<Sys>, steps: seq<Step>, n: nat)
    requires Run(cfg, states, steps) && n < |steps| && (steps[n].Flush? || steps[n].Release?)
    ensures var s, s', st := states[n], states[n + 1], steps[n];
      && st.id in s.handles && st.id in s.seen
      && var h := Sent(s, st);
         FlushSpec(cfg.store, h, s.w, st.net, st.disk).2.None? && Uploads(h) ==>
           && ContentAt(s.w.remote.files, h.path) == Some(s.seen[st.id])
           && ContentAt(s'.w.remote.files, h.path) == Some(h.data)
  {
    RunKeepsInvariant(cfg, states, steps, n);
    var s, st, s' := states[n], steps[n], states[n + 1];
    assert Next(cfg, s, st, s') && Benign(s, st);
    FlushKeeps(cfg, s, Sent(s, st), s.seen[st.id], st.net, st.disk, s'.named);
  }

  /** In every run, opening a file without truncating it gives the buffer of the newest dirty handle on
      it, and if there is none its remote content, whether the bytes came from the cache or not. */
  lemma RunsReadRemoteContent(cfg: Config, states: seq<Sys>, steps: seq<Step>, n: nat)
    requires Run(cfg, states, steps) && n < |steps| && steps[n].Open?
    ensures Opened(states[n], steps[n], states[n + 1])
  {
    RunKeepsInvariant(cfg, states, steps, n);
    assert Next(cfg, states[n], steps[n], states[n + 1]) && Benign(states[n], steps[n]);
    OpenGives(cfg, states[n], steps[n], states[n + 1]);
  }
}
