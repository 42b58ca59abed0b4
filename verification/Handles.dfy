/** Open file handles of the FUSE mount (`fuse_mount.go`): the buffer a handle keeps, the
    bookkeeping of what is dirty, and the flush that commits it. */
module Handles {
  import opened Basics
  import opened Versions
  import opened DirtyRanges
  import opened ReadCache
  import opened Upload
  import opened WriteBack

  const MAX_INT64 := 0x7FFF_FFFF_FFFF_FFFF

  /** Addition of two 64-bit integers wraps around. */
  function Wrap64(x: int): int { if x > MAX_INT64 then x - 0x1_0000_0000_0000_0000 else x }

  /** The fields of an open handle. `opensTruncated` is the truncation flag given at open. */
  datatype Handle = Handle(path: Path, data: Bytes, version: Version, baseSize: int, writable: bool, dirty: bool,
                           ranges: seq<Range>, forceWhole: bool, deleted: bool, closed: bool,
                           opensTruncated: bool, mode: int)

  datatype WriteResult = Wrote(count: int) | NotPermitted | InvalidOffset | TooBig | Panics

  datatype SetattrResult = SetattrOk | SetattrNotPermitted | SetattrTooBig

  // ---------- specification of the operations on one handle ----------

  ghost function OpenSpec(path: Path, data: Bytes, writable: bool, dirty: bool, version: Version,
                          truncated: bool): Handle {
    Handle(path, data, version, |data|, writable, dirty, if dirty then Merged([Range(0, |data|)]) else [],
           false, false, false, truncated, 0)
  }

  /** `data` written over `before` at `off`, padding with zeros up to `off`. */
  function Overwrite(before: Bytes, data: Bytes, off: nat): (r: Bytes)
    ensures |r| == Max(|before|, off + |data|)
    ensures forall b :: 0 <= b < |r| ==>
      r[b] == (if off <= b < off + |data| then data[b - off] else if b < |before| then before[b] else 0)
  {
    var end := off + |data|;
    var grown := if end > |before| then before + Zeros(end - |before|) else before;
    grown[..off] + data + grown[end..]
  }

  function WriteOutcome(h: Handle, data: Bytes, off: int): WriteResult {
    if !h.writable then NotPermitted
    else if off < 0 then InvalidOffset
    else
      var end := Wrap64(off + |data|);
      if end > MAX_INT64 then TooBig
      else if end < off then Panics
      else Wrote(|data| % 0x1_0000_0000)
  }

  ghost function WriteHandle(h: Handle, data: Bytes, off: int): Handle {
    if WriteOutcome(h, data, off).Wrote? then
      h.(data := Overwrite(h.data, data, off), dirty := true,
         ranges := Merged(h.ranges + [Range(off, off + |data|)]))
    else h
  }

  function Resized(data: Bytes, size: nat): (r: Bytes)
    ensures |r| == size
    ensures forall b :: 0 <= b < size ==> r[b] == (if b < |data| then data[b] else 0)
  {
    if size <= |data| then data[..size] else data + Zeros(size - |data|)
  }

  function SetattrHandle(h: Handle, size: Option<nat>, mode: Option<int>): (Handle, SetattrResult) {
    if size.Some? && !h.writable then (h, SetattrNotPermitted)
    else if size.Some? && size.value > MAX_INT64 then (h, SetattrTooBig)
    else
      var sized := if size.Some? then h.(data := Resized(h.data, size.value), dirty := true, forceWhole := true) else h;
      (if mode.Some? then sized.(mode := mode.value, dirty := true, forceWhole := true) else sized, SetattrOk)
  }

  function UploadRanges(h: Handle): seq<Range> {
    if h.forceWhole then [Range(0, |h.data|)] else h.ranges
  }

  /** What the handles of one mount share: the remote, the pending store, the cache history. */
  datatype World = World(remote: Remote, pending: Pending, hist: seq<Op>)

  ghost function StoreSpec(cfg: Option<StoreConfig>, w: World, path: Path, data: Bytes, base: Version, baseSize: int,
                           ranges: seq<Range>, net: Net, disk: Disk): (World, Result<Version, Error>)
  {
    var (remote, pending, res) :=
      PutAndUploadSpec(cfg, w.remote, w.pending, path, data, base, baseSize, ranges, net, disk);
    match res
    case Ok(v) => (World(remote, pending, w.hist + [Op.Put(path, data, v)]), res)
    case Err(_) => (World(remote, pending, w.hist + [Op.Invalidate(path)]), res)
  }

  function Committed(h: Handle, version: Version): Handle {
    h.(version := version, baseSize := |h.data|, ranges := [], forceWhole := false, dirty := false)
  }

  predicate Uploads(h: Handle) { h.writable && h.dirty && !h.deleted }

  ghost function FlushSpec(cfg: Option<StoreConfig>, h: Handle, w: World, net: Net, disk: Disk)
    : (Handle, World, Option<Error>)
  {
    if !h.writable || !h.dirty then (h, w, None)
    else if h.deleted then (h.(dirty := false), w, None)
    else
      var (after, res) := StoreSpec(cfg, w, h.path, h.data, h.version, h.baseSize, UploadRanges(h), net, disk);
      match res
      case Ok(v) => (Committed(h, v), after, None)
      case Err(e) => (h, after, Some(e))
  }

  function TrimPrefix(s: string, prefix: string): string {
    if HasPrefix(s, prefix) then s[|prefix|..] else s
  }

  /** Where a path below `source` goes when `source` is renamed. */
  function RenamedPath(path: Path, source: Path, target: Path): Path {
    if path == source then target
    else if HasPrefix(path, TreePrefix(source)) then target + TrimPrefix(path, source)
    else path
  }

  function RetargetHandle(h: Handle, source: Path, target: Path, version: Version): Handle {
    if h.path == source then h.(path := target, version := if version.Known() then version else h.version)
    else if HasPrefix(h.path, TreePrefix(source)) then
      h.(path := target + TrimPrefix(h.path, source), version := if version.Known() then version else h.version)
    else h
  }

  function MarkDeletedHandle(h: Handle, path: Path): Handle {
    if Under(h.path, path) then h.(deleted := true) else h
  }

  function RefreshHandle(h: Handle, path: Path, version: Version): Handle {
    if h.closed || h.deleted || !h.writable || h.path != path then h
    else if !h.opensTruncated then h
    else h.(version := version)
  }

  // ---------- the runtime and its open handles ----------

  class FuseRuntime {
    const up: Uploader
    const writeBack: WriteBackStore?
    const readCache: FuseReadCache
    var openHandles: set<RemoteFuseFile>

    ghost predicate Valid()
      reads readCache, writeBack
    {
      readCache.Valid() && (writeBack != null ==> writeBack.Valid())
    }

    ghost function Config(): Option<StoreConfig> {
      if writeBack == null then None else Some(writeBack.Config())
    }

    ghost function Shared(): World
      reads up, writeBack, readCache
    {
      World(up.remote, if writeBack == null then map[] else writeBack.entries, readCache.hist)
    }

    constructor (up: Uploader, writeBack: WriteBackStore?, readCache: FuseReadCache)
      requires readCache.Valid() && (writeBack != null ==> writeBack.Valid())
      ensures Valid() && this.up == up && this.writeBack == writeBack && this.readCache == readCache &&
        openHandles == {}
    {
      this.up, this.writeBack, this.readCache := up, writeBack, readCache;
      openHandles := {};
    }

    method WriteFileWithDirty(path: Path, data: Bytes, base: Version, baseSize: int, ranges: seq<Range>,
                              net: Net, disk: Disk, now: int) returns (res: Result<Version, Error>)
      requires Valid()
      modifies up, writeBack, readCache
      ensures Valid()
      ensures (Shared(), res) == StoreSpec(Config(), old(Shared()), path, data, base, baseSize, ranges, net, disk)
    {
      if writeBack != null {
        res := writeBack.PutAndUpload(up, path, data, base, baseSize, ranges, net, disk);
      } else {
        res := up.Upload(path, data, base, baseSize, ranges, net);
      }
      if res.Err? {
        readCache.Invalidate(path);
        return;
      }
      readCache.Put(path, data, res.value, now);
    }

    /** With a history in which every stored content is named by its version, reading at the
        current revision returns the remote content, from the cache or not. */
    method ReadFile(path: Path, version: Version, now: int, ghost named: map<(Path, int), Bytes>) returns (data: Bytes)
      requires Valid() && path in up.remote.files
      requires SoundHistory(readCache.hist, named) && version.revision > 0
      requires (path, version.revision) in named && named[(path, version.revision)] == up.remote.files[path].content
      modifies readCache
      ensures Valid() && SoundHistory(readCache.hist, named)
      ensures data == up.remote.files[path].content
    {
      var hit := readCache.Get(path, version, now);
      if hit.Some? {
        ghost var v: Version :| Latest(readCache.hist, readCache.maxFile, path) == Some((hit.value, v)) &&
          v.Matches(version);
        HitReturnsNamedContent(readCache.hist, readCache.maxFile, named, path, version, hit.value, v);
        return hit.value;
      }
      data := up.remote.files[path].content;
      readCache.Put(path, data, version, now);
    }
  }

  class RemoteFuseFile {
    const runtime: FuseRuntime
    var path: Path
    var data: Bytes
    var version: Version
    var baseSize: int
    var writable: bool
    var dirty: bool
    var ranges: seq<Range>
    var forceWhole: bool
    var deleted: bool
    var closed: bool
    var opensTruncated: bool
    var mode: int

    ghost function View(): Handle
      reads this
    {
      Handle(path, data, version, baseSize, writable, dirty, ranges, forceWhole, deleted, closed, opensTruncated, mode)
    }

    constructor (runtime: FuseRuntime, path: Path, data: Bytes, writable: bool, dirty: bool, version: Version,
                 truncated: bool)
      modifies runtime`openHandles
      ensures this.runtime == runtime && runtime.openHandles == old(runtime.openHandles) + {this}
      ensures View() == OpenSpec(path, data, writable, dirty, version, truncated)
    {
      this.runtime, this.path, this.data, this.version := runtime, path, data, version;
      this.baseSize, this.writable, this.dirty, this.ranges := |data|, writable, dirty, [];
      this.forceWhole, this.deleted, this.closed, this.opensTruncated, this.mode := false, false, false, truncated, 0;
      new;
      if dirty {
        MarkDirtyRange(0, |data|);
        assert [] + [Range(0, |data|)] == [Range(0, |data|)];
      }
      runtime.openHandles := runtime.openHandles + {this};
    }

    method MarkDirtyRange(start: int, end: int)
      modifies this`ranges
      ensures ranges == if end < start then old(ranges) else Merged(old(ranges) + [Range(start, end)])
    {
      if end < start { return; }
      ranges := MergeFuseDirtyRanges(ranges + [Range(start, end)]);
    }

    method Write(buf: Bytes, off: int) returns (r: WriteResult)
      requires |buf| <= MAX_INT64 && off <= MAX_INT64
      modifies this
      ensures r == WriteOutcome(old(View()), buf, off)
      ensures View() == WriteHandle(old(View()), buf, off)
    {
      hide Merged;
      if !writable { return NotPermitted; }
      if off < 0 { return InvalidOffset; }
      var end := Wrap64(off + |buf|);
      if end > MAX_INT64 { return TooBig; }
      if end < off { return Panics; }
      ghost var before := data;
      if end > |data| {
        data := data + Zeros(end - |data|);
      }
      data := data[..off] + buf + data[end..];
      assert data == Overwrite(before, buf, off);
      dirty := true;
      MarkDirtyRange(off, end);
      return Wrote(|buf| % 0x1_0000_0000);
    }

    method Setattr(size: Option<nat>, newMode: Option<int>) returns (r: SetattrResult)
      modifies this
      ensures (View(), r) == SetattrHandle(old(View()), size, newMode)
    {
      if size.Some? {
        if !writable { return SetattrNotPermitted; }
        if size.value > MAX_INT64 { return SetattrTooBig; }
        data := Resized(data, size.value);
        dirty := true;
        forceWhole := true;
      }
      if newMode.Some? {
        mode := newMode.value;
        dirty := true;
        forceWhole := true;
      }
      return SetattrOk;
    }

    method Flush(net: Net, disk: Disk, now: int) returns (failure: Option<Error>)
      requires runtime.Valid()
      modifies this, runtime.up, runtime.writeBack, runtime.readCache
      ensures runtime.Valid()
      ensures (View(), runtime.Shared(), failure)
           == FlushSpec(runtime.Config(), old(View()), old(runtime.Shared()), net, disk)
    {
      hide StoreSpec, FuseReadCache.Valid, WriteBackStore.Valid;
      if !writable || !dirty { return None; }
      if deleted {
        dirty := false;
        return None;
      }
      var toSend := ranges;
      if forceWhole {
        toSend := [Range(0, |data|)];
      }
      var res := runtime.WriteFileWithDirty(path, data, version, baseSize, toSend, net, disk, now);
      if res.Err? { return Some(res.error); }
      version := res.value;
      baseSize := |data|;
      ranges := [];
      forceWhole := false;
      dirty := false;
      return None;
    }

    method Release(net: Net, disk: Disk, now: int) returns (failure: Option<Error>)
      requires runtime.Valid()
      modifies this, runtime`openHandles, runtime.up, runtime.writeBack, runtime.readCache
      ensures runtime.Valid()
      ensures if old(closed) then View() == old(View()) && runtime.Shared() == old(runtime.Shared()) && failure.None?
                                  && runtime.openHandles == old(runtime.openHandles)
              else (View(), runtime.Shared(), failure)
                     == FlushSpec(runtime.Config(), old(View()).(closed := true), old(runtime.Shared()), net, disk)
                   && runtime.openHandles == old(runtime.openHandles) - {this}
    {
      if closed { return None; }
      closed := true;
      failure := Flush(net, disk, now);
      runtime.openHandles := runtime.openHandles - {this};
    }

    method RefreshAfterPathTruncate(remotePath: Path, newVersion: Version)
      modifies this
      ensures View() == RefreshHandle(old(View()), remotePath, newVersion)
    {
      if closed || deleted || !writable || path != remotePath { return; }
      if !opensTruncated { return; }
      version := newVersion;
    }

    method Retarget(source: Path, target: Path, newVersion: Version)
      modifies this
      ensures View() == RetargetHandle(old(View()), source, target, newVersion)
    {
      var retargeted := false;
      if path == source {
        path := target;
        retargeted := true;
      } else if HasPrefix(path, TreePrefix(source)) {
        path := target + TrimPrefix(path, source);
        retargeted := true;
      }
      if retargeted && newVersion.Known() {
        version := newVersion;
      }
    }

    method MarkDeleted(remotePath: Path)
      modifies this
      ensures View() == MarkDeletedHandle(old(View()), remotePath)
    {
      if path == remotePath || HasPrefix(path, TreePrefix(remotePath)) {
        deleted := true;
      }
    }
  }

  // ---------- what the operations do to a handle ----------

  /** Opening: the fields of a new handle; exactly the bytes of a dirty one are dirty. */
  lemma OpenGivesHandle(path: Path, data: Bytes, writable: bool, dirty: bool, version: Version, truncated: bool)
    ensures var h := OpenSpec(path, data, writable, dirty, version, truncated);
      && h.path == path && h.data == data && h.baseSize == |data| && h.version == version
      && h.writable == writable && h.dirty == dirty && h.opensTruncated == truncated
      && !h.forceWhole && !h.deleted && !h.closed && h.mode == 0
      && Canonical(h.ranges) && forall b :: HasByte(h.ranges, b) <==> dirty && 0 <= b < |data|
  {
    var all := Range(0, |data|);
    assert [] + [all] == [all];
    CoverAppend([], all);
    assert forall b :: InRange(all, b) <==> 0 <= b < |data|;
  }

  /** Writing: it succeeds on a writable handle at an offset that is not negative, as long as the end fits
      in 64 bits. The bytes written are then in the buffer, after zeros if it was shorter than the offset,
      and are dirty; everything else stays, and after a failure all does. */
  lemma WriteChanges(h: Handle, data: Bytes, off: int)
    requires |data| <= MAX_INT64 && off <= MAX_INT64
    ensures var r, h' := WriteOutcome(h, data, off), WriteHandle(h, data, off);
      && (r.Wrote? <==> h.writable && 0 <= off && off + |data| < 0x8000_0000_0000_0000)
      && (!r.Wrote? ==> h' == h)
      && (r.Wrote? ==>
            && r.count == |data| % 0x1_0000_0000
            && h' == h.(data := h'.data, ranges := h'.ranges, dirty := true)
            && |h'.data| == (if off + |data| < |h.data| then |h.data| else off + |data|)
            && (forall b :: 0 <= b < |h'.data| ==>
                  h'.data[b] ==
                    if off <= b < off + |data| then data[b - off] else if b < |h.data| then h.data[b] else 0)
            && (forall b :: HasByte(h'.ranges, b) <==> HasByte(h.ranges, b) || off <= b < off + |data|))
  {
    if WriteOutcome(h, data, off).Wrote? {
      var r := Range(off, off + |data|);
      CoverAppend(h.ranges, r);
      assert forall b :: InRange(r, b) <==> off <= b < off + |data|;
    }
  }

  /** Changing size or mode: a change of size needs a writable handle and a size that fits in 64 bits.
      The buffer then has that size, with its bytes as far as they go and zeros after them, the mode is the
      one given, and the next flush sends the whole buffer; a refusal changes nothing. */
  lemma SetattrChanges(h: Handle, size: Option<nat>, mode: Option<int>)
    ensures var (h', r) := SetattrHandle(h, size, mode);
      && (r.SetattrOk? <==> size.Some? ==> h.writable && size.value < 0x8000_0000_0000_0000)
      && (!r.SetattrOk? ==> h' == h)
      && (r.SetattrOk? ==>
            && |h'.data| == (if size.Some? then size.value else |h.data|)
            && (forall b :: 0 <= b < |h'.data| ==> h'.data[b] == if b < |h.data| then h.data[b] else 0)
            && h'.mode == (if mode.Some? then mode.value else h.mode)
            && h' == h.(data := h'.data, mode := h'.mode, dirty := h.dirty || size.Some? || mode.Some?,
                        forceWhole := h.forceWhole || size.Some? || mode.Some?))
  {}

  /** Flushing: a handle is clean exactly after a successful flush of a writable one, or if it was clean
      before; after an upload nothing of it is dirty any more and its buffer is the new base, and a
      failure changes nothing. */
  lemma FlushChanges(cfg: Option<StoreConfig>, h: Handle, w: World, net: Net, disk: Disk)
    ensures var (h', w', failure) := FlushSpec(cfg, h, w, net, disk);
      && (failure.Some? ==> h' == h && h.writable && h.dirty && !h.deleted)
      && (failure.None? ==> (h'.dirty <==> h.dirty && !h.writable))
      && (!Uploads(h) ==> w' == w && h' == h.(dirty := h'.dirty))
      && (failure.None? && Uploads(h) ==>
            && h' == h.(version := h'.version, baseSize := |h.data|, ranges := [], forceWhole := false, dirty := false)
            && !ShouldPatch(h'.version, h'.baseSize, |h'.data|, UploadRanges(h')))
  {}

  /** What the cache knows of the path after an upload: the new bytes under the new version unless they
      are too large for it, and nothing after a failure. */
  lemma StoreUpdatesCache(cfg: Option<StoreConfig>, w: World, path: Path, data: Bytes, base: Version, baseSize: int,
                          ranges: seq<Range>, net: Net, disk: Disk, maxFile: int)
    ensures var (w', res) := StoreSpec(cfg, w, path, data, base, baseSize, ranges, net, disk);
      && (res.Err? ==> Latest(w'.hist, maxFile, path) == None)
      && (res.Ok? && |data| <= maxFile ==> Latest(w'.hist, maxFile, path) == Some((data, res.value)))
      && (forall p :: p != path ==> Latest(w'.hist, maxFile, p) == Latest(w.hist, maxFile, p))
  {
    hide PutAndUploadSpec;
    var (w', res) := StoreSpec(cfg, w, path, data, base, baseSize, ranges, net, disk);
    LatestAppend(w.hist, w'.hist[|w.hist|]);
    assert w'.hist == w.hist + [w'.hist[|w.hist|]];
  }

  /** Refreshing after a truncation by path: the version is the only field that can change, and it does
      on an open writable handle of that path that was opened with truncation. */
  lemma RefreshChanges(h: Handle, path: Path, version: Version)
    ensures var h' := RefreshHandle(h, path, version);
      && h' == h.(version := h'.version)
      && h'.version == if h.path == path && h.writable && h.opensTruncated && !h.closed && !h.deleted then version
                       else h.version
  {}

  // ---------- what the operations keep ----------

  /** The class invariant of an open handle relative to `base`, the content its version names:
      unless a whole upload is forced, an upload of its dirty ranges onto `base` gives its buffer. */
  ghost predicate Coherent(h: Handle, base: Bytes) {
    && Canonical(h.ranges)
    && (!h.forceWhole ==> Tracks(h.data, h.baseSize, h.ranges, base))
  }

  lemma OpenKeepsCoherence(path: Path, content: Bytes, writable: bool, truncate: bool, version: Version)
    ensures Coherent(OpenSpec(path, if truncate then [] else content, writable, truncate, version, truncate), content)
  {
    assert Merged([]) == [];
  }

  lemma WriteKeepsCoherence(h: Handle, base: Bytes, data: Bytes, off: int)
    requires Coherent(h, base)
    ensures Coherent(WriteHandle(h, data, off), base)
  {
    var h' := WriteHandle(h, data, off);
    if WriteOutcome(h, data, off).Wrote? && !h.forceWhole && h.baseSize > 0 {
      var r := Range(off, off + |data|);
      CoverAppend(h.ranges, r);
      forall b | 0 <= b < h.baseSize && h'.data[b] != base[b] ensures HasByte(h'.ranges, b) {
        assert InRange(r, b) || h'.data[b] == h.data[b];
      }
    }
  }

  lemma SetattrKeepsCoherence(h: Handle, base: Bytes, size: Option<nat>, mode: Option<int>)
    requires Coherent(h, base)
    ensures Coherent(SetattrHandle(h, size, mode).0, base)
  {}

  /** A coherent handle may be flushed by patch or as a whole: either way its upload is one whose
      ranges track the base. */
  lemma CoherentUploadTracks(h: Handle, base: Bytes)
    requires Coherent(h, base)
    ensures h.forceWhole ==> forall v, size :: !ShouldPatch(v, size, |h.data|, UploadRanges(h))
    ensures !h.forceWhole ==> Tracks(h.data, h.baseSize, UploadRanges(h), base)
  {
    if h.forceWhole {
      forall v, size ensures !ShouldPatch(v, size, |h.data|, UploadRanges(h)) {
        WholeBufferIsNotPatched(h.data, v);
      }
    }
  }

  /** On 64-bit integers the size limit of a write is never reported: the end of a write that does not
      fit overflows, and the write then fails on its slice bounds. */
  lemma WriteLimit(h: Handle, data: Bytes, off: int)
    requires |data| <= MAX_INT64 && off <= MAX_INT64
    ensures WriteOutcome(h, data, off) != TooBig
    ensures h.writable && off >= 0 ==> (WriteOutcome(h, data, off) == Panics <==> off + |data| > MAX_INT64)
  {}

  /** What the version of a handle says about the remote: if the file still has the handle's
      revision then its content is `base`. */
  ghost predicate Names(files: Files, path: Path, version: Version, base: Bytes) {
    && (path in files ==> files[path].version.revision > 0)
    && (version.revision > 0 && path in files && files[path].version.revision == version.revision ==>
          files[path].content == base)
  }

  /** A successful flush leaves the remote file equal to the handle's buffer, by patch or by whole
      write, and the handle is coherent with it again. */
  lemma FlushCommitsBuffer(cfg: Option<StoreConfig>, h: Handle, w: World, net: Net, disk: Disk, base: Bytes)
    requires Coherent(h, base) && Uploads(h) && Undisturbed(net)
    requires Names(w.remote.files, h.path, h.version, base)
    ensures var (h', w', failure) := FlushSpec(cfg, h, w, net, disk);
      failure.None? ==>
        && h.path in w'.remote.files && w'.remote.files[h.path].content == h.data
        && h'.data == h.data && !h'.dirty && Coherent(h', h.data)
  {
    CoherentUploadTracks(h, base);
    if h.forceWhole {
      ForcedUploadStoresBuffer(w.remote, h, net);
    } else {
      UploadStoresBuffer(w.remote, h.path, h.data, h.version, h.baseSize, UploadRanges(h), net);
    }
  }

  lemma ForcedUploadStoresBuffer(r: Remote, h: Handle, net: Net)
    requires h.forceWhole
    ensures var (after, res) := UploadSpec(r, h.path, h.data, h.version, h.baseSize, UploadRanges(h), net);
      res.Ok? ==> h.path in after.files && after.files[h.path].content == h.data
  {
    WholeBufferIsNotPatched(h.data, h.version);
  }
}
