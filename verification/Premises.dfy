/** Why the runs of `Protocol` need their premises: for each place that rebinds a handle without
    reading the file again, exactly when it is harmless, and an input where it is not. */
module Premises {
  import opened Basics
  import opened Versions
  import opened DirtyRanges
  import opened ReadCache
  import opened Upload
  import opened WriteBack
  import opened Handles
  import opened Protocol

  const PART := DEFAULT_PART_SIZE
  const V1 := Version(1, "")
  const V2 := Version(2, "")
  const V3 := Version(3, "")
  const GOOD_DISK := Disk(true, true)

  /** A network on which a patch to `v` succeeds and nobody interferes. */
  function PatchingNet(v: Version): Net { Net(Answered, NOBODY, Patched(v), NOBODY, Answered, WriteFails) }

  /** A network on which only a whole write is tried, with the given reply. */
  function WritingNet(reply: WriteReply): Net { Net(Answered, NOBODY, PatchFails(false), NOBODY, Answered, reply) }

  function OneFile(path: Path, content: Bytes, v: Version): World {
    World(Remote(map[path := Obj(content, v)], []), map[], [])
  }

  // ---------- what a flush commits ----------

  /** The parts a patch of the buffer sends. */
  ghost function SentParts(h: Handle): set<int> {
    DirtyPartSet(UploadRanges(h), CalcAdaptivePartSize(Max(h.baseSize, |h.data|)), |h.data|)
  }

  /** The buffer is `original` outside the parts that are sent; if none is sent, it is `original`. */
  ghost predicate AgreesUnsent(h: Handle, original: Bytes) {
    var parts, partSize := SentParts(h), CalcAdaptivePartSize(Max(h.baseSize, |h.data|));
    if parts == {} then h.data == original
    else forall b :: 0 <= b < |h.data| && PartOf(b, partSize) !in parts ==>
           h.data[b] == (if b < |original| then original[b] else 0)
  }

  /** A flush that is patched and for which the service knows how to patch. */
  ghost predicate GoesAsPatch(h: Handle, w: World, net: Net) {
    && ShouldPatch(h.version, h.baseSize, |h.data|, UploadRanges(h))
    && var outcome := PatchSpec(w.remote, h.path, h.data, h.version, h.baseSize, UploadRanges(h), net).1;
       !(outcome.PatchErr? && outcome.unsupported)
  }

  lemma PatchExact(h: Handle, r: Remote, net: Net)
    requires net.afterPatch == NOBODY && h.path in r.files
    ensures var (after, outcome) := PatchSpec(r, h.path, h.data, h.version, h.baseSize, UploadRanges(h), net);
      outcome.PatchOk? ==>
        (ContentAt(after.files, h.path) == Some(h.data) <==> AgreesUnsent(h, r.files[h.path].content))
  {
    var partSize := CalcAdaptivePartSize(Max(h.baseSize, |h.data|));
    var original, parts := r.files[h.path].content, SentParts(h);
    var content := PatchedContent(original, h.data, parts, partSize);
    if net.patch.Patched? { UndisturbedLands(SetContent(r, h.path, content, h.version, net.patch.version)); }
    PatchIsWholeWriteIff(original, h.data, parts, partSize);
  }

  /** Whatever a handle's buffer and bookkeeping may be, and whatever store, disk and service do: after
      a successful flush with nobody in between, the remote holds the buffer exactly when the flush did
      not go as a patch, or the buffer agreed with the remote outside the parts that were sent. */
  lemma FlushExact(cfg: Option<StoreConfig>, h: Handle, w: World, net: Net, disk: Disk)
    requires Uploads(h) && Undisturbed(net) && FlushSpec(cfg, h, w, net, disk).2.None?
    ensures GoesAsPatch(h, w, net) ==> h.path in w.remote.files
    ensures ContentAt(FlushSpec(cfg, h, w, net, disk).1.remote.files, h.path) == Some(h.data) <==>
      (GoesAsPatch(h, w, net) ==> AgreesUnsent(h, w.remote.files[h.path].content))
  {
    hide AgreesUnsent, PatchSpec, ShouldPatch;
    UndisturbedLands(w.remote);
    if ShouldPatch(h.version, h.baseSize, |h.data|, UploadRanges(h)) {
      KnownBase(h);
      PatchExact(h, w.remote, net);
    }
  }

  lemma KnownBase(h: Handle)
    ensures ShouldPatch(h.version, h.baseSize, |h.data|, UploadRanges(h)) ==>
      h.version.Known() && h.version.revision > 0
  {}

  /** In particular a flush that is not patched commits any buffer. */
  lemma WholeFlushCommits(cfg: Option<StoreConfig>, h: Handle, w: World, net: Net, disk: Disk)
    requires Uploads(h) && Undisturbed(net) && FlushSpec(cfg, h, w, net, disk).2.None?
    requires !ShouldPatch(h.version, h.baseSize, |h.data|, UploadRanges(h))
    ensures ContentAt(FlushSpec(cfg, h, w, net, disk).1.remote.files, h.path) == Some(h.data)
  {
    hide ShouldPatch, AgreesUnsent;
    FlushExact(cfg, h, w, net, disk);
  }

  /** For a patch of a handle whose version names what it has seen, that is a matter of the handle
      alone: the buffer must be what it has seen outside the parts that are sent. */
  lemma PatchedFlushExact(cfg: Option<StoreConfig>, h: Handle, seen: Bytes, w: World, net: Net, disk: Disk)
    requires Uploads(h) && Undisturbed(net) && FlushSpec(cfg, h, w, net, disk).2.None?
    requires GoesAsPatch(h, w, net) && Names(w.remote.files, h.path, h.version, seen)
    ensures ContentAt(FlushSpec(cfg, h, w, net, disk).1.remote.files, h.path) == Some(h.data) <==> AgreesUnsent(h, seen)
  {
    hide AgreesUnsent, PatchSpec;
    FlushExact(cfg, h, w, net, disk);
    UndisturbedLands(w.remote);
    NoConflictPinsRevision(w.remote.files[h.path].version, h.version);
  }

  // ---------- between a patch and the stat after it ----------

  /** A patch of a coherent handle sends something, and stores the buffer. */
  lemma CoherentPatchSets(h: Handle, seen: Bytes, r: Remote, net: Net)
    requires Coherent(h, seen) && ShouldPatch(h.version, h.baseSize, |h.data|, UploadRanges(h))
    requires h.path in r.files && r.files[h.path].content == seen
    ensures var (after, outcome) := PatchSpec(r, h.path, h.data, h.version, h.baseSize, UploadRanges(h), net);
      outcome.PatchOk? ==>
        && net.patch.Patched? && h.path in after.files && outcome.version == after.files[h.path].version
        && after == Land(SetContent(r, h.path, h.data, h.version, net.patch.version), net.afterPatch)
  {
    hide DirtyPartSet, PatchedContent;
    CoherentUploadTracks(h, seen);
    var ranges, partSize := UploadRanges(h), CalcAdaptivePartSize(Max(h.baseSize, |h.data|));
    PatchSendsSomething(h.data, h.baseSize, ranges, h.version, seen, partSize);
    TrackedPatchIsBuffer(seen, h.data, h.baseSize, ranges, partSize);
  }

  /** The revision a patched flush takes over is read by a stat after the patch. So with nobody before the
      patch the handle always ends with the version the file has, but the file has its buffer exactly
      when nobody wrote something else to it before the stat. */
  lemma StatAfterPatchIff(cfg: Option<StoreConfig>, h: Handle, seen: Bytes, w: World, net: Net, disk: Disk)
    requires Uploads(h) && Coherent(h, seen) && Names(w.remote.files, h.path, h.version, seen)
    requires net.beforeUpload == NOBODY && GoesAsPatch(h, w, net)
    requires FlushSpec(cfg, h, w, net, disk).2.None?
    ensures var (h', w', failure) := FlushSpec(cfg, h, w, net, disk);
      && h.path in w'.remote.files && w'.remote.files[h.path].version == h'.version
      && (w'.remote.files[h.path].content == h.data <==>
            h.path !in net.afterPatch.written || net.afterPatch.written[h.path].content == h.data)
    ensures h.path in w.remote.files && net.patch.Patched?
  {
    hide Coherent, PatchSpec;
    UndisturbedLands(w.remote);
    KnownBase(h);
    NoConflictPinsRevision(w.remote.files[h.path].version, h.version);
    CoherentPatchSets(h, seen, w.remote, net);
  }

  /** A write of somebody else that lands there is taken for the handle's own: the flush succeeds, the
      handle is clean under their version, and the cache learns the buffer under it; a flush after a
      change of size then replaces their content, with their version as its base. */
  lemma ForeignWriteIsAdopted(h: Handle, seen: Bytes, w: World, net: Net, theirs: Bytes, v: Version, size: nat,
                              next: Version)
    requires Uploads(h) && Coherent(h, seen) && Names(w.remote.files, h.path, h.version, seen)
    requires net.beforeUpload == NOBODY && GoesAsPatch(h, w, net)
    requires net.afterPatch == Others(map[h.path := Obj(theirs, v)], {}) && v.revision > 0 && size <= MAX_INT64
    requires FlushSpec(None, h, w, net, GOOD_DISK).2.None?
    ensures var (h', w', _) := FlushSpec(None, h, w, net, GOOD_DISK);
      && !h'.dirty && h'.version == v && h'.data == h.data
      && w'.remote.files[h.path] == Obj(theirs, v) && w'.hist == w.hist + [Op.Put(h.path, h.data, v)]
      && (forall maxFile: int :: |h.data| <= maxFile ==> Latest(w'.hist, maxFile, h.path) == Some((h.data, v)))
      && var resized := SetattrHandle(h', Some(size), None).0;
         var (_, w2, failure) := FlushSpec(None, resized, w', WritingNet(Written(next, next.revision)), GOOD_DISK);
         && failure.None? && |w2.remote.changes| == |w'.remote.changes| + 1
         && w2.remote.changes[|w'.remote.changes|].base == v
         && w2.remote.changes[|w'.remote.changes|].replaced == Some(theirs)
  {
    hide Coherent, PatchSpec, ShouldPatch;
    StatAfterPatchIff(None, h, seen, w, net, GOOD_DISK);
    UndisturbedLands(w.remote);
    KnownBase(h);
    NoConflictPinsRevision(w.remote.files[h.path].version, h.version);
    CoherentPatchSets(h, seen, w.remote, net);
    var (h', w', _) := FlushSpec(None, h, w, net, GOOD_DISK);
    LatestAppend(w.hist, Op.Put(h.path, h.data, v));
    ResizedFlushReplaces(h', w', size, next);
  }

  /** A handle whose version is the one its file has can replace it after a change of size. */
  lemma ResizedFlushReplaces(h: Handle, w: World, size: nat, next: Version)
    requires h.writable && !h.deleted && h.path in w.remote.files && size <= MAX_INT64
    requires w.remote.files[h.path].version == h.version && h.version.revision > 0
    ensures var resized := SetattrHandle(h, Some(size), None).0;
      var (_, w', failure) := FlushSpec(None, resized, w, WritingNet(Written(next, next.revision)), GOOD_DISK);
      && failure.None? && |w'.remote.changes| == |w.remote.changes| + 1
      && w'.remote.changes[|w.remote.changes|].base == h.version
      && w'.remote.changes[|w.remote.changes|].replaced == Some(w.remote.files[h.path].content)
  {
    hide ShouldPatch;
    var resized := SetattrHandle(h, Some(size), None).0;
    UndisturbedLands(w.remote);
    WholeBufferIsNotPatched(resized.data, h.version);
  }

  /** A single dirty byte in the second of two parts: the flush patches, and sends only that part. */
  lemma OneDirtyByte(h: Handle, at: int, p: int)
    requires h.ranges == Merged([Range(at, at + 1)]) && 0 <= at < |h.data| == 2 * PART
    requires p == PartOf(at, PART)
    ensures |DirtySet(h.ranges)| == 1
    ensures CalcAdaptivePartSize(|h.data|) == PART
    ensures DirtyPartSet(h.ranges, PART, |h.data|) == {p}
  {
    var rs := [Range(at, at + 1)];
    assert rs[0] in rs;
    assert forall r :: r in rs ==> r == Range(at, at + 1);
    forall b ensures HasByte(h.ranges, b) <==> b == at {
      assert HasByte(h.ranges, b) <==> HasByte(rs, b);
      assert InRange(rs[0], at);
    }
    forall b ensures b in DirtySet(h.ranges) <==> b == at { DirtySetIsHasByte(h.ranges, b); }
    assert DirtySet(h.ranges) == {at};
    MergedOfCanonical(rs);
    forall b ensures Touched(h.ranges, |h.data|, b) <==> b == at {
      ContributesIsTouched(rs, |h.data|, b);
    }
  }

  /** A handle that has written one byte at the front of a file of two parts. */
  ghost function DirtySibling(path: Path): Handle {
    WriteHandle(OpenSpec(path, Zeros(2 * PART), true, false, V1, false), [1], 0)
  }

  /** A handle opened from that one, which writes one byte into the second part. */
  ghost function Inheritor(path: Path): Handle {
    var sibling := DirtySibling(path);
    WriteHandle(OpenSpec(path, sibling.data, true, false, sibling.version, false), [5], PART)
  }

  lemma InheritorIs(path: Path)
    ensures var h := Inheritor(path);
      && Uploads(h) && !h.forceWhole && h.path == path && h.version == V1
      && |h.data| == h.baseSize == 2 * PART && h.data[0] == 1 && h.data[PART] == 5
      && h.ranges == Merged([Range(PART, PART + 1)])
  {
    hide Merged;
    assert [] + [Range(PART, PART + 1)] == [Range(PART, PART + 1)];
  }

  /** A handle that inherits the buffer of a dirty one together with its version is coherent with the
      content that version names exactly when the buffer is empty or is that content. */
  lemma InheritedIsCoherentIff(path: Path, data: Bytes, content: Bytes, writable: bool, version: Version, flag: bool)
    ensures Coherent(OpenSpec(path, data, writable, false, version, flag), content) <==> data == [] || data == content
  {
    assert Merged([]) == [];
  }

  /** Otherwise, flushing the new handle first can leave a file that is neither its buffer nor what was
      there before. */
  lemma InheritedBufferIsLost(path: Path)
    ensures var w, h := OneFile(path, Zeros(2 * PART), V1), Inheritor(path);
      var (h', w', failure) := FlushSpec(None, h, w, PatchingNet(V2), GOOD_DISK);
      && failure.None? && path in w'.remote.files
      && w'.remote.files[path].content != h.data && w'.remote.files[path].content != Zeros(2 * PART)
  {
    hide Inheritor, Merged, DirtySet, FlushSpec;
    var w, h := OneFile(path, Zeros(2 * PART), V1), Inheritor(path);
    InheritorIs(path);
    OneDirtyByte(h, PART, 2);
    OnePartFlush(h, w, 2, V2);
    assert PartOf(0, PART) == 1 && PartOf(PART, PART) == 2;
    ListedPartIsBuffer(Zeros(2 * PART), h.data, {2}, PART, PART);
    FlushExact(None, h, w, PatchingNet(V2), GOOD_DISK);
  }

  /** A handle with one dirty part is flushed by patch, and the remote then has that part. */
  lemma OnePartFlush(h: Handle, w: World, p: int, v: Version)
    requires Uploads(h) && !h.forceWhole && h.path in w.remote.files && w.remote.files[h.path].version == h.version
    requires h.version.revision > 0 && h.version.resourceId == "" && |h.data| == h.baseSize == 2 * PART
    requires |DirtySet(h.ranges)| == 1 && h.ranges != [] && DirtyPartSet(h.ranges, PART, |h.data|) == {p}
    requires CalcAdaptivePartSize(|h.data|) == PART
    ensures var (h', w', failure) := FlushSpec(None, h, w, PatchingNet(v), GOOD_DISK);
      && failure.None? && h.path in w'.remote.files && SentParts(h) == {p}
      && w'.remote.files[h.path].content == PatchedContent(w.remote.files[h.path].content, h.data, {p}, PART)
    ensures GoesAsPatch(h, w, PatchingNet(v))
  {
    hide DirtySet, DirtyPartSet, PatchedContent;
    UndisturbedLands(w.remote);
    var content := PatchedContent(w.remote.files[h.path].content, h.data, {p}, PART);
    UndisturbedLands(SetContent(w.remote, h.path, content, h.version, v));
  }

  /** A handle that has written one byte into the second part of a file of two parts. */
  ghost function SmallWriter(path: Path): Handle {
    WriteHandle(OpenSpec(path, Zeros(2 * PART), true, false, V1, false), [5], PART)
  }

  lemma SmallWriterIs(path: Path)
    ensures var h := SmallWriter(path);
      && Uploads(h) && !h.forceWhole && h.path == path && h.version == V1 && Coherent(h, Zeros(2 * PART))
      && |h.data| == h.baseSize == 2 * PART && h.data[PART] == 5 && h.ranges == Merged([Range(PART, PART + 1)])
  {
    OpenKeepsCoherence(path, Zeros(2 * PART), true, false, V1);
    WriteKeepsCoherence(OpenSpec(path, Zeros(2 * PART), true, false, V1, false), Zeros(2 * PART), [5], PART);
    assert [] + [Range(PART, PART + 1)] == [Range(PART, PART + 1)];
  }

  /** An example: somebody writes one byte between its patch and the stat. Its flush succeeds, and the file
      is theirs under the version the handle now has. */
  lemma WriteBeforeStatIsMistaken(path: Path)
    ensures var h, w := SmallWriter(path), OneFile(path, Zeros(2 * PART), V1);
      var net := PatchingNet(V2).(afterPatch := Others(map[path := Obj([9], V3)], {}));
      var (h', w', failure) := FlushSpec(None, h, w, net, GOOD_DISK);
      && Coherent(h, Zeros(2 * PART)) && GoesAsPatch(h, w, net) && failure.None?
      && !h'.dirty && h'.version == V3 && path in w'.remote.files && w'.remote.files[path] == Obj([9], V3)
  {
    hide SmallWriter, Merged, DirtySet, Coherent, DirtyPartSet, PatchedContent;
    var h, w := SmallWriter(path), OneFile(path, Zeros(2 * PART), V1);
    SmallWriterIs(path);
    OneDirtyByte(h, PART, 2);
    UndisturbedLands(w.remote);
    var theirs := Others(map[path := Obj([9], V3)], {});
    var net := PatchingNet(V2).(afterPatch := theirs);
    var content := PatchedContent(Zeros(2 * PART), h.data, {2}, PART);
    assert SentParts(h) == {2};
    assert path in Land(SetContent(w.remote, path, content, V1, V2), theirs).files;
  }

  function TwoParts(): (r: Bytes)
    ensures |r| == 2 * PART && forall b :: 0 <= b < |r| ==> r[b] == 7
  {
    seq(2 * PART, _ => 7)
  }

  /** A handle opened with truncation that has written and committed two parts, is refreshed after
      another process truncated the path, and writes one byte. */
  ghost function Refreshed(path: Path): Handle {
    var committed := Committed(OpenSpec(path, [], true, true, V1, true).(data := TwoParts()), V1);
    WriteHandle(RefreshHandle(committed, path, V2), [8], 0)
  }

  lemma RefreshedIs(path: Path)
    ensures var h := Refreshed(path);
      && Uploads(h) && !h.forceWhole && h.path == path && h.version == V2
      && |h.data| == h.baseSize == 2 * PART && h.data[PART] == 7
      && h.ranges == Merged([Range(0, 1)])
  {
    hide Merged;
    assert [] + [Range(0, 1)] == [Range(0, 1)];
  }

  /** The refreshed handle takes the new version but keeps its base size, so its small write is
      patched onto the shorter file and the rest of its bytes is lost. */
  lemma RefreshedHandleLosesBytes(path: Path)
    ensures var w, h := OneFile(path, Resized(TwoParts(), 1), V2), Refreshed(path);
      var (h', w', failure) := FlushSpec(None, h, w, PatchingNet(V3), GOOD_DISK);
      failure.None? && ContentAt(w'.remote.files, path) != Some(h.data)
  {
    hide Refreshed, Merged, DirtySet, FlushSpec;
    var w, h := OneFile(path, Resized(TwoParts(), 1), V2), Refreshed(path);
    RefreshedIs(path);
    OneDirtyByte(h, 0, 1);
    OnePartFlush(h, w, 1, V3);
    FlushExact(None, h, w, PatchingNet(V3), GOOD_DISK);
    assert PartOf(PART, PART) == 2;
  }

  /** A handle that is clean is coherent with the truncated content after the refresh exactly when its
      base is empty or its buffer is that content. */
  lemma RefreshedCleanIff(h: Handle, path: Path, version: Version, resized: Bytes)
    requires h.ranges == [] && !h.forceWhole && |h.data| == h.baseSize
    ensures Coherent(RefreshHandle(h, path, version), resized) <==> h.baseSize == 0 || resized == h.data
  {
    assert Canonical([]);
  }

  /** Any handle, dirty or not, that was coherent with the content that is then truncated is coherent
      with the result exactly when it uploads everything, has an empty base, or keeps its size. */
  lemma RefreshedIff(h: Handle, seen: Bytes, path: Path, version: Version, newSize: nat)
    requires Coherent(h, seen)
    ensures Coherent(RefreshHandle(h, path, version), Resized(seen, newSize)) <==>
      h.forceWhole || h.baseSize <= 0 || newSize == h.baseSize
  {
    if newSize == |seen| { assert Resized(seen, newSize) == seen; }
  }

  /** At one path no two revisions stand for the same content. */
  ghost predicate DistinctContents(named: Naming) {
    forall p: Path, i: int, j: int :: (p, i) in named && (p, j) in named && named[(p, i)] == named[(p, j)] ==> i == j
  }

  /** A handle that a rename gives the revision of its moved file names what it has seen exactly when it
      had seen what the file held; where contents have distinct revisions that is exactly when it was
      up to date. */
  lemma RenamedHandleIff(files: Files, source: Path, target: Path, moved: Files, h: Handle, seen: Bytes, v: Version,
                         named: Naming, named': Naming)
    requires AllNamed(files, named) && AllNamed(moved, named') && RenamesTo(files, source, target, moved)
    requires HandleOk(h, seen, named) && !h.deleted && Under(h.path, source) && h.path in files
    requires UpToDate(moved, RetargetHandle(h, source, target, v))
    ensures HandleOk(RetargetHandle(h, source, target, v), seen, named') <==> files[h.path].content == seen
    ensures DistinctContents(named) ==> (files[h.path].content == seen <==> UpToDate(files, h))
  {
    assert RetargetHandle(h, source, target, v).path == RenamedPath(h.path, source, target);
    assert (h.path, files[h.path].version.revision) in named && (h.path, h.version.revision) in named;
  }

  /** After a rename a handle takes the version the file then has. If somebody else wrote the file
      before the rename, the handle's next flush replaces that content without noticing; without the
      rename it is refused. */
  lemma RenamedStaleHandleOverwrites(source: Path, target: Path)
    ensures var h := WriteHandle(OpenSpec(source, [1], true, false, V1, false), [3], 0);
      var w := OneFile(target, [2], V2);
      var moved := RetargetHandle(h, source, target, V2);
      var (h', w', failure) := FlushSpec(None, moved, w, WritingNet(Written(V3, 3)), GOOD_DISK);
      && failure.None?
      && |w'.remote.changes| == 1 && w'.remote.changes[0].replaced == Some([2])
      && FlushSpec(None, h, OneFile(source, [2], V2), WritingNet(Written(V3, 3)), GOOD_DISK).2 == Some(Conflict)
  {
    var h := WriteHandle(OpenSpec(source, [1], true, false, V1, false), [3], 0);
    assert [] + [Range(0, 1)] == [Range(0, |h.data|)];
    MergedOfCanonical([Range(0, 1)]);
    WholeBufferIsNotPatched(h.data, V2);
    UndisturbedLands(OneFile(target, [2], V2).remote);
  }

  /** A handle below a renamed directory takes the version of the directory: from then on its flush
      is refused or let through according to the directory's revision, not to the one it read. */
  lemma BelowRenamedDirectory(h: Handle, files: Files, source: Path, target: Path, directory: Version)
    requires HasPrefix(h.path, TreePrefix(source)) && h.path != source
    requires directory.revision > 0 && directory.resourceId == ""
    ensures var moved := RetargetHandle(h, source, target, directory);
      && moved.path == target + h.path[|source|..]
      && (moved.path in files && files[moved.path].version.revision > 0 ==>
            (CheckSpec(files, moved.path, moved.version, Answered) == Some(Conflict) <==>
               files[moved.path].version.revision != directory.revision))
  {
    assert h.path[..|TreePrefix(source)|] == TreePrefix(source);
    assert h.path[..|source|] == TreePrefix(source)[..|source|] == source;
  }

  /** After a whole write with nobody else around, the handle's own next check passes exactly when the
      reply carried the revision that was stored (and no two resource identifiers disagree): with any
      other reply, one without a revision included, the handle conflicts with its own write. */
  lemma NextCheckPassesIff(h: Handle, w: World, v: Version, reported: int)
    requires Uploads(h) && h.version.revision > 0 && v.revision > 0 && v.revision != h.version.revision
    requires !ShouldPatch(h.version, h.baseSize, |h.data|, UploadRanges(h))
    requires CheckSpec(w.remote.files, h.path, h.version, Answered).None?
    ensures var (h', w', failure) := FlushSpec(None, h, w, WritingNet(Written(v, reported)), GOOD_DISK);
      && failure.None?
      && (CheckSpec(w'.remote.files, h'.path, h'.version, Answered).None? <==>
            && reported == v.revision
            && (h.version.resourceId == "" || v.resourceId == "" || h.version.resourceId == v.resourceId))
  {
    UndisturbedLands(w.remote);
  }

  /** So a flush whose reply has no revision makes the handle's own next flush a conflict. */
  lemma UnreportedRevisionBlocksNextFlush(h: Handle, w: World, v: Version, data: Bytes, off: int, again: Net)
    requires Uploads(h) && h.version.revision > 0 && v.revision > 0 && v.revision != h.version.revision
    requires !ShouldPatch(h.version, h.baseSize, |h.data|, UploadRanges(h))
    requires CheckSpec(w.remote.files, h.path, h.version, Answered).None?
    requires again.check.Answered?
    ensures var (h', w', failure) := FlushSpec(None, h, w, WritingNet(Written(v, 0)), GOOD_DISK);
      && failure.None? && h'.version == h.version
      && (WriteOutcome(h', data, off).Wrote? ==>
            FlushSpec(None, WriteHandle(h', data, off), w', again, GOOD_DISK).2 == Some(Conflict))
  {
    UndisturbedLands(w.remote);
    NextCheckPassesIff(h, w, v, 0);
  }
}
