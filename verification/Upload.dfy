/** Uploading a buffer to the remote file system (`fuse_mount.go`): the version check, the
    whole-file write, the patch of dirty parts, and the choice between them. The remote service
    and the replies it gives are parameters. */
module Upload {
  import opened Basics
  import opened Versions
  import opened DirtyRanges
  import opened Division

  // ---------- the remote service ----------

  datatype Obj = Obj(content: Bytes, version: Version)
  type Files = map<Path, Obj>

  /** One content change made by this client, with what it replaced. */
  datatype Change = Change(path: Path, data: Bytes, base: Version, replaced: Option<Bytes>)

  datatype Remote = Remote(files: Files, changes: seq<Change>)

  datatype Error = Conflict | Refused | Network | Storage

  /** Writes and deletions by others that land at a given moment. */
  datatype Others = Others(written: Files, removed: set<Path>)

  const NOBODY := Others(map[], {})

  datatype StatReply = Answered | StatFails(unsupported: bool)
  datatype PatchReply = Patched(version: Version) | PatchFails(unsupported: bool)

  /** `reported` is the revision in the reply, zero when the reply does not carry one;
      `ReplyLost` is a write that took effect although the client saw an error. */
  datatype WriteReply = Written(version: Version, reported: int) | WriteFails | ReplyLost(version: Version)

  /** How the service and everybody else behave during one upload. */
  datatype Net = Net(check: StatReply, beforeUpload: Others, patch: PatchReply, afterPatch: Others,
                     recheck: StatReply, write: WriteReply)

  function Land(r: Remote, o: Others): Remote {
    r.(files := (r.files - o.removed) + o.written)
  }

  function ContentAt(files: Files, path: Path): Option<Bytes> {
    if path in files then Some(files[path].content) else None
  }

  function SetContent(r: Remote, path: Path, data: Bytes, base: Version, version: Version): Remote {
    Remote(r.files[path := Obj(data, version)], r.changes + [Change(path, data, base, ContentAt(r.files, path))])
  }

  // ---------- sizes of parts ----------

  const ALIGN := 0x10_0000
  const DEFAULT_PART_SIZE := 0x80_0000
  const MAX_PART_SIZE := 0x2000_0000

  function CalcAdaptivePartSize(totalSize: int): (r: int)
    ensures DEFAULT_PART_SIZE <= r <= MAX_PART_SIZE
  {
    var perPart := (totalSize + 9999) / 10000;
    var aligned := ((perPart + ALIGN - 1) / ALIGN) * ALIGN;
    if aligned < DEFAULT_PART_SIZE then DEFAULT_PART_SIZE
    else if aligned > MAX_PART_SIZE then MAX_PART_SIZE
    else aligned
  }

  /** The part size in numbers: a whole number of mebibytes between 8 and 512, enough for a file of this
      size in 10000 parts unless that takes more than 512, and the least such size. */
  lemma PartSizeIsLeast(totalSize: int, s: int)
    requires totalSize >= 0
    ensures var r := CalcAdaptivePartSize(totalSize);
      && 0x80_0000 <= r <= 0x2000_0000 && r % 0x10_0000 == 0
      && (totalSize <= 10000 * r || r == 0x2000_0000)
      && (0x80_0000 <= s < r && s % 0x10_0000 == 0 ==> 10000 * s < totalSize)
  {
    var perPart := (totalSize + 9999) / 10000;
    var aligned := ((perPart + ALIGN - 1) / ALIGN) * ALIGN;
    assert perPart <= aligned < perPart + ALIGN && aligned % ALIGN == 0;
    assert 10000 * perPart >= totalSize > 10000 * (perPart - 1);
    if 0x80_0000 <= s < CalcAdaptivePartSize(totalSize) && s % ALIGN == 0 {
      assert s < aligned;
      assert s <= aligned - ALIGN by { assert (aligned - s) % ALIGN == 0; }
    }
  }

  /** The size of part `p` of a file of `newSize` bytes. */
  function PartLength(p: int, partSize: int, newSize: int): int {
    Min(partSize, newSize - (p - 1) * partSize)
  }

  /** The callback that supplies the new bytes of one part. */
  function PartBytes(data: Bytes, p: int, length: nat, partSize: int): (out: Bytes)
    requires p >= 1 && partSize > 0
    ensures |out| == length
  {
    MulNonNegative(partSize, p - 1);
    var offset := (p - 1) * partSize;
    if offset >= |data| then Zeros(length) else
      var end := Min(offset + length, |data|);
      data[offset..end] + Zeros(length - (end - offset))
  }

  lemma PartHoldsByte(b: int, partSize: int, newSize: int)
    requires partSize > 0 && 0 <= b < newSize
    ensures var p := PartOf(b, partSize);
      p >= 1 && 0 <= b - (p - 1) * partSize < PartLength(p, partSize, newSize)
  {
    DivBounds(b, partSize);
    PartMonotone(0, b, partSize);
  }

  /** The length of a part: it has the bytes of the file from its start up to that length, no others. */
  lemma PartLengthMeans(b: int, p: int, partSize: int, newSize: int)
    requires partSize > 0 && p >= 1
    ensures 0 <= b < newSize && PartOf(b, partSize) == p
       <==> (p - 1) * partSize <= b < (p - 1) * partSize + PartLength(p, partSize, newSize)
  {
    MulNonNegative(partSize, p - 1);
    DivBounds(b, partSize);
    if (p - 1) * partSize <= b < (p - 1) * partSize + partSize { DivUnique(b, partSize, p - 1); }
  }

  /** The service replaces the listed parts and copies the rest of the original. */
  function PatchedByte(original: Bytes, data: Bytes, parts: set<int>, partSize: int, b: int): byte
    requires partSize > 0 && 0 <= b < |data|
  {
    var p := PartOf(b, partSize);
    PartHoldsByte(b, partSize, |data|);
    if p in parts then PartBytes(data, p, PartLength(p, partSize, |data|), partSize)[b - (p - 1) * partSize]
    else if b < |original| then original[b]
    else 0
  }

  function PatchedContent(original: Bytes, data: Bytes, parts: set<int>, partSize: int): (c: Bytes)
    requires partSize > 0
    ensures |c| == |data|
  {
    seq(|data|, b requires 0 <= b < |data| => PatchedByte(original, data, parts, partSize, b))
  }

  /** Whatever the part size, a listed part ends up holding exactly the buffer's bytes. */
  lemma ListedPartIsBuffer(original: Bytes, data: Bytes, parts: set<int>, partSize: int, b: int)
    requires partSize > 0 && 0 <= b < |data| && PartOf(b, partSize) in parts
    ensures PatchedContent(original, data, parts, partSize)[b] == data[b]
  {
    hide PartOf;
    PartHoldsByte(b, partSize, |data|);
    var p := PartOf(b, partSize);
    PartByte(data, p, PartLength(p, partSize, |data|), partSize, b - (p - 1) * partSize);
  }

  /** What the callback supplies at one position, as long as it is in the buffer. */
  lemma PartByte(data: Bytes, p: int, length: nat, partSize: int, i: nat)
    requires p >= 1 && partSize > 0 && i < length
    requires 0 <= (p - 1) * partSize + i < |data|
    ensures PartBytes(data, p, length, partSize)[i] == data[(p - 1) * partSize + i]
  {
    MulNonNegative(partSize, p - 1);
  }

  /** A patch reproduces the buffer exactly when the original already agrees with the buffer in
      every part that is not sent. */
  lemma PatchIsWholeWriteIff(original: Bytes, data: Bytes, parts: set<int>, partSize: int)
    requires partSize > 0
    ensures PatchedContent(original, data, parts, partSize) == data <==>
      forall b :: 0 <= b < |data| && PartOf(b, partSize) !in parts ==>
        data[b] == (if b < |original| then original[b] else 0)
  {
    var c := PatchedContent(original, data, parts, partSize);
    forall b | 0 <= b < |data|
      ensures PartOf(b, partSize) in parts ==> c[b] == data[b]
    {
      if PartOf(b, partSize) in parts { ListedPartIsBuffer(original, data, parts, partSize, b); }
    }
    if c == data {
      forall b | 0 <= b < |data| && PartOf(b, partSize) !in parts
        ensures data[b] == (if b < |original| then original[b] else 0)
      {
        assert c[b] == data[b];
      }
    }
  }

  // ---------- what one upload does ----------

  ghost predicate ShouldPatch(base: Version, baseSize: int, newSize: int, ranges: seq<Range>) {
    && base.Known() && base.revision > 0 && baseSize > 0 && newSize > 0 && ranges != []
    && newSize == baseSize
    && 0 < |DirtySet(ranges)| < newSize
  }

  ghost function DirtyPartSet(ranges: seq<Range>, partSize: int, newSize: int): (s: set<int>)
    requires partSize > 0
    ensures forall p :: p in s <==> DirtyPart(ranges, partSize, newSize, p)
  {
    forall b | 0 <= b < newSize ensures 1 <= PartOf(b, partSize) <= newSize {
      PartMonotone(0, b, partSize);
      DivBounds(b, partSize);
      MulGrows(partSize, b / partSize);
    }
    set p | 1 <= p <= newSize && DirtyPart(ranges, partSize, newSize, p)
  }

  lemma MulGrows(n: int, d: int)
    requires n > 0 && d >= 0
    ensures n * d >= d
  {
    MulNonNegative(d + 1, n - 1);
    assert n * d == (n - 1) * d + d;
    MulSign(n - 1, d);
  }

  lemma MulSign(a: int, b: int)
    requires a >= 0 && b >= 0
    ensures a * b >= 0
  {}

  datatype PatchOutcome = PatchOk(version: Version) | PatchErr(error: Error, unsupported: bool)

  function CheckSpec(files: Files, path: Path, base: Version, reply: StatReply): Option<Error> {
    if !base.Known() then None
    else if reply.StatFails? then Some(Network)
    else if path !in files then Some(Conflict)
    else if files[path].version.ConflictsWith(base) then Some(Conflict)
    else None
  }

  /** The check in plain terms. Without a known base nothing is refused, so a file can be created; with one
      the file must be there and must not report another revision or identifier. A file that cannot be
      looked up is a failure of the network, not a conflict. */
  lemma CheckRefuses(files: Files, path: Path, base: Version, reply: StatReply)
    ensures var refusal := CheckSpec(files, path, base, reply);
      && (base.revision <= 0 && base.resourceId == "" ==> refusal == None)
      && (base.revision > 0 || base.resourceId != "" ==>
            && (refusal == Some(Network) <==> reply.StatFails?)
            && (refusal == None <==>
                  && reply.Answered? && path in files
                  && var now := files[path].version;
                     && (base.revision <= 0 || now.revision <= 0 || base.revision == now.revision)
                     && (base.resourceId == "" || now.resourceId == "" || base.resourceId == now.resourceId))
            && (refusal.Some? ==> refusal.value == Network || refusal.value == Conflict))
  {}

  /** A patch request the service accepts: the file exists and still has the base revision. */
  predicate PatchAccepted(r: Remote, path: Path, base: Version, net: Net) {
    net.patch.Patched? && path in r.files && r.files[path].version.revision == base.revision
  }

  ghost function PatchSpec(r: Remote, path: Path, data: Bytes, base: Version, baseSize: int,
                           ranges: seq<Range>, net: Net): (Remote, PatchOutcome)
  {
    var partSize := CalcAdaptivePartSize(Max(baseSize, |data|));
    var parts := DirtyPartSet(ranges, partSize, |data|);
    if parts == {} then (r, PatchOk(base))
    else if net.patch.PatchFails? then (r, PatchErr(Network, net.patch.unsupported))
    else if path !in r.files then (r, PatchErr(Network, true))
    else if r.files[path].version.revision != base.revision then (r, PatchErr(Refused, false))
    else
      var content := PatchedContent(r.files[path].content, data, parts, partSize);
      var after := Land(SetContent(r, path, content, base, net.patch.version), net.afterPatch);
      if net.recheck.StatFails? then (after, PatchErr(Network, net.recheck.unsupported))
      else if path !in after.files then (after, PatchErr(Network, false))
      else (after, PatchOk(after.files[path].version))
  }

  function WriteSpec(r: Remote, path: Path, data: Bytes, base: Version, reply: WriteReply)
    : (Remote, Result<Version, Error>)
  {
    match reply
    case WriteFails => (r, Err(Network))
    case ReplyLost(v) => (SetContent(r, path, data, base, v), Err(Network))
    case Written(v, reported) => (SetContent(r, path, data, base, v), Ok(base.WithRevision(reported)))
  }

  ghost function UploadSpec(r: Remote, path: Path, data: Bytes, base: Version, baseSize: int,
                            ranges: seq<Range>, net: Net): (Remote, Result<Version, Error>)
  {
    var refusal := CheckSpec(r.files, path, base, net.check);
    if refusal.Some? then (r, Err(refusal.value)) else
      var now := Land(r, net.beforeUpload);
      if ShouldPatch(base, baseSize, |data|, ranges) then
        var (after, outcome) := PatchSpec(now, path, data, base, baseSize, ranges, net);
        match outcome
        case PatchOk(v) => (after, Ok(v))
        case PatchErr(e, unsupported) =>
          if !unsupported then (after, Err(e)) else WriteSpec(after, path, data, base, net.write)
      else WriteSpec(now, path, data, base, net.write)
  }

  /** The program's upload, step by step over the remote it talks to. */
  class Uploader {
    var remote: Remote

    constructor (files: Files)
      ensures remote == Remote(files, [])
    {
      remote := Remote(files, []);
    }

    method CheckWriteBase(path: Path, base: Version, reply: StatReply) returns (refusal: Option<Error>)
      ensures refusal == CheckSpec(remote.files, path, base, reply)
      ensures refusal.None? && base.Known() ==> path in remote.files && !remote.files[path].version.ConflictsWith(base)
    {
      if !base.Known() { return None; }
      if reply.StatFails? { return Some(Network); }
      if path !in remote.files { return Some(Conflict); }
      if remote.files[path].version.ConflictsWith(base) { return Some(Conflict); }
      return None;
    }

    method ShouldPatchFuseWrite(base: Version, baseSize: int, newSize: int, ranges: seq<Range>) returns (yes: bool)
      ensures yes <==> ShouldPatch(base, baseSize, newSize, ranges)
    {
      if !base.Known() || base.revision <= 0 || baseSize <= 0 || newSize <= 0 || |ranges| == 0 { return false; }
      if newSize != baseSize { return false; }
      var totalDirty := TotalDirty(ranges);
      return totalDirty > 0 && totalDirty < newSize;
    }

    method PatchUpload(path: Path, data: Bytes, base: Version, baseSize: int, ranges: seq<Range>, net: Net)
      returns (outcome: PatchOutcome)
      modifies this
      ensures (remote, outcome) == PatchSpec(old(remote), path, data, base, baseSize, ranges, net)
    {
      var partSize := CalcAdaptivePartSize(Max(baseSize, |data|));
      var dirtyParts := FuseDirtyParts(ranges, partSize, |data|);
      var parts := set p | p in dirtyParts;
      assert parts == DirtyPartSet(ranges, partSize, |data|);
      if |dirtyParts| == 0 {
        assert parts == {};
        return PatchOk(base);
      }
      assert dirtyParts[0] in parts;
      if net.patch.PatchFails? { return PatchErr(Network, net.patch.unsupported); }
      if path !in remote.files { return PatchErr(Network, true); }
      if remote.files[path].version.revision != base.revision { return PatchErr(Refused, false); }
      remote := SetContent(remote, path, PatchedContent(remote.files[path].content, data, parts, partSize), base,
                           net.patch.version);
      remote := Land(remote, net.afterPatch);
      if net.recheck.StatFails? { return PatchErr(Network, net.recheck.unsupported); }
      if path !in remote.files { return PatchErr(Network, false); }
      return PatchOk(remote.files[path].version);
    }

    method Upload(path: Path, data: Bytes, base: Version, baseSize: int, ranges: seq<Range>, net: Net)
      returns (res: Result<Version, Error>)
      modifies this
      ensures (remote, res) == UploadSpec(old(remote), path, data, base, baseSize, ranges, net)
    {
      var refusal := CheckWriteBase(path, base, net.check);
      if refusal.Some? { return Err(refusal.value); }
      remote := Land(remote, net.beforeUpload);
      var patch := ShouldPatchFuseWrite(base, baseSize, |data|, ranges);
      if patch {
        var outcome := PatchUpload(path, data, base, baseSize, ranges, net);
        if outcome.PatchOk? { return Ok(outcome.version); }
        if !outcome.unsupported { return Err(outcome.error); }
      }
      var (after, r) := WriteSpec(remote, path, data, base, net.write);
      remote := after;
      return r;
    }
  }

  // ---------- what an upload guarantees ----------

  /** The buffer is the base content except inside the dirty ranges, as far as the base goes; an
      empty base promises nothing because it is never patched. */
  ghost predicate Tracks(data: Bytes, baseSize: int, ranges: seq<Range>, base: Bytes) {
    baseSize > 0 ==>
      && |base| == baseSize <= |data|
      && (forall b :: 0 <= b < baseSize && data[b] != base[b] ==> HasByte(ranges, b))
      && (forall b :: HasByte(ranges, b) ==> b < |data|)
  }

  /** Check and upload happen as one step, with nobody writing in between. */
  predicate Undisturbed(net: Net) {
    net.beforeUpload == NOBODY && net.afterPatch == NOBODY
  }

  lemma UndisturbedLands(r: Remote)
    ensures Land(r, NOBODY) == r
  {
    assert (r.files - {}) + map[] == r.files;
  }

  /** When the buffer tracks the remote content, sending only the dirty parts gives the buffer. */
  lemma TrackedPatchIsBuffer(original: Bytes, data: Bytes, baseSize: int, ranges: seq<Range>, partSize: int)
    requires partSize > 0 && baseSize > 0 && |data| == baseSize && Tracks(data, baseSize, ranges, original)
    ensures PatchedContent(original, data, DirtyPartSet(ranges, partSize, |data|), partSize) == data
  {
    var parts := DirtyPartSet(ranges, partSize, |data|);
    forall b | 0 <= b < |data| && PartOf(b, partSize) !in parts ensures data[b] == original[b] {
      assert HasByte(ranges, b) ==> Touched(ranges, |data|, b);
    }
    PatchIsWholeWriteIff(original, data, parts, partSize);
  }

  /** A decision to patch means at least one part is sent, when the ranges lie in the buffer. */
  lemma PatchSendsSomething(data: Bytes, baseSize: int, ranges: seq<Range>, base: Version, content: Bytes,
                            partSize: int)
    requires partSize > 0 && ShouldPatch(base, baseSize, |data|, ranges) && Tracks(data, baseSize, ranges, content)
    ensures DirtyPartSet(ranges, partSize, |data|) != {}
  {
    var b :| b in DirtySet(ranges);
    DirtySetIsHasByte(ranges, b);
    assert Touched(ranges, |data|, b);
    assert PartOf(b, partSize) in DirtyPartSet(ranges, partSize, |data|);
  }

  /** The write that a successful upload performed last, and what the remote then holds. */
  lemma UploadStoresBuffer(r: Remote, path: Path, data: Bytes, base: Version, baseSize: int, ranges: seq<Range>,
                           net: Net)
    requires Undisturbed(net)
    requires base.revision > 0 && path in r.files && r.files[path].version.revision == base.revision ==>
      Tracks(data, baseSize, ranges, r.files[path].content)
    requires path in r.files ==> r.files[path].version.revision > 0
    ensures var (after, res) := UploadSpec(r, path, data, base, baseSize, ranges, net);
      res.Ok? ==> path in after.files && after.files[path].content == data
  {
    UndisturbedLands(r);
    if CheckSpec(r.files, path, base, net.check).None? && ShouldPatch(base, baseSize, |data|, ranges) {
      NoConflictPinsRevision(r.files[path].version, base);
      var partSize := CalcAdaptivePartSize(Max(baseSize, |data|));
      PatchSendsSomething(data, baseSize, ranges, base, r.files[path].content, partSize);
      TrackedPatchIsBuffer(r.files[path].content, data, baseSize, ranges, partSize);
      if PatchAccepted(r, path, base, net) {
        UndisturbedLands(SetContent(r, path, data, base, net.patch.version));
      }
    }
  }

  /** Whoever else writes meanwhile, a patch only ever replaces the revision it was based on. */
  lemma PatchReplacesItsBase(r: Remote, path: Path, data: Bytes, base: Version, baseSize: int, ranges: seq<Range>,
                             net: Net)
    ensures var (after, outcome) := PatchSpec(r, path, data, base, baseSize, ranges, net);
      after.changes != r.changes ==>
        && path in r.files && r.files[path].version.revision == base.revision
        && |after.changes| == |r.changes| + 1
        && after.changes[|r.changes|].replaced == Some(r.files[path].content)
  {}

  /** The whole-file write carries no expected revision: a write by somebody else that lands after
      the check is replaced, and the upload still succeeds. */
  lemma WholeWriteCanReplaceNewerContent(path: Path)
    ensures exists r: Remote, base: Version, data: Bytes, net: Net ::
      && base.Known() && path in r.files && r.files[path].version == base
      && var (after, res) := UploadSpec(r, path, data, base, |data|, [Range(0, |data|)], net);
         res.Ok? && |after.changes| == 1 && after.changes[0].replaced != Some(r.files[path].content)
  {
    var base := Version(1, "");
    var r := Remote(map[path := Obj([1], base)], []);
    var theirs := Others(map[path := Obj([2], Version(2, ""))], {});
    var data: Bytes := [3];
    var net := Net(Answered, theirs, PatchFails(false), NOBODY, Answered, Written(Version(3, ""), 3));
    assert Land(r, theirs).files[path].content == [2];
    WholeBufferIsNotPatched(data, base);
    var (after, res) := UploadSpec(r, path, data, base, |data|, [Range(0, |data|)], net);
    assert after.changes[0].replaced == Some([2]);
    assert r.files[path].content[0] != 2;
  }

  /** Nothing is written after a patch: the upload does not fall back to a whole write, or that write
      fails outright. */
  ghost predicate EndsAsPatch(r: Remote, path: Path, data: Bytes, base: Version, baseSize: int, ranges: seq<Range>,
                              net: Net)
  {
    && ShouldPatch(base, baseSize, |data|, ranges)
    && var outcome := PatchSpec(Land(r, net.beforeUpload), path, data, base, baseSize, ranges, net).1;
       outcome.PatchOk? || !outcome.unsupported || net.write.WriteFails?
  }

  /** What a whole write finds: what others did since the check, and what a patch has stored whose
      outcome could not be read back. */
  ghost function FoundByWrite(r: Remote, path: Path, data: Bytes, base: Version, baseSize: int, ranges: seq<Range>,
                              net: Net): Files
  {
    var now := Land(r, net.beforeUpload);
    if ShouldPatch(base, baseSize, |data|, ranges) then
      PatchSpec(now, path, data, base, baseSize, ranges, net).0.files
    else now.files
  }

  /** A revision that is there at both moments stands for the same content. */
  predicate RevisionsName(before: Files, now: Files, path: Path) {
    && (path in before ==> before[path].version.revision > 0)
    && (path in before && path in now && before[path].version.revision == now[path].version.revision ==>
          before[path].content == now[path].content)
  }

  /** Whatever the service answers and whoever writes meanwhile: the last change of an upload that
      passed its check replaced exactly the content that was checked if and only if it was made by a
      patch, or the whole write found the path with the content that was checked. */
  lemma UploadReplacesCheckedIff(r: Remote, path: Path, data: Bytes, base: Version, baseSize: int,
                                 ranges: seq<Range>, net: Net)
    requires base.Known() && CheckSpec(r.files, path, base, net.check).None?
    requires RevisionsName(r.files, Land(r, net.beforeUpload).files, path)
    ensures var after := UploadSpec(r, path, data, base, baseSize, ranges, net).0;
      |after.changes| > |r.changes| ==>
        (after.changes[|after.changes| - 1].replaced == ContentAt(r.files, path) <==>
           || EndsAsPatch(r, path, data, base, baseSize, ranges, net)
           || ContentAt(FoundByWrite(r, path, data, base, baseSize, ranges, net), path) == ContentAt(r.files, path))
  {
    var now := Land(r, net.beforeUpload);
    if ShouldPatch(base, baseSize, |data|, ranges) {
      NoConflictPinsRevision(r.files[path].version, base);
      PatchReplacesItsBase(now, path, data, base, baseSize, ranges, net);
      WriteReplacesWhatItFinds(PatchSpec(now, path, data, base, baseSize, ranges, net).0, path, data, base, net.write);
    } else {
      WriteReplacesWhatItFinds(now, path, data, base, net.write);
    }
  }

  lemma WriteReplacesWhatItFinds(r: Remote, path: Path, data: Bytes, base: Version, reply: WriteReply)
    ensures var after := WriteSpec(r, path, data, base, reply).0;
      if reply.WriteFails? then after == r
      else |after.changes| == |r.changes| + 1 && after.changes[|r.changes|].replaced == ContentAt(r.files, path)
  {}

  /** A decision to patch is no protection: if somebody removes the file after the check, the service
      knows no file to patch, the fall back creates it again, and the upload succeeds. */
  lemma RemovedFileIsRecreated(path: Path)
    ensures exists r: Remote, base: Version, data: Bytes, ranges: seq<Range>, net: Net ::
      && base.Known() && path in r.files && r.files[path].version == base
      && ShouldPatch(base, |data|, |data|, ranges)
      && var (after, res) := UploadSpec(r, path, data, base, |data|, ranges, net);
         res.Ok? && |after.changes| == 1 && after.changes[0].replaced == None
  {
    var base, ranges := Version(1, ""), [Range(0, 1)];
    var data: Bytes := [1, 2];
    var r := Remote(map[path := Obj([3, 2], base)], []);
    var gone := Others(map[], {path});
    var net := Net(Answered, gone, Patched(Version(2, "")), NOBODY, Answered, Written(Version(3, ""), 3));
    assert ranges[0] in ranges && InRange(ranges[0], 0);
    forall b ensures b in DirtySet(ranges) <==> b in {0} { DirtySetIsHasByte(ranges, b); }
    assert DirtySet(ranges) == {0};
    var partSize := CalcAdaptivePartSize(2);
    DirtySetIsHasByte(ranges, 0);
    assert Touched(ranges, 2, 0);
    assert PartOf(0, partSize) in DirtyPartSet(ranges, partSize, 2);
    assert path !in Land(r, gone).files;
    var (after, res) := UploadSpec(r, path, data, base, |data|, ranges, net);
    assert after.changes[0].replaced == None;
  }

  /** How a patch ends. If the ranges touch no byte of the new file, nothing is sent and all is well. A patch
      that is not accepted changes nothing; it counts as unsupported if the service says so or does not
      know the file, and is refused if the file has another revision. An accepted patch is one change, and
      its result is the version that the stat after it reports, or a failure if there is none. */
  lemma PatchOutcomes(r: Remote, path: Path, data: Bytes, base: Version, baseSize: int, ranges: seq<Range>, net: Net)
    ensures var (after, o) := PatchSpec(r, path, data, base, baseSize, ranges, net);
      var sends := exists b :: Touched(ranges, |data|, b);
      var accepted := net.patch.Patched? && path in r.files && r.files[path].version.revision == base.revision;
      && (!sends ==> after == r && o == PatchOk(base))
      && (sends && !accepted ==>
            && after == r && o.PatchErr?
            && (o.unsupported <==> if net.patch.PatchFails? then net.patch.unsupported else path !in r.files)
            && o.error == if net.patch.Patched? && path in r.files then Refused else Network)
      && (sends && accepted ==>
            && |after.changes| == |r.changes| + 1
            && (o.PatchOk? <==> net.recheck.Answered? && path in after.files)
            && (o.PatchOk? ==> o.version == after.files[path].version)
            && (o.PatchErr? ==>
                  o == PatchErr(Network, net.recheck.StatFails? && net.recheck.unsupported)))
  {
    var partSize := CalcAdaptivePartSize(Max(baseSize, |data|));
    if b :| Touched(ranges, |data|, b) { assert PartOf(b, partSize) in DirtyPartSet(ranges, partSize, |data|); }
  }

  /** The single range over the whole buffer, used for forced and plain writes, is never patched. */
  lemma WholeBufferIsNotPatched(data: Bytes, base: Version)
    ensures forall baseSize :: !ShouldPatch(base, baseSize, |data|, [Range(0, |data|)])
  {
    var rs := [Range(0, |data|)];
    var iv := Interval(0, |data|);
    forall b ensures b in DirtySet(rs) <==> b in iv {
      DirtySetIsHasByte(rs, b);
      assert rs[0] in rs;
    }
    assert DirtySet(rs) == iv;
  }
}
