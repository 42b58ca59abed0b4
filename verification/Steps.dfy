/** What the steps of a run do, one kind of step at a time: to the remote files, to what the cache knows and
    to the open handles (`fuse_mount.go`). */
module Steps {
  import opened Basics
  import opened Versions
  import opened DirtyRanges
  import opened ReadCache
  import opened Upload
  import opened WriteBack
  import opened Handles
  import opened Protocol

  // ---------- opening and creating ----------

  /** What a create gives: it succeeds when the write is answered and a journal entry, where there is one,
      can be written and removed. The file is then there and empty, and there is a new clean handle on it
      with whatever revision was reported; after a failure there is no new handle. */
  lemma CreateGives(cfg: Config, s: Sys, st: Step, s': Sys)
    requires st.Create? && CreateStep(cfg, s, st, s') && Undisturbed(st.net)
    ensures var journalled := cfg.store.Some? && cfg.store.value.maxBytes >= 0;
      if st.net.write.Written? && (journalled ==> st.disk.putOk && st.disk.removeOk) then
        && ContentAt(s'.w.remote.files, st.path) == Some([])
        && st.id !in s.handles && st.id in s'.handles && s'.handles == s.handles[st.id := s'.handles[st.id]]
        && var h, reported := s'.handles[st.id], st.net.write.reported;
           && h.path == st.path && h.data == [] && h.writable && !h.dirty && !h.closed && !h.deleted
           && h.version == Version(if reported > 0 then reported else 0, "") && h.opensTruncated == st.truncate
      else s'.handles == s.handles
  {
    hide ShouldPatch;
    UndisturbedLands(s.w.remote);
    UnknownIsNotPatched(0, [Range(0, 0)]);
  }

  lemma UnknownIsNotPatched(size: int, ranges: seq<Range>)
    ensures forall newSize :: !ShouldPatch(UNKNOWN, size, newSize, ranges)
  {}

  /** Every open of a file that is there happens, from the cache if it has the version of the file. */
  lemma OpenHappens(cfg: Config, s: Sys, st: Step) returns (s': Sys)
    requires Inv(s) && st.Open? && st.path in s.w.remote.files && forall k :: k in s.handles ==> k < st.id
    requires st.cached ==>
      var latest := Latest(s.w.hist, cfg.maxFile, st.path);
      latest.Some? && latest.value.1.Matches(s.w.remote.files[st.path].version)
    ensures OpenStep(cfg, s, st, s') && s'.w.remote == s.w.remote && s'.w.pending == s.w.pending
    ensures s'.named == s.named
  {
    var obj := s.w.remote.files[st.path];
    if st.writable && st.truncate {
      var h := OpenSpec(st.path, [], st.writable, true, obj.version, st.truncate);
      s' := s.(handles := s.handles[st.id := h], seen := s.seen[st.id := obj.content]);
    } else if sib :| sib in s.handles && DirtySibling(s, st.path, sib) {
      var newest := NewestExists(s, st.path, sib, s.handles.Keys);
      var h := s.handles[newest];
      s' := s.(handles := s.handles[st.id := OpenSpec(st.path, h.data, st.writable, false, h.version, st.truncate)],
               seen := s.seen[st.id := s.seen[newest]]);
    } else {
      var data, w' := ReadHappens(cfg, s.w, st.path, st.cached);
      s' := s.(w := w', seen := s.seen[st.id := obj.content],
               handles := s.handles[st.id := OpenSpec(st.path, data, st.writable, false, obj.version, st.truncate)]);
    }
  }

  lemma ReadHappens(cfg: Config, w: World, path: Path, cached: bool) returns (data: Bytes, w': World)
    requires path in w.remote.files
    requires cached ==>
      var latest := Latest(w.hist, cfg.maxFile, path);
      latest.Some? && latest.value.1.Matches(w.remote.files[path].version)
    ensures ReadsFile(cfg, w, path, cached, data, w') && w'.remote == w.remote && w'.pending == w.pending
  {
    if cached {
      data, w' := Latest(w.hist, cfg.maxFile, path).value.0, w;
    } else {
      data := w.remote.files[path].content;
      w' := w.(hist := w.hist + [Op.Put(path, data, w.remote.files[path].version)]);
    }
  }

  /** After a read the cache has the bytes that were read, under a version that the file meets, unless they
      are too large for it. */
  lemma ReadIsCached(cfg: Config, w: World, path: Path, cached: bool, data: Bytes, w': World)
    requires path in w.remote.files && ReadsFile(cfg, w, path, cached, data, w')
    requires cached || |data| <= cfg.maxFile
    ensures var latest := Latest(w'.hist, cfg.maxFile, path);
      latest.Some? && latest.value.0 == data && latest.value.1.Matches(w.remote.files[path].version)
  {
    if !cached { LatestAppend(w.hist, Op.Put(path, data, w.remote.files[path].version)); }
  }

  lemma NewestExists(s: Sys, path: Path, id: int, ids: set<int>) returns (newest: int)
    requires id in ids && ids <= s.handles.Keys && DirtySibling(s, path, id)
    requires forall k :: k in s.handles && k !in ids && DirtySibling(s, path, k) ==> k < id
    ensures newest in s.handles && NewestDirtySibling(s, path, newest)
    decreases ids
  {
    if k :| k in ids && k > id && DirtySibling(s, path, k) {
      newest := NewestExists(s, path, k, ids - {id});
    } else {
      newest := id;
    }
  }

  // ---------- unlinking, renaming, truncating by path ----------

  /** An unlink removes one file, makes the cache forget the path and what is below it, marks the handles
      there, and changes nothing else. */
  lemma UnlinkGives(cfg: Config, s: Sys, st: Step, s': Sys, path: Path, id: int)
    requires st.Unlink? && StepRelation(cfg, s, st, s')
    ensures path in s'.w.remote.files <==> path in s.w.remote.files && path != st.path
    ensures path in s'.w.remote.files ==> s'.w.remote.files[path] == s.w.remote.files[path]
    ensures s'.w.remote.changes == s.w.remote.changes && s'.w.pending == s.w.pending
    ensures Latest(s'.w.hist, cfg.maxFile, path) ==
      if Under(path, st.path) then None else Latest(s.w.hist, cfg.maxFile, path)
    ensures id in s'.handles <==> id in s.handles
    ensures id in s.handles ==>
      var h := s.handles[id]; s'.handles[id] == h.(deleted := h.deleted || Under(h.path, st.path))
  {
    LatestAppend(s.w.hist, InvalidatePrefix(st.path));
  }

  /** A rename makes the cache forget both subtrees, moves the handles of the one, with the version of the
      target if that could be read, and changes no other handle. */
  lemma RenameGives(cfg: Config, s: Sys, st: Step, s': Sys, path: Path, id: int)
    requires st.Rename? && StepRelation(cfg, s, st, s')
    ensures s'.w.remote == s.w.remote.(files := st.moved) && s'.w.pending == s.w.pending
    ensures Latest(s'.w.hist, cfg.maxFile, path) ==
      if Under(path, st.source) || Under(path, st.target) then None else Latest(s.w.hist, cfg.maxFile, path)
    ensures id in s'.handles <==> id in s.handles
    ensures id in s.handles ==>
      var h := s.handles[id];
      s'.handles[id] ==
      if Under(h.path, st.source) then
        h.(path := RenamedPath(h.path, st.source, st.target),
           version := if st.statOk && st.version.Known() then st.version else h.version)
      else h
  {
    var between := s.w.hist + [InvalidatePrefix(st.source)];
    LatestAppend(s.w.hist, InvalidatePrefix(st.source));
    LatestAppend(between, InvalidatePrefix(st.target));
  }

  /** What the service is taken to do when it renames is possible whenever there is something to rename. */
  lemma RenameHappens(files: Files, source: Path, target: Path) returns (moved: Files)
    requires exists p :: p in files && Under(p, source)
    requires source != "" && source[|source| - 1] != '/' && target != "" && target[|target| - 1] != '/'
    ensures RenamesTo(files, source, target, moved)
  {
    hide Under, RenamedPath, GoesTo;
    forall p | p in files && Under(p, source)
      ensures GoesTo(p, source, target) && Under(RenamedPath(p, source, target), target)
    {
      MovedBelow(p, source, target);
    }
    forall p, q | GoesTo(p, source, target) && GoesTo(q, source, target) &&
        RenamedPath(p, source, target) == RenamedPath(q, source, target)
      ensures p == q
    {
      MovedApart(p, q, source, target);
    }
    var kept := map p | p in files && !Under(p, source) && !Under(p, target) :: files[p];
    var renamed := map p | p in files && Under(p, source) :: RenamedPath(p, source, target) := files[p];
    moved := kept + renamed;
  }

  /** The path of something in the source, and where it goes. */
  ghost predicate GoesTo(p: Path, source: Path, target: Path) {
    source <= p && RenamedPath(p, source, target) == target + p[|source|..]
  }

  lemma MovedApart(p: Path, q: Path, source: Path, target: Path)
    requires GoesTo(p, source, target) && GoesTo(q, source, target)
    requires RenamedPath(p, source, target) == RenamedPath(q, source, target)
    ensures p == q
  {
    hide RenamedPath;
    assert (target + p[|source|..])[|target|..] == (target + q[|source|..])[|target|..];
    assert p == source + p[|source|..] && q == source + q[|source|..];
  }

  lemma MovedBelow(p: Path, source: Path, target: Path)
    requires Under(p, source)
    requires source != "" && source[|source| - 1] != '/' && target != "" && target[|target| - 1] != '/'
    ensures GoesTo(p, source, target) && Under(RenamedPath(p, source, target), target)
  {
    if p == source {
      assert target + p[|source|..] == target;
    } else {
      assert p[..|source| + 1] == source + "/";
      assert p[..|source|] == p[..|source| + 1][..|source|] == source;
      assert p[|source|] == p[..|source| + 1][|source|] == '/';
      var r := target + p[|source|..];
      assert r[..|target| + 1] == target + "/";
    }
  }

  /** A truncation by path that succeeds leaves the bytes of the file as far as they go and zeros after
      them; it gives its version to the handles that `RefreshHandle` says, and changes no handle when it
      fails. */
  lemma TruncateGives(cfg: Config, s: Sys, st: Step, s': Sys, id: int)
    requires Inv(s) && st.TruncatePath? && StepRelation(cfg, s, st, s')
    ensures var obj := s.w.remote.files[st.path];
      var resized := Resized(obj.content, st.newSize);
      var (after, left, res) := PutAndUploadSpec(cfg.store, s.w.remote, s.w.pending, st.path, resized, obj.version,
                                                 |resized|, [Range(0, |resized|)], st.net, st.disk);
      && s'.w.remote == after && s'.w.pending == left
      && (res.Ok? ==> ContentAt(after.files, st.path) == Some(resized))
      && (id in s'.handles <==> id in s.handles)
      && (id in s.handles ==>
            var h := s.handles[id];
            s'.handles[id] ==
            if res.Ok? && h.path == st.path && h.writable && h.opensTruncated && !h.closed && !h.deleted
            then h.(version := res.value) else h)
  {
    hide Latest, ShouldPatch, HandlesOk, PendingOk, SoundHistory, NoLostUpdate, AllNamed;
    var data: Bytes, w1: World :| ReadsFile(cfg, s.w, st.path, st.cached, data, w1)
      && TruncatesTo(cfg, s, st, w1, Resized(data, st.newSize), s');
    ReadKeeps(cfg, s, st.path, st.cached, data, w1);
    WholeBufferIsNotPatched(Resized(data, st.newSize), s.w.remote.files[st.path].version);
  }

  // ---------- what a step leaves alone ----------

  /** Opening, creating, editing, flushing and releasing concern one handle: every other is untouched, an
      edited or flushed one is still there, and a released one is gone, whatever became of its flush. */
  lemma OtherHandlesStay(cfg: Config, s: Sys, st: Step, s': Sys, k: int)
    requires StepRelation(cfg, s, st, s')
    requires st.Open? || st.Create? || st.Write? || st.Setattr? || st.Flush? || st.Release?
    ensures k != st.id ==> (k in s'.handles <==> k in s.handles) && (k in s.handles ==> s'.handles[k] == s.handles[k])
    ensures st.Write? || st.Setattr? || st.Flush? ==> st.id in s.handles && st.id in s'.handles
    ensures st.Release? ==> st.id in s.handles && st.id !in s'.handles
    ensures st.Open? || st.Write? || st.Setattr? ==> s'.w.remote == s.w.remote && s'.w.pending == s.w.pending
  {
    hide StoreSpec, FlushSpec, WriteHandle, SetattrHandle, OpenSpec;
  }

  /** A replay removes its entry exactly if it succeeds to the end, and touches no handle. What others write
      is there, what they remove is not, and nothing else of theirs can be seen. */
  lemma ReplayGives(cfg: Config, s: Sys, st: Step, s': Sys, path: Path)
    requires StepRelation(cfg, s, st, s') && (st.ReplayEntry? || st.External?)
    ensures s'.handles == s.handles && s'.w.hist == s.w.hist
    ensures st.External? ==>
      var files, files', others := s.w.remote.files, s'.w.remote.files, st.others;
      && s'.w.pending == s.w.pending && s'.w.remote.changes == s.w.remote.changes
      && (path in files' <==> path in others.written || (path in files && path !in others.removed))
      && (path in files' ==> files'[path] == if path in others.written then others.written[path] else files[path])
    ensures st.ReplayEntry? ==>
      var (after, res) := EntryUpload(s.w.remote, s.w.pending[st.path], st.reply.net);
      && s'.w.remote == after
      && (path in s'.w.pending <==> path in s.w.pending && !(path == st.path && res.Ok? && st.reply.removeOk))
      && (path in s'.w.pending ==> s'.w.pending[path] == s.w.pending[path])
  {
    hide UploadSpec;
  }
}
