/** Unpacking an archive in place of what it replaces, and what packing and unpacking do together
    (`pack.go`). */
module PackUnpack {
  import opened Basics
  import opened GoSort
  import opened FileTree
  import opened PackTree
  import opened PackArchive
  import opened PackExtract
  import opened PackInstall
  import PathStrings
  import OverlayAudit

  /** The whole unpack as a function: extract into an empty stage, remove, install. */
  function Unpack(u: User, root: Loc, overlay: Tree, entries: seq<Entry>, paths: seq<Loc>): Result<Tree, Error> {
    var staged := ExtractFirst(u, root, EmptyStage(u), entries, |entries|);
    if staged.Err? then Err(staged.error) else
      var removed := RemoveFirst(u, overlay, paths, |paths|);
      if removed.Err? then Err(removed.error) else
        var moved := InstallFirst(u, staged.value, removed.value, paths, |paths|);
        if moved.Err? then Err(moved.error) else Ok(moved.value.into)
  }

  function ErrorOf<T>(r: Result<T, Error>): (e: Option<Error>)
    ensures r.Ok? <==> e.None?
    ensures e.Some? ==> r == Err(e.value)
  {
    if r.Ok? then None else Some(r.error)
  }

  /** An unpack at work: the overlay, and the stage next to it. */
  class Unpacker {
    var overlay: Tree
    var stage: Tree
    const stageRoot: Loc
    const u: User

    constructor (u: User, overlay: Tree, stageRoot: Loc)
      ensures this.overlay == overlay && this.stageRoot == stageRoot && this.u == u && stage == EmptyStage(u)
    {
      this.overlay, this.stageRoot, this.u, this.stage := overlay, stageRoot, u, EmptyStage(u);
    }

    /** A file or a link into the stage. */
    method PlaceStaged(p: Loc, node: Node) returns (error: Option<Error>)
      modifies this`stage
      ensures var r := PlaceLeaf(u, old(stage), p, node); error == ErrorOf(r) && (r.Ok? ==> stage == r.value)
    {
      hide CheckPath, MayMake, MayRemove, SearchableAbove;
      error := EnsureNoSymlinkPath(u, stage, Parent(p));
      if error.Some? { return; }
      var made := MkdirAll(u, stage, Parent(p), Created(DIR_MODE, u.umask));
      if made.Err? { return Some(made.error); }
      stage := made.value;
      error := EnsureNoSymlinkPath(u, stage, Parent(p));
      if error.Some? { return; }
      var cleared := RemoveAll(u, stage, p);
      if cleared.Err? { return Some(cleared.error); }
      stage := cleared.value;
      var created := CreateLeaf(u, stage, p, node);
      if created.Err? { return Some(created.error); }
      stage := created.value;
    }

    method ExtractPackEntry(e: Entry) returns (error: Option<Error>)
      modifies this`stage
      ensures var r := ExtractEntry(u, stageRoot, old(stage), e); error == ErrorOf(r) && (r.Ok? ==> stage == r.value)
    {
      hide CheckPath, MayMake, PlaceLeaf;
      var rel := PackEntryRel(e.name);
      if rel.Err? { return Some(rel.error); }
      match e.node
      case Dir(mode) =>
        error := EnsureNoSymlinkPath(u, stage, rel.value);
        if error.Some? { return; }
        var made := MkdirAll(u, stage, rel.value, Created(mode, u.umask));
        if made.Err? { return Some(made.error); }
        stage := made.value;
      case File(mode, data) =>
        error := PlaceStaged(rel.value, File(Created(mode, u.umask), data));
      case Link(target) =>
        if !OverlayAudit.TargetAllowed(stageRoot, stageRoot + rel.value, target) { return Some(UnsafeLink); }
        error := PlaceStaged(rel.value, Link(target));
      case Other =>
        return Some(UnsupportedType);
    }

    method ExtractEntries(entries: seq<Entry>) returns (error: Option<Error>)
      modifies this`stage
      ensures var r := ExtractFirst(u, stageRoot, old(stage), entries, |entries|);
        error == ErrorOf(r) && (r.Ok? ==> stage == r.value)
    {
      hide ExtractEntry;
      for i := 0 to |entries|
        invariant ExtractFirst(u, stageRoot, old(stage), entries, i) == Ok(stage)
      {
        error := ExtractPackEntry(entries[i]);
        if error.Some? {
          StaysFailed(u, stageRoot, old(stage), entries, i + 1, |entries|);
          return;
        }
      }
      error := None;
    }

    method RemoveManifestPaths(paths: seq<Loc>) returns (error: Option<Error>)
      modifies this`overlay
      ensures var r := RemoveFirst(u, old(overlay), paths, |paths|);
        error == ErrorOf(r) && (r.Ok? ==> overlay == r.value)
    {
      hide CheckPath, MayRemove;
      for i := 0 to |paths|
        invariant RemoveFirst(u, old(overlay), paths, i) == Ok(overlay)
      {
        var removed: Result<Tree, Error> := Err(BadEntryName);
        if paths[i] != [] {
          error := EnsureNoSymlinkPath(u, overlay, Parent(paths[i]));
          removed := if error.Some? then Err(error.value) else RemoveAll(u, overlay, paths[i]);
        }
        assert removed == RemoveOne(u, overlay, paths[i]);
        if removed.Err? {
          RemovalStaysFailed(u, old(overlay), paths, i + 1, |paths|);
          return Some(removed.error);
        }
        overlay := removed.value;
      }
      error := None;
    }

    method MoveStagedPath(p: Loc) returns (error: Option<Error>)
      requires p in stage && p != []
      modifies this
      ensures var r := MoveOne(u, old(stage), old(overlay), p);
        error == ErrorOf(r) && (r.Ok? ==> stage == r.value.from && overlay == r.value.into)
    {
      hide CheckPath, MayMake, MayRename;
      error := EnsureNoSymlinkPath(u, overlay, Parent(p));
      if error.Some? { return; }
      var made := MkdirAll(u, overlay, Parent(p), Created(DIR_MODE, u.umask));
      if made.Err? { return Some(made.error); }
      overlay := made.value;
      error := EnsureNoSymlinkPath(u, overlay, Parent(p));
      if error.Some? { return; }
      var moved := Rename(u, stage, overlay, p);
      if moved.Err? { return Some(moved.error); }
      stage, overlay := moved.value.from, moved.value.into;
    }

    /** The second half of `installStagedPack`: moves what is staged. */
    method MoveStaged(paths: seq<Loc>) returns (error: Option<Error>)
      modifies this
      ensures var r := InstallFirst(u, old(stage), old(overlay), paths, |paths|);
        error == ErrorOf(r) && (r.Ok? ==> stage == r.value.from && overlay == r.value.into)
    {
      hide MoveOne, SearchableAbove;
      for i := 0 to |paths|
        invariant InstallFirst(u, old(stage), old(overlay), paths, i) == Ok(Moved(stage, overlay))
      {
        ghost var step := InstallOne(u, stage, overlay, paths[i]);
        error := if paths[i] == [] then Some(BadEntryName) else None;
        if error.None? {
          var present := StagedAt(u, stage, paths[i]);
          if present.Err? {
            error := Some(present.error);
          } else if present.value {
            error := MoveStagedPath(paths[i]);
          }
        }
        assert error == ErrorOf(step);
        if error.Some? {
          InstallStaysFailed(u, old(stage), old(overlay), paths, i + 1, |paths|);
          return;
        }
      }
      error := None;
    }

    /** `extractPackArchive` with replacement; a refused entry leaves the overlay alone. */
    method ExtractPackArchive(entries: seq<Entry>, paths: seq<Loc>) returns (error: Option<Error>)
      requires stage == EmptyStage(u)
      modifies this
      ensures var r := Unpack(u, stageRoot, old(overlay), entries, paths);
        error == ErrorOf(r) && (r.Ok? ==> overlay == r.value)
      ensures ExtractFirst(u, stageRoot, EmptyStage(u), entries, |entries|).Err? ==> overlay == old(overlay)
    {
      error := ExtractEntries(entries);
      if error.Some? { return; }
      error := RemoveManifestPaths(paths);
      if error.Some? { return; }
      error := MoveStaged(paths);
    }
  }

  lemma StaysFailed(u: User, root: Loc, t: Tree, entries: seq<Entry>, j: nat, k: nat)
    requires j <= k <= |entries| && ExtractFirst(u, root, t, entries, j).Err?
    ensures ExtractFirst(u, root, t, entries, k) == ExtractFirst(u, root, t, entries, j)
  {
    if j == k {
    } else {
      StaysFailed(u, root, t, entries, j, k - 1);
    }
  }

  lemma RemovalStaysFailed(u: User, t: Tree, paths: seq<Loc>, j: nat, k: nat)
    requires j <= k <= |paths| && RemoveFirst(u, t, paths, j).Err?
    ensures RemoveFirst(u, t, paths, k) == RemoveFirst(u, t, paths, j)
  {
    if j == k {
    } else {
      RemovalStaysFailed(u, t, paths, j, k - 1);
    }
  }

  lemma InstallStaysFailed(u: User, stage: Tree, overlay: Tree, paths: seq<Loc>, j: nat, k: nat)
    requires j <= k <= |paths| && InstallFirst(u, stage, overlay, paths, j).Err?
    ensures InstallFirst(u, stage, overlay, paths, k) == InstallFirst(u, stage, overlay, paths, j)
  {
    if j == k {
    } else {
      InstallStaysFailed(u, stage, overlay, paths, j, k - 1);
    }
  }

  // ---------- the round trip ----------

  ghost predicate AboveSource(sources: seq<Loc>, q: Loc) { exists s :: s in sources && StrictlyBelow(s, q) }

  /** What an unpack of an archive of `sources` from `t` makes of one location of the overlay `d`. */
  ghost predicate RestoredAt(u: User, t: Tree, sources: seq<Loc>, d: Tree, paths: seq<Loc>, r: Tree, q: Loc) {
    if Covered(sources, q) then
      (q in r <==> q in t) && (q in r ==> r[q] == Restored(u, t[q]))
    else if CoveredBy(paths, |paths|, q) then
      (q in r <==> AboveSource(sources, q)) && (q in r ==> r[q].Dir?)
    else if q in d then
      q in r && r[q] == d[q]
    else
      (q in r <==> AboveSource(sources, q)) && (q in r ==> r[q] == DefaultDir(u))
  }

  /** An archive of the sources, in the order the pack writes it. */
  ghost predicate Archive(t: Tree, sources: seq<Loc>, items: seq<Item>) {
    && WellFormed(t) && (forall p :: p in t ==> PathStrings.Normal(p))
    && (forall s :: s in sources ==> s in t)
    && Collects(t, sources, items) && Sorted(ShallowFirst, items)
  }

  /** What an archive holds: the sources and the paths to install in its manifest, then the entries. */
  datatype Packed = Packed(sources: seq<Loc>, paths: seq<Loc>, entries: seq<Entry>)

  /** The content of a file is read when its entry is written. */
  predicate MayOpen(u: User, n: Node) { n.File? ==> Has(u, n.mode, READ) }

  /** The loop that writes the entries. */
  method WriteItems(u: User, items: seq<Item>) returns (r: Result<seq<Entry>, Error>)
    ensures r.Ok? <==> forall i :: 0 <= i < |items| ==> MayOpen(u, items[i].node)
    ensures r.Ok? ==> r.value == Entries(items)
  {
    var out: seq<Entry> := [];
    for i := 0 to |items|
      invariant |out| == i && forall k :: 0 <= k < i ==> MayOpen(u, items[k].node) && out[k] == EntryOf(items[k])
    {
      if !MayOpen(u, items[i].node) { return Err(Unreadable); }
      out := out + [EntryOf(items[i])];
    }
    return Ok(out);
  }

  /** `writePackArchive` from the sources asked for: it succeeds exactly when the topmost of them can be
      looked up and everything at and below them can be read and is of a supported kind. The archive
      then holds exactly that, directories first, and the paths it will replace cover the sources,
      ancestors first. */
  method WritePackArchive(u: User, t: Tree, asked: seq<Loc>, none: bool, req: Request)
    returns (r: Result<Packed, Error>, ghost items: seq<Item>)
    requires WellFormed(t) && forall p :: p in t ==> PathStrings.Normal(p)
    requires AllNormal(asked) && [] !in asked && NormalRequest(req)
    requires forall s :: s in asked ==> AskedFor(req, s) && NoLinkAbove(t, s)
    ensures r.Ok? <==>
      && (forall s :: Topmost(asked, s) ==> s in t && SearchableAbove(u, t, s))
      && (forall p :: p in t && Covered(asked, p) ==> MayCollect(u, t, p) && MayOpen(u, t[p]))
    ensures r.Ok? ==>
      && (forall s :: s in r.value.sources <==> Topmost(asked, s))
      && Archive(t, r.value.sources, items) && r.value.entries == Entries(items)
      && AncestorsFirst(r.value.paths) && (forall s :: s in r.value.sources ==> s in r.value.paths)
      && (forall p :: p in r.value.paths <==> Installs(none, req, r.value.sources, p))
  {
    hide Topmost, Covered, AskedFor, NoLinkAbove, Replaced, AncestorsFirst, Sorted, PathStrings.Normal, WellFormed;
    hide Distinct, SearchableAbove, MayCollect, MayOpen, HasItem;
    var sources := NormalizePackSources(asked);
    TopmostIsAsked(asked);
    TopmostCover(asked, sources);
    var collected := CollectPackItems(u, t, sources);
    if collected.Err? { return Err(collected.error), []; }
    items := collected.value;
    var written := WriteItems(u, collected.value);
    OpenItems(u, t, sources, items);
    if written.Err? { return Err(written.error), items; }
    var replace := PackReplacePaths(none, req, sources);
    forall p | p in replace ensures PathStrings.Normal(p) {
      if !none { ReplacedIsNormal(req, sources, p); }
    }
    InstallPathsCoverSources(none, req, sources, replace);
    r := Ok(Packed(sources, InstallPaths(replace, sources), written.value));
  }

  lemma OpenItems(u: User, t: Tree, sources: seq<Loc>, items: seq<Item>)
    requires Collects(t, sources, items)
    ensures (forall i :: 0 <= i < |items| ==> MayOpen(u, items[i].node))
       <==> (forall p :: p in t && Covered(sources, p) ==> MayOpen(u, t[p]))
  {
    hide MayOpen, Covered;
    forall i | 0 <= i < |items| ensures Covered(sources, items[i].path) {
      assert HasItem(items, items[i].path);
    }
  }

  /** Whether an archive can be installed, as far as permissions go: the stage can be searched, and for
      every path that has to be moved the way to it can be made in the overlay without what is
      replaced, and the node itself can be given another parent. */
  ghost predicate Installable(u: User, items: seq<Item>, d: Tree, paths: seq<Loc>) {
    && (paths != [] ==> MaySearch(u, DefaultDir(u)))
    && forall k :: 0 <= k < |paths| ==> InstallableAt(u, items, d, paths, k)
  }

  ghost predicate InstallableAt(u: User, items: seq<Item>, d: Tree, paths: seq<Loc>, k: nat)
    requires k < |paths|
  {
    AboveSome(items, |items|, paths[k]) && !CoveredBy(paths, k, paths[k]) ==>
      && MayReach(u, Outside(d, paths, |paths|), paths[k], Created(DIR_MODE, u.umask))
      && MayMoveNode(u, StageNode(u, items, |items|, paths[k]))
  }

  lemma StageIsReady(u: User, t: Tree, sources: seq<Loc>, items: seq<Item>, st: Tree, d: Tree, paths: seq<Loc>)
    requires Archive(t, sources, items) && Staged(u, items, |items|, st) && MaySearch(u, st[[]])
    requires WellFormed(d) && Reachable(u, d, paths, |paths|) && AncestorsFirst(paths)
    requires forall s :: s in sources ==> s in paths
    ensures Ready(u, st, Outside(d, paths, |paths|), paths)
  {
    hide WellFormed, Sorted, AncestorsFirst, Worked, MaySearch, MayEmpty, MayList, MayWrite, StageNode;
    var over := Outside(d, paths, |paths|);
    OutsideKeepsForm(d, paths, |paths|);
    forall q | q in st && q != [] && !CoveredBy(paths, |paths|, q) ensures HasEntries(st, q) {
      var i :| 0 <= i < |items| && Below(items[i].path, q);
      assert HasItem(items, items[i].path);
      if items[i].path == q { SourceIsCovered(sources, paths, q); }
      BelowCases(items[i].path, q);
      assert Below(items[i].path, items[i].path) && AboveSome(items, |items|, items[i].path);
    }
    forall i, q | 0 <= i < |paths| && q in over && StrictlyBelow(paths[i], q) ensures MaySearch(u, over[q]) {
      assert ClearAt(u, d, paths, i);
      if CoveredBy(paths, i, q) { CoveredMore(paths, i, |paths|, q); }
      SearchableAboveMeans(u, Outside(d, paths, i), paths[i]);
    }
    forall i | 0 <= i < |paths| ensures paths[i] != [] { assert ClearAt(u, d, paths, i); }
  }

  lemma SourceIsCovered(sources: seq<Loc>, paths: seq<Loc>, q: Loc)
    requires Covered(sources, q) && forall s :: s in sources ==> s in paths
    ensures CoveredBy(paths, |paths|, q)
  {
    var s :| s in sources && Below(q, s);
    var i :| 0 <= i < |paths| && paths[i] == s;
  }

  lemma CoveredOrAbove(sources: seq<Loc>, p: Loc, q: Loc)
    requires Covered(sources, p) && Below(p, q)
    ensures Covered(sources, q) || AboveSource(sources, q)
  {
    var s :| s in sources && Below(p, s);
    PrefixesCompare(p, s, q);
    BelowCases(s, q);
  }

  lemma StagedSources(u: User, t: Tree, sources: seq<Loc>, items: seq<Item>, st: Tree, q: Loc)
    requires Archive(t, sources, items) && ParentsFirst(items) && Staged(u, items, |items|, st) && Covered(sources, q)
    requires [] !in sources
    ensures (q in st <==> q in t) && (q in t ==> st[q] == Restored(u, t[q]))
  {
    hide Sorted, PathStrings.Normal, Restored, StageNode, Worked, ParentsFirst;
    assert q != [];
    if q in t {
      assert HasItem(items, q);
      var i :| 0 <= i < |items| && items[i].path == q;
      assert Below(items[i].path, q);
      ItemIsRestored(u, items, |items|, i);
    } else if q in st {
      var i :| 0 <= i < |items| && Below(items[i].path, q);
      NothingBelowMissing(t, q, items[i].path);
    }
  }

  lemma StagedElsewhere(u: User, t: Tree, sources: seq<Loc>, items: seq<Item>, st: Tree, q: Loc)
    requires Archive(t, sources, items) && Staged(u, items, |items|, st) && !Covered(sources, q)
    ensures q != [] ==> (q in st <==> AboveSource(sources, q))
    ensures q in st ==> st[q].Dir?
  {
    hide Sorted, PathStrings.Normal, WellFormed, StageNode, Worked;
    assert !HasItem(items, q);
    assert !IsOneOf(items, |items|, q);
    OthersAreDirs(u, items, |items|, q);
    if AboveSome(items, |items|, q) {
      var i :| 0 <= i < |items| && Below(items[i].path, q);
      assert HasItem(items, items[i].path);
      CoveredOrAbove(sources, items[i].path, q);
    }
    if AboveSource(sources, q) {
      var s :| s in sources && StrictlyBelow(s, q);
      assert Below(s, s) && Covered(sources, s);
      assert HasItem(items, s);
      var i :| 0 <= i < |items| && items[i].path == s;
      assert Below(items[i].path, q);
    }
  }

  /** Whether new directories are needed above what is installed. */
  lemma AboveInstalledMeans(u: User, t: Tree, sources: seq<Loc>, items: seq<Item>, st: Tree, paths: seq<Loc>, q: Loc)
    requires Archive(t, sources, items) && Staged(u, items, |items|, st)
    requires forall s :: s in sources ==> s in paths
    requires !Covered(sources, q) && forall i :: 0 <= i < |paths| ==> paths[i] != []
    ensures AboveInstalled(st, paths, |paths|, q) <==> AboveSource(sources, q)
  {
    hide Archive, Staged, Covered;
    if AboveInstalled(st, paths, |paths|, q) {
      var i :| 0 <= i < |paths| && paths[i] in st && StrictlyBelow(paths[i], q);
      BelowCases(paths[i], q);
      if Covered(sources, paths[i]) {
        CoveredOrAbove(sources, paths[i], q);
      } else {
        StagedElsewhere(u, t, sources, items, st, paths[i]);
        var s :| s in sources && StrictlyBelow(s, paths[i]);
        assert StrictlyBelow(s, q);
      }
    }
    if AboveSource(sources, q) {
      var s :| s in sources && StrictlyBelow(s, q);
      SourceIsStaged(u, t, sources, items, st, s);
      var i :| 0 <= i < |paths| && paths[i] == s;
      assert StrictlyBelow(paths[i], q);
    }
  }

  lemma SourceIsStaged(u: User, t: Tree, sources: seq<Loc>, items: seq<Item>, st: Tree, s: Loc)
    requires Archive(t, sources, items) && Staged(u, items, |items|, st) && s in sources
    ensures s in st
  {
    hide Worked, StageNode, WellFormed, Sorted;
    assert Below(s, s) && Covered(sources, s);
    assert HasItem(items, s);
    var i :| 0 <= i < |items| && items[i].path == s;
    assert Below(items[i].path, s);
  }

  lemma ArchiveIsFromTree(t: Tree, sources: seq<Loc>, items: seq<Item>)
    requires Archive(t, sources, items)
    ensures FromTree(t, items) && DistinctPaths(items)
  {}

  /** Packing some sources of one overlay and unpacking them over another: it succeeds exactly when
      every name and target is acceptable, every directory that is entered can be written, nothing
      stands in the way of what is replaced, and it can be put there. Then everything at and below the
      sources is there as it was packed, nothing else is left where paths are replaced, and the rest is
      as it was; new are only directories above the sources. */
  lemma PackThenUnpack(u: User, root: Loc, t: Tree, sources: seq<Loc>, items: seq<Item>, d: Tree, paths: seq<Loc>)
    requires Archive(t, sources, items) && WellFormed(d)
    requires AncestorsFirst(paths) && forall s :: s in sources ==> s in paths
    ensures var r := Unpack(u, root, d, Entries(items), paths);
      && (r.Ok? <==>
            && (forall i :: 0 <= i < |items| ==> Extractable(root, items[i]) && Entered(u, items, i))
            && Reachable(u, d, paths, |paths|) && Installable(u, items, d, paths))
      && (r.Ok? ==> WellFormed(r.value) && forall q :: RestoredAt(u, t, sources, d, paths, r.value, q))
  {
    hide Extractable, Entered, Reachable, AncestorsFirst, Staged, Installed, RestoredAt, WellFormed, Ready, Installable;
    hide CanMove, Sorted, Collects;
    ArchiveIsFromTree(t, sources, items);
    SortedParentsFirst(items);
    ExtractRestores(u, root, t, items, |items|);
    RemovesCovered(u, d, paths, |paths|);
    var r := Unpack(u, root, d, Entries(items), paths);
    var staged := ExtractFirst(u, root, EmptyStage(u), Entries(items), |items|);
    if staged.Ok? && Reachable(u, d, paths, |paths|) {
      var over := Outside(d, paths, |paths|);
      RootOfStage(u, items, staged.value);
      if MaySearch(u, staged.value[[]]) {
        StageIsReady(u, t, sources, items, staged.value, d, paths);
        InstallsStage(u, staged.value, over, paths, |paths|);
        InstallableMeans(u, items, staged.value, d, paths);
        if r.Ok? { InstalledIsRestored(u, t, sources, items, staged.value, d, paths, r.value); }
      } else {
        UnsearchableStage(u, t, sources, items, staged.value, d, paths);
      }
    }
  }

  /** What is at and below a source then, in the terms of the tree that was packed: every file with its
      bytes, every link with its target, and of the permission bits the lowest nine, less those the umask
      takes away. */
  lemma UnpackedContent(u: User, root: Loc, t: Tree, sources: seq<Loc>, items: seq<Item>, d: Tree, paths: seq<Loc>,
                        s: Loc, q: Loc)
    requires Archive(t, sources, items) && WellFormed(d)
    requires AncestorsFirst(paths) && forall s :: s in sources ==> s in paths
    requires Unpack(u, root, d, Entries(items), paths).Ok? && s in sources && s <= q
    ensures var r := Unpack(u, root, d, Entries(items), paths).value;
      && (q in r <==> q in t)
      && (q in t ==> t[q].File? || t[q].Dir? || t[q].Link?)
      && (q in t && t[q].File? ==> r[q] == File(t[q].mode & 0x1FF & !u.umask, t[q].data))
      && (q in t && t[q].Dir? ==> r[q] == Dir(t[q].mode & 0x1FF & !u.umask))
      && (q in t && t[q].Link? ==> r[q] == t[q])
  {
    hide Unpack, AncestorsFirst, WellFormed, Extractable, Entered, Reachable, Installable, Sorted, CoveredBy;
    hide AboveSource, PathStrings.Normal;
    PackThenUnpack(u, root, t, sources, items, d, paths);
    var r := Unpack(u, root, d, Entries(items), paths).value;
    assert RestoredAt(u, t, sources, d, paths, r, q);
    assert Below(q, s);
    if q in t { assert HasItem(items, q); }
  }

  /** What is elsewhere then: where something was replaced only directories above the sources are left;
      what was not replaced is as it was; and what is new is a directory above a source with the bits
      0755, less those the umask takes away. */
  lemma UnpackedElsewhere(u: User, root: Loc, t: Tree, sources: seq<Loc>, items: seq<Item>, d: Tree, paths: seq<Loc>,
                          q: Loc)
    requires Archive(t, sources, items) && WellFormed(d)
    requires AncestorsFirst(paths) && forall s :: s in sources ==> s in paths
    requires Unpack(u, root, d, Entries(items), paths).Ok? && forall s :: s in sources ==> !(s <= q)
    ensures var r, above := Unpack(u, root, d, Entries(items), paths).value, exists s :: s in sources && q < s;
      if exists p :: p in paths && p <= q then (q in r <==> above) && (q in r ==> r[q].Dir?)
      else if q in d then q in r && r[q] == d[q]
      else (q in r <==> above) && (q in r ==> r[q] == Dir(0x1ED & !u.umask))
  {
    hide Unpack, AncestorsFirst, WellFormed, Archive, Extractable, Entered, Reachable, Installable;
    PackThenUnpack(u, root, t, sources, items, d, paths);
    var r := Unpack(u, root, d, Entries(items), paths).value;
    assert RestoredAt(u, t, sources, d, paths, r, q);
    PathCovers(paths, q);
    assert forall s :: s in sources ==> (StrictlyBelow(s, q) <==> q < s);
    assert DIR_MODE & 0x1FF & !u.umask == 0x1ED & !u.umask;
  }

  lemma PathCovers(paths: seq<Loc>, q: Loc)
    ensures CoveredBy(paths, |paths|, q) <==> exists p :: p in paths && p <= q
  {
    if p :| p in paths && p <= q {
      var i :| 0 <= i < |paths| && paths[i] == p;
      assert Below(q, paths[i]);
    }
    if i :| 0 <= i < |paths| && Below(q, paths[i]) { assert paths[i] in paths; }
  }

  lemma RootOfStage(u: User, items: seq<Item>, st: Tree)
    requires Staged(u, items, |items|, st)
    ensures [] in st && st[[]] == DefaultDir(u)
  {
    RootIsDefault(u, items, |items|);
  }

  lemma InstallableMeans(u: User, items: seq<Item>, st: Tree, d: Tree, paths: seq<Loc>)
    requires Staged(u, items, |items|, st) && MaySearch(u, st[[]]) && st[[]] == DefaultDir(u)
    requires Ready(u, st, Outside(d, paths, |paths|), paths)
    ensures Installable(u, items, d, paths)
       <==> forall i :: 0 <= i < |paths| ==> CanMove(u, st, Outside(d, paths, |paths|), paths, i)
  {
    hide MaySearch, Worked, WellFormed, MayReach, MayMoveNode, CoveredBy, AboveSome, AncestorsFirst;
    forall i | 0 <= i < |paths|
      ensures InstallableAt(u, items, d, paths, i) <==> CanMove(u, st, Outside(d, paths, |paths|), paths, i)
    {
    }
  }

  /** If not even the root of the stage can be searched, then the archive is empty, and it installs
      exactly if there is no path to look for. */
  lemma UnsearchableStage(u: User, t: Tree, sources: seq<Loc>, items: seq<Item>, st: Tree, d: Tree, paths: seq<Loc>)
    requires Archive(t, sources, items) && Staged(u, items, |items|, st) && !MaySearch(u, st[[]])
    requires st[[]] == DefaultDir(u)
    requires WellFormed(d) && Reachable(u, d, paths, |paths|) && AncestorsFirst(paths)
    requires forall s :: s in sources ==> s in paths
    ensures var over := Outside(d, paths, |paths|);
      && (InstallFirst(u, st, over, paths, |paths|).Ok? <==> Installable(u, items, d, paths))
      && (InstallFirst(u, st, over, paths, |paths|).Ok? ==>
            WellFormed(d) && InstallFirst(u, st, over, paths, |paths|).value.into == d
            && forall q :: RestoredAt(u, t, sources, d, paths, d, q))
  {
    hide MaySearch, Worked, WellFormed, StageNode, MayRemove, AncestorsFirst, Collects, Sorted;
    var over := Outside(d, paths, |paths|);
    if paths == [] {
      assert over == d;
      assert forall q :: !Covered(sources, q) && !AboveSource(sources, q);
    } else {
      assert ClearAt(u, d, paths, 0);
      assert StrictlyBelow(paths[0], []);
      SearchableAboveMeans(u, st, paths[0]);
      assert InstallFirst(u, st, over, paths, 0) == Ok(Moved(st, over));
      assert InstallFirst(u, st, over, paths, 1).Err?;
      InstallStaysFailed(u, st, over, paths, 1, |paths|);
    }
  }

  lemma InstalledIsRestored(u: User, t: Tree, sources: seq<Loc>, items: seq<Item>, st: Tree, d: Tree, paths: seq<Loc>,
                            r: Tree)
    requires Archive(t, sources, items) && ParentsFirst(items) && Staged(u, items, |items|, st)
    requires Reachable(u, d, paths, |paths|) && forall s :: s in sources ==> s in paths
    requires Installed(u, st, Outside(d, paths, |paths|), paths, |paths|, r)
    ensures WellFormed(r) && forall q :: RestoredAt(u, t, sources, d, paths, r, q)
  {
    hide Archive, Staged, Covered, AboveSource, CoveredBy, AboveInstalled, WellFormed, MayRemove, ParentsFirst,
      Restored;
    var over := Outside(d, paths, |paths|);
    forall i | 0 <= i < |paths| ensures paths[i] != [] { assert ClearAt(u, d, paths, i); }
    forall q ensures RestoredAt(u, t, sources, d, paths, r, q) {
      assert InstalledAt(u, st, over, paths, |paths|, r, q);
      if Covered(sources, q) {
        SourceIsCovered(sources, paths, q);
        StagedSources(u, t, sources, items, st, q);
      } else {
        StagedElsewhere(u, t, sources, items, st, q);
        AboveInstalledMeans(u, t, sources, items, st, paths, q);
        RootIsNotCovered(paths);
      }
    }
  }

  lemma RootIsNotCovered(paths: seq<Loc>)
    requires forall i :: 0 <= i < |paths| ==> paths[i] != []
    ensures !CoveredBy(paths, |paths|, [])
  {}

  /** Unpacking an archive over the very overlay it was made from gives that overlay back, if what the
      replaced paths hold is what was packed and the permission bits survive. */
  lemma UnpackOverItself(u: User, root: Loc, t: Tree, sources: seq<Loc>, items: seq<Item>, paths: seq<Loc>)
    requires Archive(t, sources, items) && AncestorsFirst(paths) && forall s :: s in sources ==> s in paths
    requires forall q :: q in t && CoveredBy(paths, |paths|, q) ==> Covered(sources, q)
    requires forall q :: q in t && Covered(sources, q) ==> Restored(u, t[q]) == t[q]
    ensures var r := Unpack(u, root, t, Entries(items), paths); r.Ok? ==> r.value == t
  {
    PackThenUnpack(u, root, t, sources, items, t, paths);
    var r := Unpack(u, root, t, Entries(items), paths);
    if r.Ok? {
      hide Reachable, Extractable, CoveredBy, Covered, Unpack, Restored, Entered, Installable;
      forall q ensures SameAt(r.value, t, q) {
        assert RestoredAt(u, t, sources, t, paths, r.value, q);
        AboveSourceIsThere(t, sources, q);
      }
      SameTrees(r.value, t);
    }
  }

  lemma SameTrees(a: Tree, b: Tree)
    requires forall q :: SameAt(a, b, q)
    ensures a == b
  {
    forall q ensures (q in a <==> q in b) && (q in a ==> a[q] == b[q]) { assert SameAt(a, b, q); }
  }

  lemma AboveSourceIsThere(t: Tree, sources: seq<Loc>, q: Loc)
    requires WellFormed(t) && (forall s :: s in sources ==> s in t)
    ensures AboveSource(sources, q) ==> q in t
  {
    if s :| s in sources && StrictlyBelow(s, q) { AncestorsAreDirs(t, s, q); }
  }

  // ---------- permissions that are in nobody's way, and some that are ----------

  /** A directory that can be listed, searched and written. */
  ghost predicate Ordinary(u: User, n: Node) { n.Dir? ==> MayList(u, n) && MayWrite(u, n) }

  /** Every directory concerned is ordinary; for a privileged user all of them are. */
  ghost predicate AllOrdinary(u: User, items: seq<Item>, d: Tree) {
    && Ordinary(u, DefaultDir(u))
    && (forall i :: 0 <= i < |items| ==> Ordinary(u, Restored(u, items[i].node)))
    && (forall q :: q in d ==> Ordinary(u, d[q]))
  }

  lemma PrivilegedIsOrdinary(u: User, items: seq<Item>, d: Tree)
    requires u.privileged
    ensures AllOrdinary(u, items, d)
  {}

  /** Nothing but directories stands above the paths, apart from what is replaced before. */
  ghost predicate NothingAbove(d: Tree, paths: seq<Loc>, i: nat)
    requires i < |paths|
  {
    && paths[i] != []
    && forall q :: q in d && StrictlyBelow(paths[i], q) && !CoveredBy(paths, i, q) ==> d[q].Dir?
  }

  lemma {:induction false} StageNodeIsOrdinary(u: User, items: seq<Item>, d: Tree, k: nat, q: Loc)
    requires AllOrdinary(u, items, d) && k <= |items|
    ensures Ordinary(u, StageNode(u, items, k, q))
  {
    hide MayWrite, MayList, AboveSome;
    if k == 0 {
    } else {
      StageNodeIsOrdinary(u, items, d, k - 1, q);
      var item := items[k - 1];
      assert Ordinary(u, Restored(u, item.node));
    }
  }

  lemma OrdinaryIsEntered(u: User, t: Tree, items: seq<Item>, d: Tree, i: nat)
    requires AllOrdinary(u, items, d) && FromTree(t, items) && ParentsFirst(items) && i < |items|
    ensures Entered(u, items, i)
  {
    hide MayWrite, MayList, StageNode, WellFormed, Restored;
    forall q | StrictlyBelow(items[i].path, q) ensures MayWrite(u, StageNode(u, items, i + 1, q)) {
      StageNodeIsOrdinary(u, items, d, i + 1, q);
      if j :| 0 <= j < i + 1 && items[j].path == q {
        AncestorsAreDirs(t, items[i].path, q);
        if q == [] { RootIsDefault(u, items, i + 1); } else { ItemIsRestored(u, items, i + 1, j); }
        assert Restored(u, items[j].node).Dir? by { DirIsRestored(u, items[j].node); }
      } else {
        OthersAreDirs(u, items, i + 1, q);
      }
    }
  }

  lemma DirIsRestored(u: User, n: Node)
    ensures n.Dir? <==> Restored(u, n).Dir?
  {}

  lemma OrdinaryIsClear(u: User, items: seq<Item>, d: Tree, paths: seq<Loc>, i: nat)
    requires AllOrdinary(u, items, d) && WellFormed(d) && i < |paths|
    ensures ClearAt(u, d, paths, i) <==> NothingAbove(d, paths, i)
  {
    hide WellFormed, CoveredBy, MayWrite, MaySearch, MayList, Restored;
    var over, p := Outside(d, paths, i), paths[i];
    OutsideKeepsForm(d, paths, i);
    SearchableAboveMeans(u, over, p);
    WriteImpliesSearch(u);
    forall q | q in over ensures MayEmpty(u, over, q) {
      if c :| c in over && StrictlyBelow(c, q) { AncestorsAreDirs(over, c, q); }
    }
    if p in over && p != [] {
      BelowParent(p, Parent(p));
      AncestorsAreDirs(over, p, Parent(p));
    }
  }

  lemma OrdinaryIsInstallable(u: User, items: seq<Item>, d: Tree, paths: seq<Loc>)
    requires AllOrdinary(u, items, d) && WellFormed(d)
    requires forall i :: 0 <= i < |paths| ==> NothingAbove(d, paths, i)
    ensures Installable(u, items, d, paths)
  {
    hide WellFormed, CoveredBy, MaySearch, MayList, Restored, StageNode;
    WriteImpliesSearch(u);
    forall k | 0 <= k < |paths| ensures InstallableAt(u, items, d, paths, k) {
      StageNodeIsOrdinary(u, items, d, |items|, paths[k]);
      var over, mode := Outside(d, paths, |paths|), Created(DIR_MODE, u.umask);
      forall q | StrictlyBelow(paths[k], q) ensures MayWrite(u, NodeOr(over, q, mode)) {
        assert NothingAbove(d, paths, k);
        if q in over && CoveredBy(paths, k, q) { CoveredMore(paths, k, |paths|, q); }
      }
    }
  }

  /** Where permissions are in nobody's way, packing and unpacking succeeds exactly when every name and
      target is acceptable and no link or file stands above what is replaced. */
  lemma OrdinaryPackThenUnpack(u: User, root: Loc, t: Tree, sources: seq<Loc>, items: seq<Item>, d: Tree,
                               paths: seq<Loc>)
    requires Archive(t, sources, items) && WellFormed(d) && AllOrdinary(u, items, d)
    requires AncestorsFirst(paths) && forall s :: s in sources ==> s in paths
    ensures Unpack(u, root, d, Entries(items), paths).Ok? <==>
      && (forall i :: 0 <= i < |items| ==> Extractable(root, items[i]))
      && (forall i :: 0 <= i < |paths| ==> NothingAbove(d, paths, i))
  {
    hide Extractable, Entered, AncestorsFirst, WellFormed, AllOrdinary, Unpack, ClearAt, NothingAbove;
    hide Installable, Sorted, Collects;
    PackThenUnpack(u, root, t, sources, items, d, paths);
    ArchiveIsFromTree(t, sources, items);
    SortedParentsFirst(items);
    forall i | 0 <= i < |items| ensures Entered(u, items, i) { OrdinaryIsEntered(u, t, items, d, i); }
    forall i | 0 <= i < |paths| ensures ClearAt(u, d, paths, i) <==> NothingAbove(d, paths, i) {
      OrdinaryIsClear(u, items, d, paths, i);
    }
    if forall i :: 0 <= i < |paths| ==> NothingAbove(d, paths, i) { OrdinaryIsInstallable(u, items, d, paths); }
  }

  /** For a privileged user that is always so. */
  lemma PrivilegedPackThenUnpack(u: User, root: Loc, t: Tree, sources: seq<Loc>, items: seq<Item>, d: Tree,
                                 paths: seq<Loc>)
    requires Archive(t, sources, items) && WellFormed(d) && u.privileged
    requires AncestorsFirst(paths) && forall s :: s in sources ==> s in paths
    ensures Unpack(u, root, d, Entries(items), paths).Ok? <==>
      && (forall i :: 0 <= i < |items| ==> Extractable(root, items[i]))
      && (forall i :: 0 <= i < |paths| ==> NothingAbove(d, paths, i))
  {
    PrivilegedIsOrdinary(u, items, d);
    OrdinaryPackThenUnpack(u, root, t, sources, items, d, paths);
  }

  /** A packed directory that its owner cannot write is not moved out of the stage, even if nothing is
      in it: an archive with such a source that is a path to install does not install. */
  lemma UnwritableSourceIsNotMoved(u: User, root: Loc, t: Tree, sources: seq<Loc>, items: seq<Item>, d: Tree,
                                   paths: seq<Loc>, k: nat, i: nat)
    requires Archive(t, sources, items) && WellFormed(d) && AncestorsFirst(paths) && k < |paths| && i < |items|
    requires forall s :: s in sources ==> s in paths
    requires items[i].path == paths[k] && !CoveredBy(paths, k, paths[k]) && paths[k] != []
    requires !MayMoveNode(u, Restored(u, items[i].node))
    ensures Unpack(u, root, d, Entries(items), paths).Err?
  {
    hide Extractable, Entered, AncestorsFirst, WellFormed, Unpack, MayMoveNode, Restored, StageNode, Reachable;
    hide CoveredBy, MayReach, Sorted, Collects;
    PackThenUnpack(u, root, t, sources, items, d, paths);
    ArchiveIsFromTree(t, sources, items);
    SortedParentsFirst(items);
    ItemIsRestored(u, items, |items|, i);
    assert Below(items[i].path, paths[k]);
    assert !InstallableAt(u, items, d, paths, k);
  }

  /** For an ordinary user that is every directory packed with the bits 0555. */
  lemma ReadOnlyIsNotMoved(u: User)
    requires !u.privileged
    ensures !MayMoveNode(u, Restored(u, Dir(0x16D)))
  {}

  /** An example: an empty directory with these bits, packed and unpacked over an empty overlay. It is
      extracted, and then the install fails. */
  lemma EmptyReadOnlyDirectoryDoesNotInstall(u: User, root: Loc, name: string)
    requires !u.privileged && PathStrings.Normal([name]) && Portable([name]) && MayWrite(u, DefaultDir(u))
    ensures var t: Tree := map[[] := Dir(0x1ED), [name] := Dir(0x16D)];
      var items := [Item([name], t[[name]])];
      && Archive(t, [[name]], items)
      && ExtractFirst(u, root, EmptyStage(u), Entries(items), 1).Ok?
      && Unpack(u, root, map[], Entries(items), [[name]]).Err?
  {
    hide MayWrite, MayMoveNode, Restored, Unpack, ExtractFirst, Archive, FromTree, PathStrings.Normal, Portable;
    var t: Tree := map[[] := Dir(0x1ED), [name] := Dir(0x16D)];
    var items := [Item([name], t[[name]])];
    OneDirectoryArchive(name);
    ArchiveIsFromTree(t, [[name]], items);
    ReadOnlyIsNotMoved(u);
    ExtractRestores(u, root, t, items, 1);
    OneItemIsEntered(u, items);
    assert !CoveredBy([[name]], 0, [name]);
    UnwritableSourceIsNotMoved(u, root, t, [[name]], items, map[], [[name]], 0, 0);
  }

  lemma OneDirectoryArchive(name: string)
    requires PathStrings.Normal([name])
    ensures var t: Tree := map[[] := Dir(0x1ED), [name] := Dir(0x16D)];
      Archive(t, [[name]], [Item([name], t[[name]])])
  {
    var t: Tree := map[[] := Dir(0x1ED), [name] := Dir(0x16D)];
    var items := [Item([name], t[[name]])];
    assert Parent([name]) == [] && [name][0] == name;
    assert PathStrings.Normal([]);
    forall p ensures HasItem(items, p) <==> p in t && Covered([[name]], p) {
      assert items[0].path == [name];
      assert [name] in [[name]] && Below([name], [name]) && !Below([], [name]);
    }
  }

  lemma OneItemIsEntered(u: User, items: seq<Item>)
    requires |items| == 1 && |items[0].path| == 1 && MayWrite(u, DefaultDir(u))
    ensures Entered(u, items, 0)
  {
    forall q | StrictlyBelow(items[0].path, q) ensures q == [] {}
    RootIsDefault(u, items, 1);
  }
}
