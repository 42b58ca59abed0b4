/** What the prefix tests on remote paths mean (`webdavfs.go`, `fuse_cache.go`, `fuse_mount.go`): a path is
    affected by a rename, an unlink or an invalidation exactly if it lies in the subtree concerned. */
module RemotePaths {
  import opened Basics
  import opened Versions
  import opened FileTree
  import opened Handles
  import opened ReadCache
  import opened PackArchive
  import opened Upload
  import opened Protocol
  import PathStrings

  /** Below by whole components: the root has everything below it, and `/a/bc` is not below `/a/b`. */
  lemma UnderMeansBelow(p: Loc, q: Loc)
    requires PathStrings.Normal(p) && PathStrings.Normal(q)
    ensures Under(ArchivePath(p), ArchivePath(q)) <==> Below(p, q)
    ensures q != [] ==> (Under(ArchivePath(p), ArchivePath(q) + "/") <==> StrictlyBelow(p, q))
  {
    hide PathStrings.Cat;
    var path, root := ArchivePath(p), ArchivePath(q);
    NestedMeansBelow(p, q);
    TrimmedRoot(q);
    BelowCases(p, q);
    PathStrings.CleanRooted(p);
    PathStrings.CleanRooted(q);
    if q != [] {
      assert root[|root| - 1..] != "/";
      assert (root + "/")[|root|..] == "/";
    }
  }

  /** Renaming takes everything at and below the source to the same place at and below the target and
      leaves every other path alone; this needs that neither of the two is the root, or that both are. */
  lemma RenamedMeans(p: Loc, source: Loc, target: Loc)
    requires PathStrings.Normal(p) && PathStrings.Normal(source) && PathStrings.Normal(target)
    ensures var r := RenamedPath(ArchivePath(p), ArchivePath(source), ArchivePath(target));
      if Below(p, source) then
        r == ArchivePath(target + p[|source|..]) <==> p == source || (source == [] <==> target == [])
      else r == ArchivePath(p)
  {
    UnderMeansBelow(p, source);
    if StrictlyBelow(p, source) {
      RenamedBelow(p, source, target);
    } else if p == source {
      assert target + p[|source|..] == target;
    }
  }

  lemma RenamedBelow(p: Loc, source: Loc, target: Loc)
    requires PathStrings.Normal(p) && PathStrings.Normal(source) && PathStrings.Normal(target)
    requires StrictlyBelow(p, source)
    ensures RenamedPath(ArchivePath(p), ArchivePath(source), ArchivePath(target)) == ArchivePath(target + p[|source|..])
       <==> (source == [] <==> target == [])
  {
    hide PathStrings.Cat, PathStrings.Normal, RenamedPath;
    var tail := p[|source|..];
    assert source + tail == p;
    var path, root, goal, end := ArchivePath(p), ArchivePath(source), ArchivePath(target), PathStrings.Cat(tail);
    ExtendedPath(source, p);
    PathStrings.CleanRooted(source);
    PathStrings.CatConcat(target, tail);
    PathStrings.CatStarts(tail);
    assert ArchivePath(target + tail) == PathStrings.Cat(target) + end;
    if source == [] {
      assert path == end by { assert tail == p; }
      RenamedFromRoot(end, goal);
      if target == [] { assert "/" + end[1..] == end; }
    } else {
      RenamedString(end, root, goal);
    }
    if target == [] { NoComponents(); }
  }

  lemma NoComponents()
    ensures PathStrings.Cat([]) == ""
  {}

  lemma RenamedFromRoot(end: string, goal: string)
    requires end != "/" && end != "" && end[0] == '/'
    ensures RenamedPath(end, "/", goal) == goal + end[1..]
  {}

  lemma RenamedString(end: string, root: string, goal: string)
    requires end != "" && end[0] == '/' && root != "" && root[|root| - 1] != '/'
    ensures RenamedPath(root + end, root, goal) == goal + end
  {
    assert (root + end)[..|root|] == root && (root + end)[|root|..] == end;
    assert (root + end)[..|root| + 1] == root + "/";
  }

  /** The components of a remote root; a blank one is the root of everything. */
  function RootParts(root: string): Loc {
    PathStrings.Reduce(PathStrings.Split(if PathStrings.TrimSpace(root) == "" then "/" else "/" + root))
  }

  /** The remote path of an archive path: the same components below those of the remote root, or below the
      root of everything if the remote root has control characters. */
  lemma ToRemoteMeans(root: string, p: Loc)
    requires PathStrings.CanonicalArchivePath(ArchivePath(p)) == Some(ArchivePath(p))
    requires PathStrings.Normal(p) && p != []
    ensures PathStrings.ToRemotePath(root, ArchivePath(p)) ==
      ArchivePath((if PathStrings.TrimSpace(root) == "" || PathStrings.ControlFree(root) then RootParts(root) else [])
                  + p)
  {
    hide PathStrings.NormalizeRemotePath, PathStrings.CanonicalArchivePath, PathStrings.TrimSpace, PathStrings.Split;
    hide PathStrings.Reduce, PathStrings.Cat;
    var base := PathStrings.DefaultRemotePath(root);
    PathStrings.CleanRooted([]);
    PathStrings.CleanRooted(p);
    if PathStrings.TrimSpace(root) == "" || PathStrings.ControlFree(root) {
      PathStrings.DefaultIsNormalizable(root);
      PathStrings.NormalizedForm(base);
      PathStrings.SlashedTwice(base);
      PathStrings.JoinedPath(PathStrings.RemoteRoot(root), RootParts(root), p);
    } else {
      PathStrings.ControlIsRefused(root);
      PathStrings.JoinedPath("/", [], p);
    }
  }

  /** The way back from a remote path: exactly the paths at and below the remote root have a place in the
      archive, and it is the same place below its root. */
  lemma RemoteToLocalMeans(root: string, p: Loc)
    requires PathStrings.Normal(p) && PathStrings.ControlFree(ArchivePath(p))
    requires PathStrings.TrimSpace(root) == "" || PathStrings.ControlFree(root)
    ensures var rs := RootParts(root);
      PathStrings.RemoteToLocalPath(root, ArchivePath(p)) == if rs <= p then Some(ArchivePath(p[|rs|..])) else None
  {
    hide PathStrings.NormalizeRemotePath, PathStrings.TrimSpace, PathStrings.Split, PathStrings.Reduce, PathStrings.Cat;
    hide PathStrings.RemoteToLocalPath, PathStrings.Normal;
    var base, rs := PathStrings.DefaultRemotePath(root), RootParts(root);
    PathStrings.DefaultIsNormalizable(root);
    PathStrings.SlashedTwice(base);
    PathStrings.NormalizedForm(base);
    PathStrings.NormalizeRooted(p);
    PathStrings.CleanRooted(rs);
    StripsRoot(root, PathStrings.RemoteRoot(root), ArchivePath(rs), ArchivePath(p));
    if rs == [] {
      assert p[|rs|..] == p;
    } else {
      BelowRemoteRoot(p, rs);
    }
  }

  /** The string operations of the way back. */
  lemma StripsRoot(root: string, r: string, clean: string, remote: string)
    requires PathStrings.NormalizeRemotePath(PathStrings.DefaultRemotePath(root)) == Some(r)
    requires PathStrings.NormalizeRemotePath(remote) == Some(remote)
    requires r == clean || (clean != "/" && r == clean + "/")
    requires clean != "" && (clean[|clean| - 1] == '/' ==> clean == "/")
    ensures PathStrings.RemoteToLocalPath(root, remote) ==
      if clean == "/" then Some(remote)
      else if remote == clean then Some("/")
      else if HasPrefix(remote, clean + "/") then Some("/" + remote[|clean| + 1..])
      else None
  {
    hide PathStrings.NormalizeRemotePath, PathStrings.DefaultRemotePath;
    assert clean != "/" ==> PathStrings.TrimSlashSuffix(r) == clean;
  }

  lemma BelowRemoteRoot(p: Loc, rs: Loc)
    requires PathStrings.Normal(p) && PathStrings.Normal(rs) && rs != []
    ensures var remote, clean := ArchivePath(p), ArchivePath(rs);
      && (remote == clean <==> p == rs)
      && (remote != clean ==> (HasPrefix(remote, clean + "/") <==> rs < p))
      && (rs < p ==> "/" + remote[|clean| + 1..] == ArchivePath(p[|rs|..]))
      && (p == rs ==> ArchivePath(p[|rs|..]) == "/")
  {
    hide PathStrings.Cat, PathStrings.Normal;
    TrimmedRoot(rs);
    NestedMeansBelow(p, rs);
    PathStrings.CleanRooted(p);
    PathStrings.CleanRooted(rs);
    if StrictlyBelow(p, rs) {
      ExtendedPath(rs, p);
      PathStrings.CatStarts(p[|rs|..]);
    }
  }

  /** What a rename makes of the remote files: what was in the source is at the same place in the target,
      with its content, and apart from the target everything else is exactly as it was. */
  lemma RenamedFiles(files: Files, source: Loc, target: Loc, moved: Files, p: Loc)
    requires RenamesTo(files, ArchivePath(source), ArchivePath(target), moved)
    requires PathStrings.Normal(p) && PathStrings.Normal(source) && PathStrings.Normal(target)
    requires source != [] && target != []
    ensures ArchivePath(p) in files && source <= p ==>
      var to := ArchivePath(target + p[|source|..]);
      to in moved && moved[to].content == files[ArchivePath(p)].content
    ensures !(target <= p) ==> (ArchivePath(p) in moved <==> ArchivePath(p) in files && !(source <= p))
    ensures !(target <= p) && ArchivePath(p) in moved ==> moved[ArchivePath(p)] == files[ArchivePath(p)]
  {
    hide PathStrings.Cat, PathStrings.Normal, ArchivePath, RenamedPath, Under;
    UnderMeansBelow(p, source);
    UnderMeansBelow(p, target);
    RenamedMeans(p, source, target);
  }

  /** A rename moves exactly the handles of the subtree, and takes over a version that is known. */
  lemma RetargetMeans(h: Handle, p: Loc, source: Loc, target: Loc, version: Version)
    requires PathStrings.Normal(p) && PathStrings.Normal(source) && PathStrings.Normal(target)
    requires source != [] && target != [] && h.path == ArchivePath(p)
    ensures RetargetHandle(h, ArchivePath(source), ArchivePath(target), version) ==
      if Below(p, source) then
        h.(path := ArchivePath(target + p[|source|..]),
           version := if version.revision > 0 || version.resourceId != "" then version else h.version)
      else h
  {
    hide PathStrings.Cat, PathStrings.Normal, ArchivePath;
    UnderMeansBelow(p, source);
    RenamedMeans(p, source, target);
    SameMove(h, ArchivePath(source), ArchivePath(target), version);
  }

  lemma SameMove(h: Handle, source: Path, target: Path, version: Version)
    ensures RetargetHandle(h, source, target, version) ==
      if Under(h.path, source) then
        h.(path := RenamedPath(h.path, source, target),
           version := if version.revision > 0 || version.resourceId != "" then version else h.version)
      else h
  {
    hide HasPrefix, TreePrefix, TrimPrefix;
    if h.path == source {
    } else if HasPrefix(h.path, TreePrefix(source)) {
    }
  }

  /** An unlink marks exactly the handles of the subtree. */
  lemma MarkDeletedMeans(h: Handle, p: Loc, q: Loc)
    requires PathStrings.Normal(p) && PathStrings.Normal(q) && h.path == ArchivePath(p)
    ensures MarkDeletedHandle(h, ArchivePath(q)) == h.(deleted := h.deleted || Below(p, q))
  {
    UnderMeansBelow(p, q);
  }

  /** After the invalidation of a prefix the cache knows nothing of the subtree and as much as before of
      every other path. */
  lemma PrefixIsForgotten(hist: seq<Op>, maxFile: int, p: Loc, q: Loc)
    requires PathStrings.Normal(p) && PathStrings.Normal(q)
    ensures Latest(hist + [InvalidatePrefix(ArchivePath(q))], maxFile, ArchivePath(p)) ==
      if Below(p, q) then None else Latest(hist, maxFile, ArchivePath(p))
  {
    UnderMeansBelow(p, q);
    LatestAppend(hist, InvalidatePrefix(ArchivePath(q)));
  }
}
