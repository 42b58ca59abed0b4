/** Installing a stage into the overlay in place of the replaced paths (`pack.go`). */
module PackInstall {
  import opened Basics
  import opened FileTree
  import opened PackTree
  import opened PackArchive
  import opened PackExtract

  // ---------- removing ----------

  /** `removeManifestPaths` for one path. */
  function RemoveOne(u: User, t: Tree, p: Loc): Result<Tree, Error> {
    if p == [] then Err(BadEntryName) else
      var check := CheckPath(u, t, Parent(p));
      if check.Some? then Err(check.value) else RemoveAll(u, t, p)
  }

  function RemoveFirst(u: User, t: Tree, paths: seq<Loc>, k: nat): Result<Tree, Error>
    requires k <= |paths|
  {
    if k == 0 then Ok(t) else
      var before := RemoveFirst(u, t, paths, k - 1);
      if before.Err? then before else RemoveOne(u, before.value, paths[k - 1])
  }

  predicate CoveredBy(paths: seq<Loc>, k: nat, p: Loc)
    requires k <= |paths|
  {
    exists i :: 0 <= i < k && Below(p, paths[i])
  }

  function Outside(t: Tree, paths: seq<Loc>, k: nat): (r: Tree)
    requires k <= |paths|
    ensures forall q :: q in r <==> q in t && !CoveredBy(paths, k, q)
    ensures forall q :: q in r ==> r[q] == t[q]
  {
    map q | q in t && !CoveredBy(paths, k, q) :: t[q]
  }

  lemma CoveredStep(paths: seq<Loc>, k: nat, p: Loc)
    requires k < |paths|
    ensures CoveredBy(paths, k + 1, p) <==> CoveredBy(paths, k, p) || Below(p, paths[k])
  {}

  lemma CoveredDown(paths: seq<Loc>, k: nat, p: Loc, q: Loc)
    requires k <= |paths| && CoveredBy(paths, k, q) && Below(p, q)
    ensures CoveredBy(paths, k, p)
  {
    var i :| 0 <= i < k && Below(q, paths[i]);
    assert paths[i] <= q <= p;
    assert Below(p, paths[i]);
  }

  lemma CoveredMore(paths: seq<Loc>, j: nat, k: nat, p: Loc)
    requires j <= k <= |paths| && CoveredBy(paths, j, p)
    ensures CoveredBy(paths, k, p)
  {}

  /** When their turn comes, what is left at the paths can be removed: nothing above them is a link
      or a file or cannot be searched, and what goes can be listed and written. */
  ghost predicate Reachable(u: User, t: Tree, paths: seq<Loc>, k: nat)
    requires k <= |paths|
  {
    forall i :: 0 <= i < k ==> ClearAt(u, t, paths, i)
  }

  ghost predicate ClearAt(u: User, t: Tree, paths: seq<Loc>, i: nat)
    requires i < |paths|
  {
    paths[i] != [] && MayRemove(u, Outside(t, paths, i), paths[i])
  }

  lemma OutsideKeepsForm(t: Tree, paths: seq<Loc>, k: nat)
    requires WellFormed(t) && k <= |paths|
    ensures WellFormed(Outside(t, paths, k))
  {
    var r := Outside(t, paths, k);
    forall q | q in r && q != [] ensures Parent(q) in r && r[Parent(q)].Dir? {
      if CoveredBy(paths, k, Parent(q)) { CoveredDown(paths, k, q, Parent(q)); }
    }
  }

  lemma RemoveOneMeans(u: User, t: Tree, p: Loc)
    requires WellFormed(t)
    ensures var r := RemoveOne(u, t, p);
      (r.Ok? <==> p != [] && MayRemove(u, t, p)) && (r.Ok? ==> r.value == Without(t, p))
  {
    if p != [] {
      CheckMeansPassable(u, t, Parent(p));
      SearchableAboveMeans(u, t, p);
      forall q ensures StrictlyBelow(p, q) <==> StrictlyBelow(Parent(p), q) || q == Parent(p) {
        BelowParent(p, q);
        BelowCases(Parent(p), q);
      }
    }
  }

  lemma RemoveStep(u: User, t: Tree, paths: seq<Loc>, k: nat)
    requires WellFormed(t) && k < |paths|
    ensures var r := RemoveOne(u, Outside(t, paths, k), paths[k]);
      (r.Ok? <==> ClearAt(u, t, paths, k)) && (r.Ok? ==> r.value == Outside(t, paths, k + 1))
  {
    hide RemoveOne, WellFormed, CoveredBy, MayRemove;
    var before := Outside(t, paths, k);
    OutsideKeepsForm(t, paths, k);
    RemoveOneMeans(u, before, paths[k]);
    forall q ensures CoveredBy(paths, k + 1, q) <==> CoveredBy(paths, k, q) || Below(q, paths[k]) {
      CoveredStep(paths, k, q);
    }
    assert Without(before, paths[k]) == Outside(t, paths, k + 1);
  }

  /** Removing succeeds exactly when no link, no file and no permission is in the way, and then removes
      exactly what the paths cover. */
  lemma {:induction false} RemovesCovered(u: User, t: Tree, paths: seq<Loc>, k: nat)
    requires WellFormed(t) && k <= |paths|
    ensures var r := RemoveFirst(u, t, paths, k);
      (r.Ok? <==> Reachable(u, t, paths, k)) && (r.Ok? ==> r.value == Outside(t, paths, k))
  {
    hide RemoveOne, ClearAt, WellFormed;
    if k == 0 {
      assert Outside(t, paths, 0) == t;
    } else {
      RemovesCovered(u, t, paths, k - 1);
      RemoveStep(u, t, paths, k - 1);
      assert Reachable(u, t, paths, k) <==> Reachable(u, t, paths, k - 1) && ClearAt(u, t, paths, k - 1);
    }
  }

  // ---------- moving ----------

  /** `moveStagedPath`. */
  function MoveOne(u: User, stage: Tree, overlay: Tree, p: Loc): Result<Moved, Error>
    requires p in stage && p != []
  {
    var check := CheckPath(u, overlay, Parent(p));
    if check.Some? then Err(check.value) else
      var made := MkdirAll(u, overlay, Parent(p), Created(DIR_MODE, u.umask));
      if made.Err? then Err(made.error) else
        var again := CheckPath(u, made.value, Parent(p));
        if again.Some? then Err(again.value) else Rename(u, stage, made.value, p)
  }

  /** `lstat` of a path in the stage, where nothing above it is a link. */
  function StagedAt(u: User, stage: Tree, p: Loc): Result<bool, Error> {
    if SearchableAbove(u, stage, p) then Ok(p in stage) else Err(PermissionDenied)
  }

  /** One round of the loop of `installStagedPack`. */
  function InstallOne(u: User, stage: Tree, overlay: Tree, p: Loc): Result<Moved, Error> {
    if p == [] then Err(BadEntryName) else
      var present := StagedAt(u, stage, p);
      if present.Err? then Err(present.error)
      else if !present.value then Ok(Moved(stage, overlay))
      else MoveOne(u, stage, overlay, p)
  }

  /** Nothing is removed or installed through a link either. */
  lemma LinksAreRefused(u: User, stage: Tree, overlay: Tree, p: Loc, j: nat)
    requires LinkAt(u, overlay, p, j) && j < |p|
    ensures RemoveOne(u, overlay, p) == Err(UnsafePath)
    ensures SearchableAbove(u, stage, p) && p in stage ==> InstallOne(u, stage, overlay, p) == Err(UnsafePath)
  {
    var up := Parent(p);
    forall i | 0 <= i <= j ensures up[..i] == p[..i] {}
    LinkIsReported(u, overlay, up, j);
  }

  function InstallFirst(u: User, stage: Tree, overlay: Tree, paths: seq<Loc>, k: nat): Result<Moved, Error>
    requires k <= |paths|
  {
    if k == 0 then Ok(Moved(stage, overlay)) else
      var before := InstallFirst(u, stage, overlay, paths, k - 1);
      if before.Err? then before else InstallOne(u, before.value.from, before.value.into, paths[k - 1])
  }

  /** `p` lies above one of the first `k` paths that is in the stage. */
  predicate AboveInstalled(stage: Tree, paths: seq<Loc>, k: nat, p: Loc)
    requires k <= |paths|
  {
    exists i :: 0 <= i < k && paths[i] in stage && StrictlyBelow(paths[i], p)
  }

  lemma AboveStep(stage: Tree, paths: seq<Loc>, k: nat, p: Loc)
    requires k < |paths|
    ensures AboveInstalled(stage, paths, k + 1, p) <==>
      AboveInstalled(stage, paths, k, p) || (paths[k] in stage && StrictlyBelow(paths[k], p))
  {}

  /** The overlay after the first `k` of the paths: what the stage has at and below them, what the
      overlay had elsewhere, and new directories above what was installed. */
  ghost predicate Installed(u: User, stage: Tree, overlay: Tree, paths: seq<Loc>, k: nat, r: Tree)
    requires k <= |paths|
  {
    WellFormed(r) && forall q :: InstalledAt(u, stage, overlay, paths, k, r, q)
  }

  ghost predicate SameAt(t: Tree, t': Tree, q: Loc) { (q in t <==> q in t') && (q in t ==> t[q] == t'[q]) }

  ghost predicate InstalledAt(u: User, stage: Tree, overlay: Tree, paths: seq<Loc>, k: nat, r: Tree, q: Loc)
    requires k <= |paths|
  {
    if CoveredBy(paths, k, q) then SameAt(r, stage, q)
    else if q in overlay then q in r && r[q] == overlay[q]
    else if AboveInstalled(stage, paths, k, q) then q in r && r[q] == DefaultDir(u)
    else q !in r
  }

  /** What is new since the overlay was emptied lies in directories that could be written. */
  ghost predicate Opened(u: User, overlay: Tree, r: Tree) {
    forall c :: c in r && c !in overlay && c != [] ==> Parent(c) in r && MayWrite(u, r[Parent(c)])
  }

  /** What the install relies on: paths with ancestors first, an overlay that was emptied below them
      and can be searched above them, and a stage in which everything worked and that has only
      directories outside them. */
  ghost predicate Ready(u: User, stage: Tree, overlay: Tree, paths: seq<Loc>) {
    && WellFormed(stage) && Worked(u, stage) && [] in stage && MaySearch(u, stage[[]])
    && WellFormed(overlay) && AncestorsFirst(paths)
    && (forall i :: 0 <= i < |paths| ==> paths[i] != [])
    && (forall q :: q in overlay ==> !CoveredBy(paths, |paths|, q))
    && (forall i, q :: 0 <= i < |paths| && q in overlay && StrictlyBelow(paths[i], q) ==> MaySearch(u, overlay[q]))
    && (forall q :: q in stage && q != [] && !CoveredBy(paths, |paths|, q) ==> HasEntries(stage, q))
  }

  /** A path that has to be moved when its turn comes: it is staged, and did not go with an ancestor. */
  ghost predicate Moves(stage: Tree, paths: seq<Loc>, k: nat)
    requires k < |paths|
  {
    paths[k] in stage && !CoveredBy(paths, k, paths[k])
  }

  /** It can be moved: the way to it can be made in the emptied overlay, and if it is a directory then
      its own entry for its parent can be rewritten. */
  ghost predicate Movable(u: User, stage: Tree, overlay: Tree, p: Loc)
    requires p in stage
  {
    MayReach(u, overlay, p, Created(DIR_MODE, u.umask)) && MayMoveNode(u, stage[p])
  }

  ghost predicate CanMove(u: User, stage: Tree, overlay: Tree, paths: seq<Loc>, k: nat)
    requires k < |paths|
  {
    Moves(stage, paths, k) ==> Movable(u, stage, overlay, paths[k])
  }

  /** Nothing is in the way of a path that is still staged, and on the way to it the overlay has what
      it had, or default directories. */
  lemma WayIsClear(u: User, stage: Tree, overlay: Tree, paths: seq<Loc>, k: nat, into: Tree)
    requires Ready(u, stage, overlay, paths) && k < |paths| && Installed(u, stage, overlay, paths, k, into)
    requires !CoveredBy(paths, k, paths[k])
    ensures paths[k] !in into && paths[k] !in overlay
    ensures forall q :: q in overlay && !Below(q, paths[k]) && StrictlyBelow(paths[k], q) ==> q in into
    ensures forall q :: StrictlyBelow(paths[k], q) ==>
      NodeOr(into, q, Created(DIR_MODE, u.umask)) == NodeOr(overlay, q, Created(DIR_MODE, u.umask))
  {
    hide WellFormed, Worked, MaySearch;
    var p := paths[k];
    CoveredStep(paths, k, p);
    CoveredMore(paths, k + 1, |paths|, p);
    assert InstalledAt(u, stage, overlay, paths, k, into, p);
    assert forall i :: 0 <= i < k ==> !Below(paths[i], p);
    forall q | StrictlyBelow(p, q)
      ensures NodeOr(into, q, Created(DIR_MODE, u.umask)) == NodeOr(overlay, q, Created(DIR_MODE, u.umask))
      ensures q in overlay ==> q in into
    {
      assert InstalledAt(u, stage, overlay, paths, k, into, q);
      if CoveredBy(paths, k, q) { CoveredDown(paths, k, p, q); }
    }
  }

  /** So the way can be made now exactly when it could be made in the emptied overlay. */
  lemma SameWay(u: User, stage: Tree, overlay: Tree, paths: seq<Loc>, k: nat, into: Tree)
    requires Ready(u, stage, overlay, paths) && k < |paths| && Installed(u, stage, overlay, paths, k, into)
    requires !CoveredBy(paths, k, paths[k]) && Opened(u, overlay, into)
    ensures var p, mode := paths[k], Created(DIR_MODE, u.umask);
      MayReach(u, into, p, mode) <==> MayReach(u, overlay, p, mode)
  {
    hide WellFormed, Worked, MaySearch, CoveredBy, AboveInstalled, Created, AncestorsFirst;
    var p, mode := paths[k], Created(DIR_MODE, u.umask);
    WayIsClear(u, stage, overlay, paths, k, into);
    WriteImpliesSearch(u);
    forall q ensures MayPass(u, into, p, q, mode) <==> MayPass(u, overlay, p, q, mode) {
      if StrictlyBelow(p, q) {
        TowardBelow(p, q);
        var c := Toward(p, q);
        assert c in overlay ==> c in into;
        assert c in into && c !in overlay ==> MayWrite(u, into[Parent(c)]);
      }
    }
  }

  /** What a move of `p` makes of the overlay. */
  ghost predicate MovedTo(u: User, stage: Tree, overlay: Tree, p: Loc, r: Tree) {
    && (forall q :: Below(q, p) ==> SameAt(r, stage, q))
    && (forall q :: !Below(q, p) && q in overlay ==> q in r && r[q] == overlay[q])
    && (forall q :: !Below(q, p) && q !in overlay && StrictlyBelow(p, q) ==> q in r && r[q] == DefaultDir(u))
    && (forall q :: !Below(q, p) && q !in overlay && !StrictlyBelow(p, q) ==> q !in r)
  }

  lemma MoveOneMeans(u: User, stage: Tree, overlay: Tree, p: Loc)
    requires WellFormed(overlay) && p in stage && p != [] && p !in overlay
    requires SearchableAbove(u, stage, p) && Parent(p) in stage && MayWrite(u, stage[Parent(p)])
    ensures var r := MoveOne(u, stage, overlay, p);
      && (r.Ok? <==> Movable(u, stage, overlay, p))
      && (r.Ok? ==> r.value.from == Without(stage, p) && MovedTo(u, stage, overlay, p, r.value.into))
  {
    hide CheckPath, MayMake, WellFormed, Created, MayReach, SearchableAbove, MaySearch, Passable, MayWrite, Without;
    hide MayMoveNode, MayRename, MovedTo, MkdirAll, Rename;
    var up, mode := Parent(p), Created(DIR_MODE, u.umask);
    ReachMeans(u, overlay, p, mode);
    CheckMeansPassable(u, overlay, up);
    if MayMake(u, overlay, up, mode) {
      AfterMake(u, overlay, p, mode);
      var made := MkdirAll(u, overlay, up, mode).value;
      RenameMeans(u, stage, made, p);
      if Rename(u, stage, made, p).Ok? { RenamedIsMovedTo(u, stage, overlay, p); }
    }
  }

  lemma RenamedIsMovedTo(u: User, stage: Tree, overlay: Tree, p: Loc)
    requires p in stage && p != [] && MayMake(u, overlay, Parent(p), Created(DIR_MODE, u.umask))
    requires var made := MkdirAll(u, overlay, Parent(p), Created(DIR_MODE, u.umask));
      made.Ok? && Rename(u, stage, made.value, p).Ok?
    ensures var made := MkdirAll(u, overlay, Parent(p), Created(DIR_MODE, u.umask)).value;
      MovedTo(u, stage, overlay, p, Rename(u, stage, made, p).value.into)
  {
    hide MayMake, MayRename, Created, Without;
    forall q ensures StrictlyBelow(p, q) <==> Below(Parent(p), q) { BelowParent(p, q); }
  }

  /** Once the directory is made, only the permissions of that directory and of the node count. */
  lemma RenameMeans(u: User, stage: Tree, made: Tree, p: Loc)
    requires p in stage && p != [] && p !in made && Parent(p) in made
    requires SearchableAbove(u, stage, p) && Parent(p) in stage && MayWrite(u, stage[Parent(p)])
    requires SearchableAbove(u, made, p) <==> MaySearch(u, made[Parent(p)])
    ensures Rename(u, stage, made, p).Ok? <==> MayWrite(u, made[Parent(p)]) && MayMoveNode(u, stage[p])
  {
    hide MayMoveNode, SearchableAbove, MaySearch;
  }

  lemma NotCoveredAbove(paths: seq<Loc>, k: nat, q: Loc)
    requires AncestorsFirst(paths) && k < |paths| && StrictlyBelow(paths[k], q) && !CoveredBy(paths, k, q)
    ensures !CoveredBy(paths, |paths|, q)
  {
    forall i | 0 <= i < |paths| ensures !Below(q, paths[i]) {
      BelowTransitive(paths[k], q, paths[i]);
    }
  }

  /** The stage can be searched down to every path; above a path that is still staged it can be written. */
  lemma StageIsOpen(u: User, stage: Tree, overlay: Tree, paths: seq<Loc>, k: nat)
    requires Ready(u, stage, overlay, paths) && k < |paths|
    ensures var p, rest := paths[k], Outside(stage, paths, k);
      && SearchableAbove(u, rest, p)
      && (p in rest ==> Parent(p) in rest && MayWrite(u, rest[Parent(p)]))
  {
    hide CoveredBy, AncestorsFirst, WellFormed, MaySearch, MayWrite;
    var p, rest := paths[k], Outside(stage, paths, k);
    SearchableAboveMeans(u, rest, p);
    WriteImpliesSearch(u);
    forall q | q in rest && StrictlyBelow(p, q) ensures MaySearch(u, rest[q]) {
      NotCoveredAbove(paths, k, q);
      if q != [] {
        var c :| c in stage && StrictlyBelow(c, q);
        assert MayWrite(u, stage[q]);
      }
    }
    if p in rest {
      OutsideKeepsForm(stage, paths, k);
      BelowParent(p, Parent(p));
      AncestorsAreDirs(rest, p, Parent(p));
    }
  }

  /** A path that is still to be moved shares nothing with those before it. */
  lemma Separate(paths: seq<Loc>, k: nat, q: Loc)
    requires AncestorsFirst(paths) && k < |paths| && !CoveredBy(paths, k, paths[k])
    ensures Below(q, paths[k]) || StrictlyBelow(paths[k], q) ==> !CoveredBy(paths, k, q)
  {
    var p := paths[k];
    forall i | 0 <= i < k && (Below(q, p) || StrictlyBelow(p, q)) ensures !Below(q, paths[i]) {
      assert !Below(paths[i], p) && !Below(p, paths[i]);
      if Below(q, paths[i]) {
        BelowTransitive(p, q, paths[i]);
        if Below(q, p) { PrefixesCompare(q, paths[i], p); }
      }
    }
  }

  lemma MovedIsInstalled(u: User, stage: Tree, overlay: Tree, paths: seq<Loc>, k: nat, into: Tree, r: Tree)
    requires Ready(u, stage, overlay, paths) && k < |paths| && Installed(u, stage, overlay, paths, k, into)
    requires Moves(stage, paths, k) && MayReach(u, into, paths[k], Created(DIR_MODE, u.umask))
    requires MovedTo(u, Outside(stage, paths, k), into, paths[k], r)
    ensures Installed(u, stage, overlay, paths, k + 1, r)
  {
    hide WellFormed, CoveredBy, AboveInstalled, AncestorsFirst, Worked, MaySearch, MayReach;
    WayIsClear(u, stage, overlay, paths, k, into);
    assert WellFormed(r) by {
      OutsideKeepsForm(stage, paths, k);
      MovedKeepsForm(u, Outside(stage, paths, k), into, paths[k], r);
    }
    var next := k + 1;
    forall q ensures InstalledAt(u, stage, overlay, paths, next, r, q) {
      assert InstalledAt(u, stage, overlay, paths, k, into, q);
      CoveredStep(paths, k, q);
      AboveStep(stage, paths, k, q);
      Separate(paths, k, q);
    }
  }

  lemma MovedKeepsForm(u: User, rest: Tree, into: Tree, p: Loc, r: Tree)
    requires WellFormed(rest) && WellFormed(into) && MovedTo(u, rest, into, p, r) && p != []
    requires MayReach(u, into, p, Created(DIR_MODE, u.umask))
    ensures WellFormed(r)
  {
    forall q | q in r && q != [] ensures Parent(q) in r && r[Parent(q)].Dir? {
      BelowCases(q, p);
      BelowParent(q, p);
      if Below(q, p) {
        if q != p {
          assert q in rest;
        } else {
          assert StrictlyBelow(p, Parent(q)) && !Below(Parent(q), p);
          assert MayPass(u, into, p, Parent(q), Created(DIR_MODE, u.umask));
        }
      } else if StrictlyBelow(p, q) {
        assert Parent(q) <= q < p;
        assert StrictlyBelow(p, Parent(q));
        assert MayPass(u, into, p, Parent(q), Created(DIR_MODE, u.umask));
      } else {
        assert q in into;
      }
    }
  }

  lemma MovedIsOpened(u: User, stage: Tree, overlay: Tree, rest: Tree, into: Tree, p: Loc, r: Tree)
    requires WellFormed(rest) && WellFormed(into) && WellFormed(r) && Worked(u, rest) && Opened(u, overlay, into)
    requires p != [] && p !in into && MovedTo(u, rest, into, p, r)
    requires MayReach(u, into, p, Created(DIR_MODE, u.umask))
    ensures Opened(u, overlay, r)
  {
    hide MayWrite, MaySearch;
    forall c | c in r && c !in overlay && c != [] ensures MayWrite(u, r[Parent(c)]) {
      var up := Parent(c);
      BelowParent(c, p);
      BelowParent(c, up);
      BelowCases(c, p);
      if StrictlyBelow(c, p) {
        assert c in rest && up in rest && StrictlyBelow(c, up);
      } else if c == p || c !in into {
        assert StrictlyBelow(p, up);
        assert Toward(p, up) == c;
        assert MayPass(u, into, p, up, Created(DIR_MODE, u.umask));
      } else {
        assert up in into && !Below(up, p);
      }
    }
  }

  /** A path that went with an ancestor. */
  lemma WentWithAncestor(stage: Tree, paths: seq<Loc>, k: nat, q: Loc)
    requires WellFormed(stage) && k < |paths| && CoveredBy(paths, k, paths[k])
    ensures CoveredBy(paths, k + 1, q) <==> CoveredBy(paths, k, q)
    ensures !CoveredBy(paths, k, q) ==>
      (AboveInstalled(stage, paths, k + 1, q) <==> AboveInstalled(stage, paths, k, q))
  {
    var p := paths[k];
    CoveredStep(paths, k, q);
    AboveStep(stage, paths, k, q);
    if Below(q, p) { CoveredDown(paths, k, q, p); }
    if p in stage && StrictlyBelow(p, q) && !CoveredBy(paths, k, q) {
      var i :| 0 <= i < k && Below(p, paths[i]);
      PrefixesCompare(p, paths[i], q);
      BelowCases(p, paths[i]);
      BelowCases(paths[i], q);
      if StrictlyBelow(p, paths[i]) { AncestorsAreDirs(stage, p, paths[i]); }
      assert paths[i] in stage && StrictlyBelow(paths[i], q);
    }
  }

  /** A path that was never staged. */
  lemma NeverStaged(u: User, stage: Tree, overlay: Tree, paths: seq<Loc>, k: nat, into: Tree, q: Loc)
    requires Ready(u, stage, overlay, paths) && k < |paths|
    requires InstalledAt(u, stage, overlay, paths, k, into, q)
    requires !CoveredBy(paths, k, paths[k]) && paths[k] !in stage
    ensures InstalledAt(u, stage, overlay, paths, k + 1, into, q)
    ensures Below(q, paths[k]) ==> q !in stage
  {
    hide WellFormed, Worked, MaySearch;
    var p := paths[k];
    CoveredStep(paths, k, q);
    AboveStep(stage, paths, k, q);
    if Below(q, p) {
      NothingBelowMissing(stage, p, q);
      Separate(paths, k, q);
      CoveredMore(paths, k + 1, |paths|, q);
    }
  }

  lemma SkippedIsInstalled(u: User, stage: Tree, overlay: Tree, paths: seq<Loc>, k: nat, into: Tree)
    requires Ready(u, stage, overlay, paths) && k < |paths| && Installed(u, stage, overlay, paths, k, into)
    requires paths[k] !in Outside(stage, paths, k)
    ensures Installed(u, stage, overlay, paths, k + 1, into)
    ensures Outside(stage, paths, k) == Outside(stage, paths, k + 1)
  {
    hide WellFormed, AboveInstalled, AncestorsFirst, CoveredBy, Worked, MaySearch;
    forall q ensures InstalledAt(u, stage, overlay, paths, k + 1, into, q)
      ensures q in Outside(stage, paths, k) <==> q in Outside(stage, paths, k + 1)
    {
      assert InstalledAt(u, stage, overlay, paths, k, into, q);
      CoveredStep(paths, k, q);
      if CoveredBy(paths, k, paths[k]) {
        WentWithAncestor(stage, paths, k, q);
      } else {
        NeverStaged(u, stage, overlay, paths, k, into, q);
      }
    }
  }

  lemma OutsideWorked(u: User, t: Tree, paths: seq<Loc>, k: nat)
    requires Worked(u, t) && k <= |paths|
    ensures Worked(u, Outside(t, paths, k))
  {}

  lemma MoveStep(u: User, stage: Tree, overlay: Tree, paths: seq<Loc>, k: nat, into: Tree)
    requires Ready(u, stage, overlay, paths) && k < |paths| && Installed(u, stage, overlay, paths, k, into)
    requires Opened(u, overlay, into) && Moves(stage, paths, k)
    ensures var r := MoveOne(u, Outside(stage, paths, k), into, paths[k]);
      && (r.Ok? <==> Movable(u, stage, overlay, paths[k]))
      && (r.Ok? ==> r.value.from == Outside(stage, paths, k + 1)
                    && Installed(u, stage, overlay, paths, k + 1, r.value.into) && Opened(u, overlay, r.value.into))
  {
    hide MoveOne, WellFormed, InstalledAt, AncestorsFirst, CoveredBy, AboveInstalled, MovedTo, Worked, Opened, MayReach;
    hide SearchableAbove, MayWrite, MaySearch;
    var p, rest := paths[k], Outside(stage, paths, k);
    WayIsClear(u, stage, overlay, paths, k, into);
    SameWay(u, stage, overlay, paths, k, into);
    StageIsOpen(u, stage, overlay, paths, k);
    MoveOneMeans(u, rest, into, p);
    var r := MoveOne(u, rest, into, p);
    if r.Ok? {
      MovedIsInstalled(u, stage, overlay, paths, k, into, r.value.into);
      OutsideKeepsForm(stage, paths, k);
      OutsideWorked(u, stage, paths, k);
      MovedIsOpened(u, stage, overlay, rest, into, p, r.value.into);
      forall q ensures CoveredBy(paths, k + 1, q) <==> CoveredBy(paths, k, q) || Below(q, p) {
        CoveredStep(paths, k, q);
      }
      assert Without(rest, p) == Outside(stage, paths, k + 1);
    }
  }

  /** One round keeps the picture: a path that is staged is moved with all that is below it, exactly if
      it can be; one that went with an ancestor, or was never staged, is skipped. */
  lemma InstallStep(u: User, stage: Tree, overlay: Tree, paths: seq<Loc>, k: nat, into: Tree)
    requires Ready(u, stage, overlay, paths) && k < |paths| && Installed(u, stage, overlay, paths, k, into)
    requires Opened(u, overlay, into)
    ensures var r := InstallOne(u, Outside(stage, paths, k), into, paths[k]);
      && (r.Ok? <==> CanMove(u, stage, overlay, paths, k))
      && (r.Ok? ==> r.value.from == Outside(stage, paths, k + 1)
                    && Installed(u, stage, overlay, paths, k + 1, r.value.into) && Opened(u, overlay, r.value.into))
  {
    hide MoveOne, WellFormed, InstalledAt, AncestorsFirst, CoveredBy, Worked, Opened, Movable, SearchableAbove;
    StageIsOpen(u, stage, overlay, paths, k);
    if Moves(stage, paths, k) {
      MoveStep(u, stage, overlay, paths, k, into);
    } else {
      SkippedIsInstalled(u, stage, overlay, paths, k, into);
    }
  }

  lemma NothingInstalled(u: User, stage: Tree, overlay: Tree, paths: seq<Loc>)
    requires Ready(u, stage, overlay, paths)
    ensures Outside(stage, paths, 0) == stage
    ensures Installed(u, stage, overlay, paths, 0, overlay) && Opened(u, overlay, overlay)
  {
    hide Worked, MaySearch, AncestorsFirst;
    assert Outside(stage, paths, 0) == stage;
    assert forall q :: InstalledAt(u, stage, overlay, paths, 0, overlay, q);
  }

  /** The install succeeds exactly when every path that has to be moved can be; then every path is
      there as staged, the rest of the overlay as it was. */
  lemma {:induction false} InstallsStage(u: User, stage: Tree, overlay: Tree, paths: seq<Loc>, k: nat)
    requires Ready(u, stage, overlay, paths) && k <= |paths|
    ensures var r := InstallFirst(u, stage, overlay, paths, k);
      && (r.Ok? <==> forall i :: 0 <= i < k ==> CanMove(u, stage, overlay, paths, i))
      && (r.Ok? ==> r.value.from == Outside(stage, paths, k)
                    && Installed(u, stage, overlay, paths, k, r.value.into) && Opened(u, overlay, r.value.into))
  {
    hide Ready, Installed, InstallOne, WellFormed, CanMove, Opened;
    if k == 0 {
      NothingInstalled(u, stage, overlay, paths);
    } else {
      InstallsStage(u, stage, overlay, paths, k - 1);
      var before := InstallFirst(u, stage, overlay, paths, k - 1);
      if before.Ok? { InstallStep(u, stage, overlay, paths, k - 1, before.value.into); }
    }
  }
}
