/** Extracting the entries of an archive into an empty stage (`pack.go`). */
module PackExtract {
  import opened Basics
  import opened FileTree
  import opened PackTree
  import opened PackArchive
  import PathStrings
  import OverlayAudit

  // ---------- entries ----------

  const ENTRY_PREFIX := "entries/"

  /** A tar entry: its name, and its type with the permission bits, the content or the link name. */
  datatype Entry = Entry(name: string, node: Node)

  function EntryName(p: Loc): string { ENTRY_PREFIX + ArchivePath(p)[1..] }

  function EntryOf(item: Item): Entry { Entry(EntryName(item.path), item.node) }

  predicate BadPart(part: string) { part == "" || part == "." || part == ".." }

  /** `packEntryRel`: what a name says about where its entry goes. A relative path whose parts are
      all ordinary is clean already. */
  function PackEntryRel(name: string): Result<Loc, Error> {
    if !HasPrefix(name, ENTRY_PREFIX) then Err(BadEntryName) else
      var rel := name[|ENTRY_PREFIX|..];
      if rel == "" || '\0' in rel || '\\' in rel || rel[0] == '/' then Err(BadEntryName)
      else if exists part :: part in PathStrings.Split(rel) && BadPart(part) then Err(BadEntryName)
      else Ok(PathStrings.Split(rel))
  }

  /** Names without the characters an entry name must not have. */
  ghost predicate Portable(p: Loc) {
    forall i :: 0 <= i < |p| ==> '\0' !in p[i] && '\\' !in p[i]
  }

  /** An entry's name leads back to its location, except for the root and for names with a backslash
      (or the zero character): those are written into the archive but refused when it is read. */
  lemma EntryNameRoundTrip(p: Loc)
    requires PathStrings.Normal(p)
    ensures PackEntryRel(EntryName(p)) == if p != [] && Portable(p) then Ok(p) else Err(BadEntryName)
  {
    var rel := ArchivePath(p)[1..];
    assert EntryName(p)[|ENTRY_PREFIX|..] == rel;
    if p != [] {
      NameParts(p);
      forall part | part in p ensures !BadPart(part) {}
      NameCharacters(p, '\0');
      NameCharacters(p, '\\');
    }
  }

  /** The name of an entry: its location with a slash in front of each component, after `entries`. */
  lemma EntryNameForm(p: Loc)
    requires PathStrings.Normal(p) && p != []
    ensures EntryName(p) == "entries" + PathStrings.Cat(p)
  {
    hide PathStrings.Cat, PathStrings.Normal;
    PathStrings.CatStarts(p);
    assert ENTRY_PREFIX == "entries" + "/" && ArchivePath(p) == "/" + ArchivePath(p)[1..];
  }

  /** So the names that are accepted are exactly those that packing gives to locations other than the
      root whose components have neither a zero character nor a backslash. */
  lemma NamesAccepted(name: string, p: Loc)
    ensures PackEntryRel(name) == Ok(p) <==>
      p != [] && PathStrings.Normal(p) && Portable(p) && name == "entries" + PathStrings.Cat(p)
  {
    hide PathStrings.Cat, PathStrings.Split;
    if p != [] && PathStrings.Normal(p) && Portable(p) && name == "entries" + PathStrings.Cat(p) {
      EntryNameForm(p);
      EntryNameRoundTrip(p);
    }
    if PackEntryRel(name) == Ok(p) {
      var rel := name[|ENTRY_PREFIX|..];
      PathStrings.SplitPieces(rel);
      PathStrings.CatSplit(rel);
      forall i | 0 <= i < |p| ensures !BadPart(p[i]) { assert p[i] in p; }
      forall i | 0 <= i < |p| ensures '\0' !in p[i] && '\\' !in p[i] {
        if '\0' in p[i] { PathStrings.SplitCharacters(rel, i, '\0'); }
        if '\\' in p[i] { PathStrings.SplitCharacters(rel, i, '\\'); }
      }
      assert name == ENTRY_PREFIX + rel && ENTRY_PREFIX + rel == "entries" + ("/" + rel);
    }
  }

  lemma NameParts(p: Loc)
    requires PathStrings.Normal(p) && p != []
    ensures PathStrings.Split(ArchivePath(p)[1..]) == p && ArchivePath(p)[1..] != "" && ArchivePath(p)[1] != '/'
  {
    PathStrings.SplitCat(p);
    PathStrings.CatStarts(p);
    var rel := ArchivePath(p)[1..];
    assert ArchivePath(p) == "" + "/" + rel;
    PathStrings.SplitConcat("", rel);
    assert PathStrings.Split(rel) == p by { assert ([""] + PathStrings.Split(rel))[1..] == ([""] + p)[1..]; }
    LeadingSlash(rel);
  }

  lemma LeadingSlash(s: string)
    ensures s != "" && s[0] == '/' ==> PathStrings.Split(s)[0] == ""
  {}

  lemma NameCharacters(p: Loc, c: char)
    requires PathStrings.Normal(p) && p != [] && c != '/'
    ensures c in ArchivePath(p)[1..] <==> exists i :: 0 <= i < |p| && c in p[i]
  {
    PathStrings.CatStarts(p);
    assert ArchivePath(p) == ['/'] + ArchivePath(p)[1..];
    if c in ArchivePath(p)[1..] { PathStrings.CatCharacters(p, c); }
    if i :| 0 <= i < |p| && c in p[i] { PartInCat(p, i, c); }
  }

  lemma PartInCat(p: Loc, i: nat, c: char)
    requires i < |p| && c in p[i]
    ensures c in PathStrings.Cat(p)
  {
    if i == |p| - 1 {
    } else {
      PartInCat(p[..|p| - 1], i, c);
    }
  }

  // ---------- one entry ----------

  const DIR_MODE: Mode := 0x1ED

  /** A directory as the program makes it when nothing says how. */
  function DefaultDir(u: User): Node { Dir(Created(DIR_MODE, u.umask)) }

  /** What a node looks like after a trip through an archive. */
  function Restored(u: User, node: Node): Node {
    match node
    case Dir(mode) => Dir(Created(mode, u.umask))
    case File(mode, data) => File(Created(mode, u.umask), data)
    case Link(target) => Link(target)
    case Other => Other
  }

  /** A file or a link goes to `p`: its directory is made if it is missing, what is there is removed. */
  function PlaceLeaf(u: User, t: Tree, p: Loc, node: Node): Result<Tree, Error> {
    var check := CheckPath(u, t, Parent(p));
    if check.Some? then Err(check.value) else
      var made := MkdirAll(u, t, Parent(p), Created(DIR_MODE, u.umask));
      if made.Err? then made else
        var again := CheckPath(u, made.value, Parent(p));
        if again.Some? then Err(again.value) else
          var cleared := RemoveAll(u, made.value, p);
          if cleared.Err? then cleared else CreateLeaf(u, cleared.value, p, node)
  }

  /** `extractPackEntry` below the absolute directory `root`. */
  function ExtractEntry(u: User, root: Loc, t: Tree, e: Entry): Result<Tree, Error> {
    var rel := PackEntryRel(e.name);
    if rel.Err? then Err(rel.error) else
      match e.node
      case Dir(mode) =>
        var check := CheckPath(u, t, rel.value);
        if check.Some? then Err(check.value) else MkdirAll(u, t, rel.value, Created(mode, u.umask))
      case File(_, _) => PlaceLeaf(u, t, rel.value, Restored(u, e.node))
      case Link(target) =>
        if !OverlayAudit.TargetAllowed(root, root + rel.value, target) then Err(UnsafeLink)
        else PlaceLeaf(u, t, rel.value, e.node)
      case Other => Err(UnsupportedType)
  }

  /** Nothing is extracted through a link: where the walk to the place of an entry gets to one, the entry
      is refused for that reason, and the stage is left alone. */
  lemma LinkOnTheWayIsRefused(u: User, root: Loc, t: Tree, e: Entry, p: Loc, j: nat)
    requires PackEntryRel(e.name) == Ok(p) && !e.node.Other?
    requires e.node.Link? ==> OverlayAudit.TargetAllowed(root, root + p, e.node.target)
    requires LinkAt(u, t, p, j) && (j < |p| || e.node.Dir?)
    ensures ExtractEntry(u, root, t, e) == Err(UnsafePath)
  {
    hide PackEntryRel, OverlayAudit.TargetAllowed;
    LinkIsReported(u, t, p, j);
    if j < |p| {
      var up := Parent(p);
      forall i | 0 <= i <= j ensures up[..i] == p[..i] {}
      LinkIsReported(u, t, up, j);
    }
  }

  /** The first `k` entries, one after the other. */
  function ExtractFirst(u: User, root: Loc, t: Tree, entries: seq<Entry>, k: nat): Result<Tree, Error>
    requires k <= |entries|
  {
    if k == 0 then Ok(t) else
      var before := ExtractFirst(u, root, t, entries, k - 1);
      if before.Err? then before else ExtractEntry(u, root, before.value, entries[k - 1])
  }

  // ---------- the stage ----------

  /** What a caller can check about the name and the target of a node beforehand. */
  ghost predicate Extractable(root: Loc, item: Item) {
    && item.path != [] && Portable(item.path)
    && !item.node.Other?
    && (item.node.Link? ==> OverlayAudit.TargetAllowed(root, root + item.path, item.node.target))
  }

  ghost predicate AboveSome(items: seq<Item>, k: nat, q: Loc)
    requires k <= |items|
  {
    exists i :: 0 <= i < k && Below(items[i].path, q)
  }

  ghost predicate IsOneOf(items: seq<Item>, k: nat, q: Loc)
    requires k <= |items|
  {
    exists i :: 0 <= i < k && items[i].path == q
  }

  /** The permission bits of the directories that are made on the way to an item: those of the item
      itself if it is a directory. */
  function WayMode(u: User, item: Item): Mode {
    Created(if item.node.Dir? then item.node.mode else DIR_MODE, u.umask)
  }

  /** What an item makes of a location at or above its own. */
  function MadeBy(u: User, item: Item, q: Loc): Node {
    if item.path == q then Restored(u, item.node) else Dir(WayMode(u, item))
  }

  /** The node the stage has at `q` after `k` items: the first item at or below `q` made it. */
  ghost function StageNode(u: User, items: seq<Item>, k: nat, q: Loc): Node
    requires k <= |items|
  {
    if k == 0 then DefaultDir(u)
    else if q == [] || AboveSome(items, k - 1, q) then StageNode(u, items, k - 1, q)
    else MadeBy(u, items[k - 1], q)
  }

  /** Every directory with something in it could be written. */
  ghost predicate Worked(u: User, t: Tree) {
    forall q, c :: q in t && c in t && StrictlyBelow(c, q) ==> MayWrite(u, t[q])
  }

  /** The stage after `k` items: these items, and directories above them; nothing else. */
  ghost predicate Staged(u: User, items: seq<Item>, k: nat, st: Tree)
    requires k <= |items|
  {
    && [] in st && WellFormed(st) && Worked(u, st)
    && (forall q :: q in st <==> q == [] || AboveSome(items, k, q))
    && (forall q :: q in st ==> st[q] == StageNode(u, items, k, q))
  }

  /** All directories on the way to item `i` can be entered and written once they are made. */
  ghost predicate Entered(u: User, items: seq<Item>, i: nat)
    requires i < |items|
  {
    forall q :: StrictlyBelow(items[i].path, q) ==> MayWrite(u, StageNode(u, items, i + 1, q))
  }

  /** The items come from a tree, which has only directories above its nodes. */
  ghost predicate FromTree(t: Tree, items: seq<Item>) {
    && WellFormed(t)
    && forall i :: 0 <= i < |items| ==>
         items[i].path in t && items[i].node == t[items[i].path] && PathStrings.Normal(items[i].path)
  }

  lemma AboveSomeStep(items: seq<Item>, k: nat, q: Loc)
    requires k < |items|
    ensures AboveSome(items, k + 1, q) <==> AboveSome(items, k, q) || Below(items[k].path, q)
    ensures IsOneOf(items, k + 1, q) <==> IsOneOf(items, k, q) || items[k].path == q
  {}

  /** The stage has every item as it was packed. */
  lemma {:induction false} ItemIsRestored(u: User, items: seq<Item>, k: nat, i: nat)
    requires ParentsFirst(items) && i < k <= |items| && items[i].path != []
    ensures StageNode(u, items, k, items[i].path) == Restored(u, items[i].node)
    decreases k
  {
    var p := items[i].path;
    if k - 1 == i {
      assert !AboveSome(items, i, p);
    } else {
      assert Below(items[i].path, p);
      assert AboveSome(items, k - 1, p);
      ItemIsRestored(u, items, k - 1, i);
    }
  }

  /** Everything else in the stage is a directory. */
  lemma {:induction false} OthersAreDirs(u: User, items: seq<Item>, k: nat, q: Loc)
    requires k <= |items| && !IsOneOf(items, k, q)
    ensures StageNode(u, items, k, q).Dir?
    decreases k
  {
    if k == 0 {
    } else {
      AboveSomeStep(items, k - 1, q);
      OthersAreDirs(u, items, k - 1, q);
    }
  }

  lemma NothingInTheWay(t: Tree, u: User, items: seq<Item>, k: nat, st: Tree)
    requires FromTree(t, items) && ParentsFirst(items) && k < |items| && Staged(u, items, k, st)
    requires items[k].path != []
    ensures items[k].path !in st
    ensures forall q :: q in st && StrictlyBelow(items[k].path, q) ==> st[q].Dir?
  {
    hide WellFormed, Worked;
    var p := items[k].path;
    assert p in st ==> AboveSome(items, k, p);
    forall q | q in st && StrictlyBelow(p, q) ensures st[q].Dir? {
      if i :| 0 <= i < k && items[i].path == q {
        AncestorsAreDirs(t, p, q);
        if q != [] { ItemIsRestored(u, items, k, i); } else { RootIsDefault(u, items, k); }
      } else {
        OthersAreDirs(u, items, k, q);
      }
    }
  }

  lemma {:induction false} RootIsDefault(u: User, items: seq<Item>, k: nat)
    requires k <= |items|
    ensures StageNode(u, items, k, []) == DefaultDir(u)
  {
    if k == 0 {
    } else {
      RootIsDefault(u, items, k - 1);
    }
  }

  /** Adding the node at `p` and directories with `mode` above it to a stage with nothing in the way. */
  ghost predicate Grown(st: Tree, p: Loc, node: Node, mode: Mode, st': Tree) {
    && (forall q :: q in st' <==> q in st || Below(p, q))
    && (forall q :: q in st' && q != p ==> st'[q] == NodeOr(st, q, mode))
    && st'[p] == node
  }

  lemma GrownKeepsForm(st: Tree, p: Loc, node: Node, mode: Mode, st': Tree)
    requires WellFormed(st) && p !in st && Grown(st, p, node, mode, st')
    requires forall q :: q in st && StrictlyBelow(p, q) ==> st[q].Dir?
    ensures WellFormed(st')
  {
    forall q | q in st' && q != [] ensures Parent(q) in st' && st'[Parent(q)].Dir? {
      if q in st {
        assert Parent(q) in st;
      } else {
        BelowParent(q, Parent(q));
        BelowTransitive(p, q, Parent(q));
        BelowCases(p, Parent(q));
      }
    }
  }

  /** All directories on the way to `p` can be written, those to be made included. */
  ghost predicate WayIsWritable(u: User, st: Tree, p: Loc, mode: Mode) {
    forall q :: StrictlyBelow(p, q) ==> MayWrite(u, NodeOr(st, q, mode))
  }

  lemma GrownWorked(u: User, st: Tree, p: Loc, node: Node, mode: Mode, st': Tree)
    requires WellFormed(st) && Worked(u, st) && p !in st && Grown(st, p, node, mode, st')
    requires WayIsWritable(u, st, p, mode)
    ensures Worked(u, st')
  {
    forall q, c | q in st' && c in st' && StrictlyBelow(c, q) ensures MayWrite(u, st'[q]) {
      if c in st {
        AncestorsAreDirs(st, c, q);
      } else {
        assert Below(p, c);
        assert q < c <= p;
        assert StrictlyBelow(p, q);
      }
    }
  }

  lemma GrownIsStaged(u: User, items: seq<Item>, k: nat, st: Tree, st': Tree)
    requires k < |items| && Staged(u, items, k, st) && items[k].path !in st
    requires forall q :: q in st && StrictlyBelow(items[k].path, q) ==> st[q].Dir?
    requires Grown(st, items[k].path, Restored(u, items[k].node), WayMode(u, items[k]), st')
    requires WayIsWritable(u, st, items[k].path, WayMode(u, items[k]))
    ensures Staged(u, items, k + 1, st')
  {
    hide AboveSome, WellFormed, Worked, Restored, WayMode, WayIsWritable;
    var p, node, mode := items[k].path, Restored(u, items[k].node), WayMode(u, items[k]);
    GrownKeepsForm(st, p, node, mode, st');
    GrownWorked(u, st, p, node, mode, st');
    forall q ensures AboveSome(items, k + 1, q) <==> AboveSome(items, k, q) || Below(p, q) {
      AboveSomeStep(items, k, q);
    }
  }

  lemma WriteImpliesSearch(u: User)
    ensures forall n :: MayWrite(u, n) ==> MaySearch(u, n) && n.Dir?
    ensures forall n :: MaySearch(u, n) ==> n.Dir?
  {}

  /** The way to a missing node can be made and the node put there. */
  ghost predicate MayReach(u: User, t: Tree, p: Loc, mode: Mode) { forall q :: MayPass(u, t, p, q, mode) }

  /** That is so exactly when its directory can be made and then written. */
  lemma ReachMeans(u: User, t: Tree, p: Loc, mode: Mode)
    requires WellFormed(t) && p !in t && p != []
    ensures MayReach(u, t, p, mode) <==>
      MayMake(u, t, Parent(p), mode) && MayWrite(u, NodeOr(t, Parent(p), mode))
    ensures MayReach(u, t, p, mode) <==> MayMake(u, t, p, mode)
    ensures MayReach(u, t, p, mode) ==> Passable(u, t, p)
  {
    hide MayWrite, MaySearch, WellFormed;
    var up := Parent(p);
    WriteImpliesSearch(u);
    forall q ensures Below(p, q) <==> StrictlyBelow(p, q) || q == p { BelowCases(p, q); }
    forall q ensures StrictlyBelow(p, q) <==> Below(up, q) { BelowParent(p, q); }
    forall q ensures Below(up, q) <==> StrictlyBelow(up, q) || q == up { BelowCases(up, q); }
    forall q | StrictlyBelow(up, q) ensures MayPass(u, t, up, q, mode) <==> MayPass(u, t, p, q, mode) {
      assert Toward(up, q) == Toward(p, q);
    }
    assert Toward(p, up) == p;
    assert forall q :: q !in Prefixes(p) ==> MayPass(u, t, p, q, mode);
    if MayReach(u, t, p, mode) {
      forall q | q in Prefixes(up) ensures NodeOr(t, q, mode).Dir? && MayPass(u, t, up, q, mode) {
        assert MayPass(u, t, p, q, mode);
      }
      assert MayPass(u, t, p, up, mode);
    }
    if MayMake(u, t, up, mode) && MayWrite(u, NodeOr(t, up, mode)) {
      forall q ensures MayPass(u, t, p, q, mode) {
        if StrictlyBelow(p, q) { assert q in Prefixes(up); }
      }
    }
  }

  /** What is known once the directory of a missing node is made. */
  lemma AfterMake(u: User, t: Tree, p: Loc, mode: Mode)
    requires WellFormed(t) && p !in t && p != [] && MayMake(u, t, Parent(p), mode)
    ensures Passable(u, t, Parent(p)) && MkdirAll(u, t, Parent(p), mode).Ok?
    ensures var made := MkdirAll(u, t, Parent(p), mode).value;
      && WellFormed(made) && p !in made && CheckPath(u, made, Parent(p)).None?
      && Parent(p) in made && made[Parent(p)] == NodeOr(t, Parent(p), mode)
      && (SearchableAbove(u, made, p) <==> MaySearch(u, made[Parent(p)]))
  {
    hide CheckPath, WellFormed, MayMake, SearchableAbove, MaySearch, MayWrite;
    var up := Parent(p);
    var made := MkdirAll(u, t, up, mode).value;
    MkdirAllKeepsForm(u, t, up, mode);
    WaySearchable(u, t, up, mode);
    CheckMeansPassable(u, made, up);
    SearchableAboveMeans(u, made, p);
    forall q ensures StrictlyBelow(p, q) <==> StrictlyBelow(up, q) || q == up {
      BelowParent(p, q);
      BelowCases(up, q);
    }
    forall q ensures Below(up, q) <==> StrictlyBelow(up, q) || q == up { BelowCases(up, q); }
  }

  lemma WaySearchable(u: User, st: Tree, p: Loc, mode: Mode)
    requires MayMake(u, st, p, mode)
    ensures NodeOr(st, p, mode).Dir?
    ensures forall q :: StrictlyBelow(p, q) ==> MaySearch(u, NodeOr(st, q, mode))
  {
    forall q | StrictlyBelow(p, q) ensures MaySearch(u, NodeOr(st, q, mode)) {
      BelowCases(p, q);
      assert q in Prefixes(p);
    }
    assert p in Prefixes(p);
  }

  /** In a stage where everything so far worked, a missing node can be reached exactly when every
      directory on the way to it can be written. */
  lemma WayMeans(u: User, st: Tree, p: Loc, mode: Mode)
    requires WellFormed(st) && Worked(u, st) && p !in st && p != []
    ensures MayReach(u, st, p, mode) <==> WayIsWritable(u, st, p, mode)
  {
    hide MayWrite, MaySearch, WellFormed;
    WriteImpliesSearch(u);
    forall q | StrictlyBelow(p, q)
      ensures MayPass(u, st, p, q, mode) <==> MayWrite(u, NodeOr(st, q, mode))
    {
      TowardBelow(p, q);
      if Toward(p, q) in st { AncestorsAreDirs(st, Toward(p, q), q); }
    }
  }

  lemma PlaceLeafMeans(u: User, st: Tree, p: Loc, node: Node)
    requires WellFormed(st) && Worked(u, st) && p !in st && p != []
    ensures var mode, r := Created(DIR_MODE, u.umask), PlaceLeaf(u, st, p, node);
      && (r.Ok? <==> WayIsWritable(u, st, p, mode))
      && (r.Ok? ==> Grown(st, p, node, mode, r.value))
  {
    hide CheckPath, MayMake, MayRemove, SearchableAbove, WellFormed, Worked, MaySearch, Created;
    hide WayIsWritable, MayReach, Passable, MayWrite, Grown, MkdirAll, RemoveAll, CreateLeaf;
    var up, mode := Parent(p), Created(DIR_MODE, u.umask);
    WayMeans(u, st, p, mode);
    ReachMeans(u, st, p, mode);
    CheckMeansPassable(u, st, up);
    WriteImpliesSearch(u);
    if MayMake(u, st, up, mode) {
      AfterMake(u, st, p, mode);
      MissingIsRemoved(u, MkdirAll(u, st, up, mode).value, p);
      LeafIsGrown(u, st, p, node, mode);
    }
  }

  lemma LeafIsGrown(u: User, st: Tree, p: Loc, node: Node, mode: Mode)
    requires p != [] && p !in st && MkdirAll(u, st, Parent(p), mode).Ok?
    ensures Grown(st, p, node, mode, MkdirAll(u, st, Parent(p), mode).value[p := node])
  {
    hide MayMake;
    forall q ensures Below(p, q) <==> Below(Parent(p), q) || q == p { BelowParent(p, q); }
  }

  lemma MissingIsRemoved(u: User, t: Tree, p: Loc)
    requires WellFormed(t) && p !in t
    ensures MayRemove(u, t, p) <==> SearchableAbove(u, t, p)
    ensures Without(t, p) == t
  {
    hide WellFormed;
    forall q | q in t ensures !Below(q, p) {
      if Below(q, p) { NothingBelowMissing(t, p, q); }
    }
  }

  lemma EnteredMeans(u: User, items: seq<Item>, k: nat, st: Tree)
    requires k < |items| && Staged(u, items, k, st)
    ensures Entered(u, items, k) <==> WayIsWritable(u, st, items[k].path, WayMode(u, items[k]))
  {
    hide MayWrite, WellFormed, Worked, AboveSome, WayMode, Restored;
    var p, mode := items[k].path, WayMode(u, items[k]);
    forall q | StrictlyBelow(p, q) ensures StageNode(u, items, k + 1, q) == NodeOr(st, q, mode) {
      assert q != p;
    }
  }

  lemma DirMeans(u: User, st: Tree, p: Loc, mode: Mode)
    requires WellFormed(st) && Worked(u, st) && p !in st && p != []
    ensures var r := MkdirAll(u, st, p, mode);
      && (WayIsWritable(u, st, p, mode) ==> CheckPath(u, st, p).None?)
      && (r.Ok? <==> WayIsWritable(u, st, p, mode))
      && (r.Ok? ==> Grown(st, p, Dir(mode), mode, r.value))
  {
    hide MayMake, Passable, CheckPath, WayIsWritable, MayReach;
    WayMeans(u, st, p, mode);
    ReachMeans(u, st, p, mode);
    CheckMeansPassable(u, st, p);
    assert Below(p, p);
  }

  /** An entry of an acceptable item succeeds exactly when the way to it can be written; it adds the
      item and the missing directories above it, and changes nothing. */
  lemma ExtractGrows(u: User, root: Loc, st: Tree, item: Item)
    requires WellFormed(st) && Worked(u, st) && PathStrings.Normal(item.path) && Extractable(root, item)
    requires item.path !in st && forall q :: q in st && StrictlyBelow(item.path, q) ==> st[q].Dir?
    ensures var r := ExtractEntry(u, root, st, EntryOf(item));
      && (r.Ok? <==> WayIsWritable(u, st, item.path, WayMode(u, item)))
      && (r.Ok? ==> Grown(st, item.path, Restored(u, item.node), WayMode(u, item), r.value))
  {
    hide PackEntryRel, OverlayAudit.TargetAllowed, EntryName, PathStrings.Normal, Portable;
    hide CheckPath, MkdirAll, PlaceLeaf, WayIsWritable, Grown, WellFormed, Worked;
    EntryNameRoundTrip(item.path);
    var p := item.path;
    if item.node.Dir? {
      DirMeans(u, st, p, WayMode(u, item));
    } else {
      PlaceLeafMeans(u, st, p, Restored(u, item.node));
    }
  }

  /** One entry: it can be extracted exactly when its name and its target are acceptable and the
      directories on the way to it can be written; nothing that was restored earlier is disturbed. */
  lemma ExtractStep(u: User, root: Loc, t: Tree, items: seq<Item>, k: nat, st: Tree)
    requires FromTree(t, items) && ParentsFirst(items) && k < |items| && Staged(u, items, k, st)
    ensures var r := ExtractEntry(u, root, st, EntryOf(items[k]));
      && (r.Ok? <==> Extractable(root, items[k]) && Entered(u, items, k))
      && (r.Ok? ==> Staged(u, items, k + 1, r.value) && forall q :: q in st ==> q in r.value && r.value[q] == st[q])
  {
    hide Entered, WayIsWritable, WellFormed, Worked, MkdirAll, CheckPath, PlaceLeaf, WayMode, StageNode, AboveSome;
    if Extractable(root, items[k]) {
      NothingInTheWay(t, u, items, k, st);
      ExtractGrows(u, root, st, items[k]);
      EnteredMeans(u, items, k, st);
      var r := ExtractEntry(u, root, st, EntryOf(items[k]));
      if r.Ok? { GrownIsStaged(u, items, k, st, r.value); }
    } else {
      EntryNameRoundTrip(items[k].path);
    }
  }

  /** Why directories must come first: a directory entry that comes after something below it changes
      nothing, so the directory keeps the default permission bits it was made with. */
  lemma LateDirectoryIsIgnored(u: User, root: Loc, st: Tree, p: Loc, mode: Mode)
    requires WellFormed(st) && p in st && st[p].Dir? && p != [] && PathStrings.Normal(p) && Portable(p)
    ensures var r := ExtractEntry(u, root, st, Entry(EntryName(p), Dir(mode)));
      if SearchableAbove(u, st, p) then r == Ok(st) else r.Err?
  {
    hide PackEntryRel, EntryName, MaySearch, MayWrite, Created, CheckPath, SearchableAbove, PathStrings.Normal;
    EntryNameRoundTrip(p);
    forall q | Below(p, q) ensures q in st && st[q].Dir? {
      BelowCases(p, q);
      if StrictlyBelow(p, q) { AncestorsAreDirs(st, p, q); }
    }
    SearchableAboveMeans(u, st, p);
    CheckMeansPassable(u, st, p);
    var bits := Created(mode, u.umask);
    forall q | StrictlyBelow(p, q) ensures MayPass(u, st, p, q, bits) <==> MaySearch(u, st[q]) {
      TowardBelow(p, q);
      BelowCases(p, Toward(p, q));
    }
    forall q ensures q in Prefixes(p) ==> q == p || StrictlyBelow(p, q) { BelowCases(p, q); }
    if MayMake(u, st, p, bits) { assert MkdirAll(u, st, p, bits).value == st; }
  }

  function Entries(items: seq<Item>): (r: seq<Entry>)
    ensures |r| == |items| && forall i :: 0 <= i < |items| ==> r[i] == EntryOf(items[i])
  {
    seq(|items|, i requires 0 <= i < |items| => EntryOf(items[i]))
  }

  function EmptyStage(u: User): Tree { map[[] := DefaultDir(u)] }

  lemma EmptyIsStaged(u: User, items: seq<Item>)
    ensures Staged(u, items, 0, EmptyStage(u))
  {}

  /** The whole archive extracts into an empty stage exactly when every node meets what can be checked
      beforehand; the stage then holds, at and above the packed nodes, what `StageNode` says. */
  lemma {:induction false} ExtractRestores(u: User, root: Loc, t: Tree, items: seq<Item>, k: nat)
    requires FromTree(t, items) && ParentsFirst(items) && k <= |items|
    ensures var r := ExtractFirst(u, root, EmptyStage(u), Entries(items), k);
      && (r.Ok? <==> forall i :: 0 <= i < k ==> Extractable(root, items[i]) && Entered(u, items, i))
      && (r.Ok? ==> Staged(u, items, k, r.value))
  {
    hide ExtractEntry, Extractable, Entered, Staged, FromTree, ParentsFirst, EntryOf;
    if k == 0 {
      EmptyIsStaged(u, items);
    } else {
      ExtractRestores(u, root, t, items, k - 1);
      var before := ExtractFirst(u, root, EmptyStage(u), Entries(items), k - 1);
      if before.Ok? { ExtractStep(u, root, t, items, k - 1, before.value); }
    }
  }

  // ---------- directories that cannot be written ----------

  /** A packed directory whose owner cannot write or search it is made with its own permission bits
      before its entries come, so an archive with anything below it does not extract. */
  lemma UnwritableDirectoryBlocks(u: User, root: Loc, t: Tree, items: seq<Item>, i: nat, j: nat)
    requires FromTree(t, items) && ParentsFirst(items) && i < |items| && j < |items|
    requires items[i].path != [] && !MayWrite(u, Restored(u, items[i].node))
    requires StrictlyBelow(items[j].path, items[i].path)
    ensures ExtractFirst(u, root, EmptyStage(u), Entries(items), |items|).Err?
  {
    hide MayWrite, Restored, StageNode, ExtractFirst, FromTree, Extractable, Staged;
    ExtractRestores(u, root, t, items, |items|);
    BelowCases(items[j].path, items[i].path);
    assert i < j;
    ItemIsRestored(u, items, j + 1, i);
    assert !Entered(u, items, j);
  }

  /** For an ordinary user that is every directory packed with the bits 0555. */
  lemma ReadOnlyBits(u: User)
    requires !u.privileged
    ensures !MayWrite(u, Restored(u, Dir(0x16D)))
  {}

  /** An example: a directory with these bits and one file in it. */
  lemma ReadOnlyDirectoryDoesNotExtract(u: User, root: Loc, d: string, f: string, data: Bytes)
    requires !u.privileged && PathStrings.Normal([d, f])
    ensures var t: Tree := map[[] := Dir(0x1ED), [d] := Dir(0x16D), [d, f] := File(0x1A4, data)];
      var items := [Item([d], t[[d]]), Item([d, f], t[[d, f]])];
      && Collects(t, [[d]], items) && ParentsFirst(items)
      && ExtractFirst(u, root, EmptyStage(u), Entries(items), 2).Err?
  {
    var t: Tree := map[[] := Dir(0x1ED), [d] := Dir(0x16D), [d, f] := File(0x1A4, data)];
    var items := [Item([d], t[[d]]), Item([d, f], t[[d, f]])];
    assert Parent([d]) == [] && Parent([d, f]) == [d];
    assert [d] == [d, f][..1] && [d, f][0] == d && [d][0] == d;
    forall p ensures HasItem(items, p) <==> p in t && Covered([[d]], p) {
      assert items[0].path == [d] && items[1].path == [d, f];
      assert [d] in [[d]] && Below([d], [d]) && Below([d, f], [d]) && !Below([], [d]);
    }
    ReadOnlyBits(u);
    UnwritableDirectoryBlocks(u, root, t, items, 0, 1);
  }
}
