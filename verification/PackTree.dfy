/** A file tree below the root of a local overlay, and the operating system calls that packing and
    unpacking (`pack.go`) make on it, for the user who owns it. */
module PackTree {
  import opened Basics
  import opened FileTree

  datatype Error =
    | UnsafePath | NotADirectory | PermissionDenied | Refused
    | MissingSource | UnsupportedType | Unreadable
    | BadEntryName | UnsafeLink

  // ---------- permissions ----------

  /** Who runs the program: the owner of everything in the trees, or somebody whom the permission
      bits do not bind; and the bits that are taken away from whatever is created. */
  datatype User = User(privileged: bool, umask: Mode)

  const READ: Mode := 0x100
  const WRITE: Mode := 0x80
  const SEARCH: Mode := 0x40

  predicate Has(u: User, mode: Mode, bit: Mode) { u.privileged || mode & bit != 0 }

  predicate MayList(u: User, n: Node) { n.Dir? && Has(u, n.mode, READ) }

  /** What lies in a directory can be looked up. */
  predicate MaySearch(u: User, n: Node) { n.Dir? && Has(u, n.mode, SEARCH) }

  /** Names can be added to a directory and removed from it. */
  predicate MayWrite(u: User, n: Node) { MaySearch(u, n) && Has(u, n.mode, WRITE) }

  /** The permission bits of something created with `mode`. */
  function Created(mode: Mode, umask: Mode): Mode { mode & 0x1FF & !umask }

  /** The permission bits in numbers: 0400 to list a directory, 0100 to look something up in it, 0300 to
      change it, and none of them for a privileged user. */
  lemma PermissionBits(u: User, n: Node)
    ensures MayList(u, n) <==> n.Dir? && (u.privileged || n.mode & 0x100 == 0x100)
    ensures MaySearch(u, n) <==> n.Dir? && (u.privileged || n.mode & 0x40 == 0x40)
    ensures MayWrite(u, n) <==> n.Dir? && (u.privileged || n.mode & 0xC0 == 0xC0)
  {}

  /** What is created has exactly those of the lowest nine bits asked for that are not masked. */
  lemma CreatedBits(mode: Mode, umask: Mode, bit: Mode)
    requires bit & (bit - 1) == 0 && bit != 0
    ensures Created(mode, umask) & bit != 0 <==> bit <= 0x100 && mode & bit != 0 && umask & bit == 0
  {}

  // ---------- the check for symbolic links ----------

  /** `ensureNoSymlinkPath` from the prefix of length `k` on. A missing prefix ends the walk, unless
      the one before cannot be searched. */
  function CheckFrom(u: User, t: Tree, p: Loc, k: nat): Option<Error>
    requires k <= |p|
    decreases |p| - k
  {
    if k > 0 && p[..k - 1] in t && !MaySearch(u, t[p[..k - 1]]) then
      Some(if t[p[..k - 1]].Dir? then PermissionDenied else NotADirectory)
    else if p[..k] !in t then None
    else if t[p[..k]].Link? then Some(UnsafePath)
    else if k == |p| then None
    else CheckFrom(u, t, p, k + 1)
  }

  function CheckPath(u: User, t: Tree, p: Loc): Option<Error> { CheckFrom(u, t, p, 0) }

  /** `p` is no link, and what lies above `p` can be searched as far as it exists. */
  ghost predicate Passable(u: User, t: Tree, p: Loc) {
    && (p in t ==> !t[p].Link?)
    && forall q :: q in t && StrictlyBelow(p, q) ==> MaySearch(u, t[q])
  }

  /** The prefixes of `p` from length `k` on let the check pass. */
  ghost predicate PassFrom(u: User, t: Tree, p: Loc, k: nat)
    requires k <= |p|
    decreases |p| - k
  {
    && (p[..k] in t ==> if k < |p| then MaySearch(u, t[p[..k]]) else !t[p[..k]].Link?)
    && (k < |p| ==> PassFrom(u, t, p, k + 1))
  }

  lemma {:induction false} MissingPasses(u: User, t: Tree, p: Loc, k: nat)
    requires WellFormed(t) && k <= |p| && p[..k] !in t
    ensures PassFrom(u, t, p, k)
    decreases |p| - k
  {
    if k == |p| {
    } else {
      assert Parent(p[..k + 1]) == p[..k];
      MissingPasses(u, t, p, k + 1);
    }
  }

  lemma {:induction false} CheckFromMeans(u: User, t: Tree, p: Loc, k: nat)
    requires WellFormed(t) && k <= |p| && (k > 0 ==> p[..k - 1] in t)
    ensures CheckFrom(u, t, p, k).None? <==> (k > 0 ==> MaySearch(u, t[p[..k - 1]])) && PassFrom(u, t, p, k)
    decreases |p| - k
  {
    if p[..k] !in t {
      MissingPasses(u, t, p, k);
    } else if k < |p| {
      CheckFromMeans(u, t, p, k + 1);
    }
  }

  lemma {:induction false} PassFromMeans(u: User, t: Tree, p: Loc, k: nat)
    requires k <= |p|
    ensures PassFrom(u, t, p, k) <==>
      && (p in t ==> !t[p].Link?)
      && forall q :: q in t && StrictlyBelow(p, q) && k <= |q| ==> MaySearch(u, t[q])
    decreases |p| - k
  {
    assert p[..|p|] == p;
    assert k < |p| ==> StrictlyBelow(p, p[..k]);
    assert forall q :: StrictlyBelow(p, q) && |q| == k ==> q == p[..k];
    if k == |p| {
    } else {
      PassFromMeans(u, t, p, k + 1);
    }
  }

  /** The check passes exactly on the passable paths. */
  lemma CheckMeansPassable(u: User, t: Tree, p: Loc)
    requires WellFormed(t)
    ensures CheckPath(u, t, p).None? <==> Passable(u, t, p)
  {
    CheckFromMeans(u, t, p, 0);
    PassFromMeans(u, t, p, 0);
  }

  /** The prefix of length `j` exists, and what is above it is there and can be searched. */
  ghost predicate Arrives(u: User, t: Tree, p: Loc, j: nat) {
    j <= |p| && p[..j] in t && forall i :: 0 <= i < j ==> p[..i] in t && MaySearch(u, t[p[..i]])
  }

  ghost predicate LinkAt(u: User, t: Tree, p: Loc, j: nat) { Arrives(u, t, p, j) && t[p[..j]].Link? }

  /** What stops the walk at the prefix of length `j`. */
  ghost predicate StopsAt(u: User, t: Tree, p: Loc, j: nat, error: Error) {
    && Arrives(u, t, p, j)
    && match error
       case UnsafePath => t[p[..j]].Link?
       case NotADirectory => j < |p| && (t[p[..j]].File? || t[p[..j]].Other?)
       case PermissionDenied => j < |p| && t[p[..j]].Dir? && !u.privileged && t[p[..j]].mode & 0x40 == 0
       case _ => false
  }

  lemma {:induction false} CheckFromReports(u: User, t: Tree, p: Loc, k: nat, error: Error)
    requires k <= |p| && (k > 0 ==> p[..k - 1] in t && !t[p[..k - 1]].Link?)
    requires forall i :: 0 <= i < k - 1 ==> p[..i] in t && MaySearch(u, t[p[..i]])
    ensures CheckFrom(u, t, p, k) == Some(error) <==> exists j :: k - 1 <= j && StopsAt(u, t, p, j, error)
    decreases |p| - k
  {
    if k > 0 && !MaySearch(u, t[p[..k - 1]]) {
      var found := if t[p[..k - 1]].Dir? then PermissionDenied else NotADirectory;
      assert StopsAt(u, t, p, k - 1, found);
    } else if p[..k] !in t {
    } else if t[p[..k]].Link? {
      assert StopsAt(u, t, p, k, UnsafePath);
    } else if k < |p| {
      CheckFromReports(u, t, p, k + 1, error);
    }
  }

  /** What the check reports: a link where the walk gets to one, a missing directory where it gets to a file
      before the end, a missing permission where it gets to a directory before the end that cannot be
      searched; and it reports nothing else. */
  lemma CheckReports(u: User, t: Tree, p: Loc, error: Error)
    ensures CheckPath(u, t, p) == Some(error) <==> exists j :: StopsAt(u, t, p, j, error)
  {
    CheckFromReports(u, t, p, 0, error);
  }

  lemma LinkIsReported(u: User, t: Tree, p: Loc, j: nat)
    requires LinkAt(u, t, p, j)
    ensures CheckPath(u, t, p) == Some(UnsafePath)
  {
    CheckReports(u, t, p, UnsafePath);
    assert StopsAt(u, t, p, j, UnsafePath);
  }

  /** `ensureNoSymlinkPath`: walks down from the root and refuses links on the way. */
  method EnsureNoSymlinkPath(u: User, t: Tree, p: Loc) returns (error: Option<Error>)
    ensures error == CheckPath(u, t, p)
  {
    for k := 0 to |p| + 1
      invariant k <= |p| ==> CheckFrom(u, t, p, k) == CheckPath(u, t, p)
      invariant k == |p| + 1 ==> CheckPath(u, t, p) == None
    {
      if k > 0 && p[..k - 1] in t && !MaySearch(u, t[p[..k - 1]]) {
        return Some(if t[p[..k - 1]].Dir? then PermissionDenied else NotADirectory);
      }
      if p[..k] !in t { return None; }
      if t[p[..k]].Link? { return Some(UnsafePath); }
    }
    return None;
  }

  // ---------- operating system calls ----------

  function Prefixes(p: Loc): (s: set<Loc>)
    ensures forall q :: q in s <==> Below(p, q)
  {
    var s := set k | 0 <= k <= |p| :: p[..k];
    assert forall q :: Below(p, q) ==> q == p[..|q|];
    s
  }

  /** The nodes strictly above `p` that exist can be searched. */
  predicate SearchableAbove(u: User, t: Tree, p: Loc) {
    forall q :: q in Prefixes(p) && q != p && q in t ==> MaySearch(u, t[q])
  }

  lemma SearchableAboveMeans(u: User, t: Tree, p: Loc)
    ensures SearchableAbove(u, t, p) <==> forall q :: q in t && StrictlyBelow(p, q) ==> MaySearch(u, t[q])
  {
    forall q ensures q in Prefixes(p) && q != p <==> StrictlyBelow(p, q) {
      BelowCases(p, q);
    }
  }

  /** The node at `q` when directories with `mode` are made where there is none. */
  function NodeOr(t: Tree, q: Loc, mode: Mode): Node { if q in t then t[q] else Dir(mode) }

  /** On the way from `q` to `p` a directory can be entered, and written if the next is missing. */
  predicate MayPass(u: User, t: Tree, p: Loc, q: Loc, mode: Mode) {
    StrictlyBelow(p, q) ==>
      && MaySearch(u, NodeOr(t, q, mode))
      && (Toward(p, q) !in t ==> MayWrite(u, NodeOr(t, q, mode)))
  }

  predicate MayMake(u: User, t: Tree, p: Loc, mode: Mode) {
    forall q :: q in Prefixes(p) ==> NodeOr(t, q, mode).Dir? && MayPass(u, t, p, q, mode)
  }

  /** `os.MkdirAll`, where no prefix is a link; `mode` as it is after the umask. */
  function MkdirAll(u: User, t: Tree, p: Loc, mode: Mode): (r: Result<Tree, Error>)
    ensures r.Ok? <==> MayMake(u, t, p, mode)
    ensures r.Ok? ==> forall q :: q in r.value <==> q in t || Below(p, q)
    ensures r.Ok? ==> forall q :: q in r.value ==> r.value[q] == NodeOr(t, q, mode)
  {
    if !MayMake(u, t, p, mode) then Err(Refused)
    else Ok(map q | q in t.Keys + Prefixes(p) :: NodeOr(t, q, mode))
  }

  function Without(t: Tree, p: Loc): (r: Tree)
    ensures forall q :: q in r <==> q in t && !Below(q, p)
    ensures forall q :: q in r ==> r[q] == t[q]
  {
    map q | q in t && !Below(q, p) :: t[q]
  }

  predicate HasEntries(t: Tree, q: Loc) { exists c :: c in t && StrictlyBelow(c, q) }

  /** The contents of `q` can be removed, as far as `q` itself is concerned. */
  predicate MayEmpty(u: User, t: Tree, q: Loc)
    requires q in t
  {
    HasEntries(t, q) ==> MayList(u, t[q]) && MayWrite(u, t[q])
  }

  /** Everything at and below `p` can be removed. A directory with entries has to be listed, and so
      does the one it is in. */
  predicate MayRemove(u: User, t: Tree, p: Loc) {
    && SearchableAbove(u, t, p)
    && (p in t && p != [] ==>
          && Parent(p) in t && MayWrite(u, t[Parent(p)])
          && (HasEntries(t, p) ==> MayList(u, t[Parent(p)]))
          && forall q :: q in t && Below(q, p) ==> MayEmpty(u, t, q))
  }

  /** `os.RemoveAll`: a missing target is no error, one that cannot be looked up is. */
  function RemoveAll(u: User, t: Tree, p: Loc): (r: Result<Tree, Error>)
    ensures r.Ok? <==> MayRemove(u, t, p)
    ensures r.Ok? ==> r.value == Without(t, p)
  {
    if MayRemove(u, t, p) then Ok(Without(t, p)) else Err(Refused)
  }

  /** A directory with all of these bits. */
  predicate DirWith(n: Node, bits: Mode) { n.Dir? && n.mode & bits == bits }

  lemma OrdinaryBits(u: User, n: Node)
    requires !u.privileged
    ensures MaySearch(u, n) <==> DirWith(n, 0x40)
    ensures MayWrite(u, n) <==> DirWith(n, 0xC0)
    ensures MayList(u, n) <==> DirWith(n, 0x100)
    ensures MayList(u, n) && MayWrite(u, n) <==> DirWith(n, 0x1C0)
  {}

  /** Removing needs, for an ordinary user: the bit 0100 on everything above, 0300 on the directory the node
      is in, 0400 on that one too if something is below the node, and 0700 on every directory at or below
      it that is not empty. What is not at or below `p` stays as it was. */
  lemma RemovalNeeds(u: User, t: Tree, p: Loc)
    requires WellFormed(t) && p != [] && !u.privileged
    ensures var r, up := RemoveAll(u, t, p), p[..|p| - 1];
      && (r.Ok? <==>
            && (forall q :: q in t && q < p ==> DirWith(t[q], 0x40))
            && (p in t ==>
                  && DirWith(t[up], 0xC0) && ((exists c :: c in t && p < c) ==> DirWith(t[up], 0x100))
                  && forall q, c :: q in t && c in t && p <= q < c ==> DirWith(t[q], 0x1C0)))
      && (r.Ok? ==> forall q :: (q in r.value <==> q in t && !(p <= q)) && (q in r.value ==> r.value[q] == t[q]))
  {
    hide MayEmpty, MayList, MayWrite, MaySearch, SearchableAbove, HasEntries, DirWith;
    SearchableAboveMeans(u, t, p);
    forall q | q in t ensures MaySearch(u, t[q]) <==> DirWith(t[q], 0x40) { OrdinaryBits(u, t[q]); }
    if p in t {
      hide WellFormed;
      OrdinaryBits(u, t[Parent(p)]);
      EntriesBelow(t, p);
      forall q | q in t ensures MayEmpty(u, t, q) <==> forall c :: c in t && q < c ==> DirWith(t[q], 0x1C0) {
        EmptyingNeeds(u, t, q);
      }
    }
  }

  lemma EntriesBelow(t: Tree, q: Loc)
    ensures HasEntries(t, q) <==> exists c :: c in t && q < c
  {
    if c :| c in t && q < c { assert StrictlyBelow(c, q); }
  }

  lemma EmptyingNeeds(u: User, t: Tree, q: Loc)
    requires q in t && !u.privileged
    ensures MayEmpty(u, t, q) <==> forall c :: c in t && q < c ==> DirWith(t[q], 0x1C0)
  {
    hide HasEntries, DirWith, MayList, MayWrite;
    EntriesBelow(t, q);
    OrdinaryBits(u, t[q]);
  }

  /** `os.OpenFile` for a new file and `os.Symlink`, where nothing is at `p`. */
  function CreateLeaf(u: User, t: Tree, p: Loc, node: Node): (r: Result<Tree, Error>)
    ensures r.Ok? <==> SearchableAbove(u, t, p) && Parent(p) in t && MayWrite(u, t[Parent(p)])
    ensures r.Ok? ==> r.value == t[p := node]
  {
    if SearchableAbove(u, t, p) && Parent(p) in t && MayWrite(u, t[Parent(p)]) then Ok(t[p := node])
    else Err(Refused)
  }

  datatype Moved = Moved(from: Tree, into: Tree)

  /** A directory may only replace an empty directory, anything else only something that is not a
      directory. */
  predicate MayReplace(from: Tree, into: Tree, p: Loc)
    requires p in from
  {
    p in into ==> from[p].Dir? == into[p].Dir? && (into[p].Dir? ==> !HasEntries(into, p))
  }

  /** Moving a directory to another parent rewrites its own entry for that parent. */
  predicate MayMoveNode(u: User, n: Node) { n.Dir? ==> Has(u, n.mode, WRITE) }

  lemma MoveBit(u: User, n: Node)
    requires !u.privileged
    ensures MayMoveNode(u, n) <==> (n.Dir? ==> DirWith(n, 0x80))
  {}

  predicate MayRename(u: User, from: Tree, into: Tree, p: Loc)
    requires p in from && p != []
  {
    && SearchableAbove(u, from, p) && Parent(p) in from && MayWrite(u, from[Parent(p)])
    && SearchableAbove(u, into, p) && Parent(p) in into && MayWrite(u, into[Parent(p)])
    && MayMoveNode(u, from[p]) && MayReplace(from, into, p)
  }

  /** `os.Rename` of the node at `p` of one tree to the same place in another. */
  function Rename(u: User, from: Tree, into: Tree, p: Loc): (r: Result<Moved, Error>)
    requires p in from && p != []
    ensures r.Ok? <==> MayRename(u, from, into, p)
    ensures r.Ok? ==> r.value.from == Without(from, p)
    ensures r.Ok? ==> forall q :: q in r.value.into <==> if Below(q, p) then q in from else q in into
    ensures r.Ok? ==>
      forall q :: q in r.value.into ==> r.value.into[q] == if Below(q, p) then from[q] else into[q]
  {
    if !MayRename(u, from, into, p) then Err(Refused)
    else
      var kept := Without(into, p);
      var moved := map q | q in from && Below(q, p) :: from[q];
      Ok(Moved(Without(from, p), kept + moved))
  }

  /** Moving needs, for an ordinary user: the bit 0100 on everything above in both trees, 0300 on the two
      directories concerned, 0200 on the node itself if it is a directory; and what is replaced must be an
      empty directory if the node is one, and no directory if it is none. The node then goes from the one
      tree to the other with all below it, and nothing else changes but what it replaces. */
  lemma MoveNeeds(u: User, from: Tree, into: Tree, p: Loc)
    requires WellFormed(from) && WellFormed(into) && p in from && p != [] && !u.privileged
    ensures var r, up := Rename(u, from, into, p), p[..|p| - 1];
      && (r.Ok? <==>
            && (forall q :: q in from && q < p ==> DirWith(from[q], 0x40)) && DirWith(from[up], 0xC0)
            && (forall q :: q in into && q < p ==> DirWith(into[q], 0x40))
            && up in into && DirWith(into[up], 0xC0)
            && (from[p].Dir? ==> DirWith(from[p], 0x80))
            && (p in into ==> (from[p].Dir? <==> into[p].Dir?)
                              && (into[p].Dir? ==> forall c :: c in into ==> !(p < c))))
      && (r.Ok? ==> forall q ::
            && (q in r.value.from <==> q in from && !(p <= q))
            && (q in r.value.from ==> r.value.from[q] == from[q])
            && (q in r.value.into <==> if p <= q then q in from else q in into)
            && (q in r.value.into ==> r.value.into[q] == if p <= q then from[q] else into[q]))
  {
    hide MayWrite, MaySearch, SearchableAbove, HasEntries, DirWith, WellFormed;
    assert Parent(p) in from by { BelowParent(p, Parent(p)); AncestorsAreDirs(from, p, Parent(p)); }
    SearchableAboveMeans(u, from, p);
    SearchableAboveMeans(u, into, p);
    forall n: Node ensures MaySearch(u, n) <==> DirWith(n, 0x40) { OrdinaryBits(u, n); }
    forall n: Node ensures MayWrite(u, n) <==> DirWith(n, 0xC0) { OrdinaryBits(u, n); }
    assert MayMoveNode(u, from[p]) <==> (from[p].Dir? ==> DirWith(from[p], 0x80)) by { MoveBit(u, from[p]); }
    EntriesBelow(into, p);
  }

  lemma MkdirAllKeepsForm(u: User, t: Tree, p: Loc, mode: Mode)
    requires WellFormed(t) && MkdirAll(u, t, p, mode).Ok?
    ensures WellFormed(MkdirAll(u, t, p, mode).value)
  {
    var r := MkdirAll(u, t, p, mode).value;
    forall q | q in r && q != [] ensures Parent(q) in r && r[Parent(q)].Dir? {
      if q in t {
        assert t[Parent(q)].Dir?;
      } else {
        assert Parent(q) <= q <= p;
        assert Below(p, Parent(q));
        assert Parent(q) in Prefixes(p);
      }
    }
  }
}
