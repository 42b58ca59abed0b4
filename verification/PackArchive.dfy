/** Packing (`pack.go`): which sources are packed, which entries the archive gets and in which
    order, and which paths an unpack will replace. */
module PackArchive {
  import opened Basics
  import opened GoSort
  import opened FileTree
  import opened PackTree
  import PathStrings

  // ---------- archive paths as strings ----------

  /** The archive path of a location. */
  function ArchivePath(p: Loc): string { PathStrings.Rooted(p) }

  /** The order of Go strings. */
  predicate StringLeq(a: string, b: string) {
    a == "" || (b != "" && (a[0] < b[0] || (a[0] == b[0] && StringLeq(a[1..], b[1..]))))
  }

  /** A string comes before another exactly when it is a prefix of it or has the smaller character where
      they first differ. */
  lemma StringLeqMeans(a: string, b: string)
    ensures StringLeq(a, b) <==> a <= b || exists i :: DiffersAt(a, b, i)
  {
    if a != "" && b != "" && a[0] == b[0] {
      StringLeqMeans(a[1..], b[1..]);
      assert a == [a[0]] + a[1..] && b == [b[0]] + b[1..];
      if a[1..] <= b[1..] { assert a == b[..|a|]; }
      if a <= b { assert a[1..] == b[1..][..|a| - 1]; }
      DiffersLater(a, b);
    } else if a != "" && b != "" {
      SameStart(a, b);
    }
  }

  /** The first string has the smaller character where the two first differ. */
  ghost predicate DiffersAt(a: string, b: string, i: nat) {
    i < |a| && i < |b| && a[..i] == b[..i] && a[i] < b[i]
  }

  lemma DiffersLater(a: string, b: string)
    requires a != "" && b != "" && a[0] == b[0]
    ensures (exists i :: DiffersAt(a, b, i)) <==> exists i :: DiffersAt(a[1..], b[1..], i)
  {
    if i: nat :| DiffersAt(a[1..], b[1..], i) {
      assert a[..i + 1] == [a[0]] + a[1..][..i] && b[..i + 1] == [b[0]] + b[1..][..i];
      assert DiffersAt(a, b, i + 1);
    }
    if i: nat :| DiffersAt(a, b, i) {
      assert i > 0;
      assert a[1..][..i - 1] == a[..i][1..] && b[1..][..i - 1] == b[..i][1..];
      assert DiffersAt(a[1..], b[1..], i - 1);
    }
  }

  lemma SameStart(a: string, b: string)
    requires a != "" && b != ""
    ensures a <= b || (exists i :: i > 0 && DiffersAt(a, b, i)) ==> a[0] == b[0]
    ensures a[0] < b[0] ==> DiffersAt(a, b, 0)
  {
    if i: nat :| i > 0 && DiffersAt(a, b, i) { assert a[..i][0] == b[..i][0]; }
  }

  lemma StringLeqTotal(a: string, b: string)
    ensures StringLeq(a, b) || StringLeq(b, a)
  {
    if a != "" && b != "" { StringLeqTotal(a[1..], b[1..]); }
  }

  lemma StringLeqTransitive(a: string, b: string, c: string)
    requires StringLeq(a, b) && StringLeq(b, c)
    ensures StringLeq(a, c)
  {
    if a != "" && b != "" && c != "" && a[0] == b[0] == c[0] { StringLeqTransitive(a[1..], b[1..], c[1..]); }
  }

  lemma StringLeqAntisymmetric(a: string, b: string)
    requires StringLeq(a, b) && StringLeq(b, a)
    ensures a == b
  {
    if a == "" {
    } else {
      StringLeqAntisymmetric(a[1..], b[1..]);
      assert a == [a[0]] + a[1..] && b == [b[0]] + b[1..];
    }
  }

  lemma PrefixIsSmaller(a: string, b: string)
    requires a <= b
    ensures StringLeq(a, b)
  {
    if a == "" {
    } else {
      PrefixIsSmaller(a[1..], b[1..]);
    }
  }

  function CountSlashes(s: string): nat {
    if s == "" then 0 else (if s[0] == '/' then 1 else 0) + CountSlashes(s[1..])
  }

  lemma CountConcat(a: string, b: string)
    ensures CountSlashes(a + b) == CountSlashes(a) + CountSlashes(b)
  {
    if a == "" {
      assert a + b == b;
    } else {
      assert (a + b)[1..] == a[1..] + b;
      CountConcat(a[1..], b);
    }
  }

  lemma NoSlashes(s: string)
    requires '/' !in s
    ensures CountSlashes(s) == 0
  {
    if s == "" {
    } else {
      NoSlashes(s[1..]);
    }
  }

  /** The number of slashes is the depth. */
  lemma {:induction false} SlashesAreDepth(p: Loc)
    requires PathStrings.Normal(p) && p != []
    ensures CountSlashes(ArchivePath(p)) == |p|
  {
    var up, name := p[..|p| - 1], p[|p| - 1];
    NoSlashes(name);
    CountConcat(PathStrings.Cat(up), "/" + name);
    assert PathStrings.Cat(up) + ("/" + name) == PathStrings.Cat(up) + "/" + name;
    CountConcat("/", name);
    assert CountSlashes("/") == 1;
    if up == [] {
      assert CountSlashes("") == 0;
    } else {
      SlashesAreDepth(up);
    }
  }

  // ---------- nested paths ----------

  /** The string test for a path below another one. */
  predicate NestedBelow(path: string, root: string) {
    path != root && HasPrefix(path, PathStrings.TrimSlashSuffix(root) + "/")
  }

  lemma TrimmedRoot(q: Loc)
    requires PathStrings.Normal(q)
    ensures PathStrings.TrimSlashSuffix(ArchivePath(q)) == PathStrings.Cat(q)
  {
    if q != [] { PathStrings.CatStarts(q); }
  }

  lemma ExtendedPath(q: Loc, p: Loc)
    requires PathStrings.Normal(p) && StrictlyBelow(p, q)
    ensures ArchivePath(p) == PathStrings.Cat(q) + PathStrings.Cat(p[|q|..])
    ensures PathStrings.Cat(q) + "/" <= ArchivePath(p) && |ArchivePath(q)| < |ArchivePath(p)|
  {
    var tail := p[|q|..];
    assert p == q + tail;
    PathStrings.CatConcat(q, tail);
    PathStrings.CatStarts(tail);
    assert PathStrings.Cat(tail)[..1] == "/";
    assert tail[0] != "" by { assert tail[0] == p[|q|]; }
    LongerThanSlash(tail);
  }

  lemma LongerThanSlash(p: Loc)
    requires p != [] && p[0] != ""
    ensures |PathStrings.Cat(p)| >= 2
  {
    if |p| == 1 {
    } else {
      LongerThanSlash(p[..|p| - 1]);
    }
  }

  /** The string test finds exactly the paths below. */
  lemma NestedMeansBelow(p: Loc, q: Loc)
    requires PathStrings.Normal(p) && PathStrings.Normal(q)
    ensures NestedBelow(ArchivePath(p), ArchivePath(q)) <==> StrictlyBelow(p, q)
  {
    TrimmedRoot(q);
    if StrictlyBelow(p, q) {
      ExtendedPath(q, p);
    } else if p == [] {
      if q != [] { LongerThanSlash(q); }
    } else if NestedBelow(ArchivePath(p), ArchivePath(q)) {
      NestedThenBelow(p, q);
    }
  }

  lemma NestedThenBelow(p: Loc, q: Loc)
    requires PathStrings.Normal(p) && PathStrings.Normal(q) && p != []
    requires HasPrefix(PathStrings.Cat(p), PathStrings.Cat(q) + "/")
    ensures q == p || StrictlyBelow(p, q)
  {
    hide PathStrings.Split, PathStrings.Cat;
    var path, front := PathStrings.Cat(p), PathStrings.Cat(q);
    var rest := path[|front| + 1..];
    assert path == front + "/" + rest;
    PathStrings.SplitConcat(front, rest);
    PathStrings.SplitCat(p);
    PathStrings.SplitCat(q);
    DropFirst(p, q, PathStrings.Split(rest));
  }

  lemma DropFirst(p: seq<string>, q: seq<string>, r: seq<string>)
    requires [""] + p == [""] + q + r
    ensures q == p || q < p
  {
    assert p == ([""] + p)[1..] == ([""] + q + r)[1..] == q + r;
    assert r == [] ==> q + r == q;
  }

  // ---------- sources ----------

  /** The order of `normalizePackSources`: shorter paths first, equally long ones by name. */
  predicate ShorterFirst(p: Loc, q: Loc) {
    if |ArchivePath(p)| == |ArchivePath(q)| then StringLeq(ArchivePath(p), ArchivePath(q))
    else |ArchivePath(p)| < |ArchivePath(q)|
  }

  predicate ByName(p: Loc, q: Loc) { StringLeq(ArchivePath(p), ArchivePath(q)) }

  lemma SourceOrders()
    ensures TotalOrder(ShorterFirst) && TotalOrder(ByName)
  {
    forall p: Loc, q: Loc ensures (ShorterFirst(p, q) || ShorterFirst(q, p)) && (ByName(p, q) || ByName(q, p)) {
      StringLeqTotal(ArchivePath(p), ArchivePath(q));
    }
    forall p: Loc, q: Loc, r: Loc ensures ShorterFirst(p, q) && ShorterFirst(q, r) ==> ShorterFirst(p, r) {
      if StringLeq(ArchivePath(p), ArchivePath(q)) && StringLeq(ArchivePath(q), ArchivePath(r)) {
        StringLeqTransitive(ArchivePath(p), ArchivePath(q), ArchivePath(r));
      }
    }
    forall p: Loc, q: Loc, r: Loc ensures ByName(p, q) && ByName(q, r) ==> ByName(p, r) {
      if ByName(p, q) && ByName(q, r) { StringLeqTransitive(ArchivePath(p), ArchivePath(q), ArchivePath(r)); }
    }
  }

  ghost predicate AllNormal(s: seq<Loc>) { forall p :: p in s ==> PathStrings.Normal(p) }

  /** The paths of the list that have no proper ancestor in it. */
  ghost predicate Topmost(s: seq<Loc>, p: Loc) {
    p in s && forall q :: q in s ==> !StrictlyBelow(p, q)
  }

  ghost predicate Distinct(s: seq<Loc>) { forall i, j :: 0 <= i < j < |s| ==> s[i] != s[j] }

  predicate Covered(s: seq<Loc>, p: Loc) { exists q :: q in s && Below(p, q) }

  /** Some path of the list has its string as a proper prefix of this one. */
  method NestedInSome(out: seq<Loc>, p: Loc) returns (nested: bool)
    requires PathStrings.Normal(p) && AllNormal(out)
    ensures nested <==> exists q :: q in out && StrictlyBelow(p, q)
  {
    nested := false;
    for i := 0 to |out|
      invariant nested <==> exists q :: q in out[..i] && StrictlyBelow(p, q)
    {
      PrefixStep(out, i);
      NestedMeansBelow(p, out[i]);
      if NestedBelow(ArchivePath(p), ArchivePath(out[i])) { nested := true; }
    }
    assert out[..|out|] == out;
  }

  method SortStrings(list: seq<Loc>) returns (out: seq<Loc>)
    requires Distinct(list)
    ensures Distinct(out) && Sorted(ByName, out) && forall p :: p in out <==> p in list
  {
    SourceOrders();
    out := Sort(ByName, list);
    SameElements(out, list);
    PermutedDistinct(list, out);
  }

  /** Sources below other sources are dropped, and so are repetitions; what is left is exactly the
      topmost sources, sorted by name. */
  method NormalizePackSources(sources: seq<Loc>) returns (out: seq<Loc>)
    requires AllNormal(sources)
    ensures forall p :: p in out <==> Topmost(sources, p)
    ensures Distinct(out) && Sorted(ByName, out)
  {
    hide Topmost, Distinct, Sorted, AllNormal;
    SourceOrders();
    var list := Sort(ShorterFirst, sources);
    SameElements(list, sources);
    var kept: seq<Loc> := [];
    NothingListed();
    for i := 0 to |list|
      invariant forall p :: p in kept <==> p in list[..i] && Topmost(sources, p)
      invariant Distinct(kept)
    {
      PrefixStep(list, i);
      var p := list[i];
      KeptAreNormal(sources, list, i, kept);
      var nested := NestedInSome(kept, p);
      if p !in kept {
        KeptDecides(sources, list, i, kept);
        if !nested { kept := AddNew(kept, p); }
      }
    }
    assert list[..|list|] == list;
    TopmostIsAsked(sources);
    out := SortStrings(kept);
  }

  lemma TopmostIsAsked(asked: seq<Loc>)
    ensures forall s :: Topmost(asked, s) ==> s in asked
  {}

  lemma KeptAreNormal(sources: seq<Loc>, list: seq<Loc>, i: nat, kept: seq<Loc>)
    requires AllNormal(sources) && i < |list| && forall x :: x in list <==> x in sources
    requires forall p :: p in kept <==> p in list[..i] && Topmost(sources, p)
    ensures AllNormal(kept) && PathStrings.Normal(list[i])
  {
    assert list[i] in list;
  }

  function AddNew(out: seq<Loc>, p: Loc): (r: seq<Loc>)
    requires p !in out
    ensures Distinct(out) ==> Distinct(r)
    ensures forall q :: q in r <==> q in out || q == p
  {
    out + [p]
  }

  /** When the sources come shortest first, a source has a proper ancestor among all of them iff it
      has one among those kept so far. */
  lemma KeptDecides(sources: seq<Loc>, list: seq<Loc>, i: nat, kept: seq<Loc>)
    requires AllNormal(sources) && Sorted(ShorterFirst, list) && i < |list| && forall x :: x in list <==> x in sources
    requires forall p :: p in kept <==> p in list[..i] && Topmost(sources, p)
    ensures Topmost(sources, list[i]) <==> !exists q :: q in kept && StrictlyBelow(list[i], q)
  {
    var p := list[i];
    if q :| q in sources && StrictlyBelow(p, q) {
      var top := TopAncestor(sources, q);
      assert top <= q < p;
      assert StrictlyBelow(p, top);
      ExtendedPath(top, p);
      var j :| 0 <= j < |list| && list[j] == top;
      assert j > i ==> ShorterFirst(list[i], list[j]);
      assert top in list[..i];
    }
  }

  lemma TopAncestor(sources: seq<Loc>, p: Loc) returns (top: Loc)
    requires p in sources
    ensures Topmost(sources, top) && Below(p, top)
    decreases |p|
  {
    if q :| q in sources && StrictlyBelow(p, q) {
      top := TopAncestor(sources, q);
      assert top <= q < p;
    } else {
      top := p;
    }
  }

  lemma PermutedDistinct(a: seq<Loc>, b: seq<Loc>)
    requires Distinct(a) && multiset(a) == multiset(b)
    ensures Distinct(b)
  {
    DistinctMeansOnce(a);
    ListingOfSet(b, Of(a));
  }

  lemma DistinctMeansOnce(a: seq<Loc>)
    requires Distinct(a)
    ensures multiset(a) == multiset(Of(a))
  {
    if a == [] {
    } else {
      var init, last := a[..|a| - 1], a[|a| - 1];
      assert a == init + [last];
      DistinctMeansOnce(init);
      assert Of(a) == Of(init) + {last};
      assert last !in init;
    }
  }

  /** Every source asked for is covered by the topmost ones, and no two of those are nested. */
  lemma TopmostCover(sources: seq<Loc>, out: seq<Loc>)
    requires forall p :: p in out <==> Topmost(sources, p)
    ensures forall p :: Covered(out, p) <==> Covered(sources, p)
    ensures forall p, q :: p in out && q in out && Below(p, q) ==> p == q
  {
    forall p ensures Covered(out, p) <==> Covered(sources, p) {
      if q :| q in sources && Below(p, q) {
        var top := TopAncestor(sources, q);
        assert top <= q <= p;
        assert Below(p, top);
      }
    }
  }

  // ---------- items ----------

  datatype Item = Item(path: Loc, node: Node)

  /** The order of `collectPackItems`: fewer slashes first, then by name. */
  predicate ShallowFirst(a: Item, b: Item) {
    var x, y := ArchivePath(a.path), ArchivePath(b.path);
    if CountSlashes(x) == CountSlashes(y) then StringLeq(x, y) else CountSlashes(x) < CountSlashes(y)
  }

  lemma ItemOrder()
    ensures TotalOrder(ShallowFirst)
  {
    forall a: Item, b: Item ensures ShallowFirst(a, b) || ShallowFirst(b, a) {
      StringLeqTotal(ArchivePath(a.path), ArchivePath(b.path));
    }
    forall a: Item, b: Item, c: Item ensures ShallowFirst(a, b) && ShallowFirst(b, c) ==> ShallowFirst(a, c) {
      var x, y, z := ArchivePath(a.path), ArchivePath(b.path), ArchivePath(c.path);
      if StringLeq(x, y) && StringLeq(y, z) { StringLeqTransitive(x, y, z); }
    }
  }

  /** By depth, and by name within one depth. */
  lemma ShallowFirstMeans(a: Item, b: Item)
    requires PathStrings.Normal(a.path) && PathStrings.Normal(b.path)
    ensures ShallowFirst(a, b) <==>
      |a.path| < |b.path| || (|a.path| == |b.path| && StringLeq(ArchivePath(a.path), ArchivePath(b.path)))
  {
    hide StringLeq, PathStrings.Cat, PathStrings.Normal;
    DepthIsCounted(a.path);
    DepthIsCounted(b.path);
    assert [] == a.path[..0] == b.path[..0];
    if |a.path| < |b.path| && a.path == [] { PrefixOfLonger(a.path, b.path); }
    if |b.path| < |a.path| && b.path == [] {
      PrefixOfLonger(b.path, a.path);
      if StringLeq(ArchivePath(a.path), ArchivePath(b.path)) {
        StringLeqAntisymmetric(ArchivePath(a.path), ArchivePath(b.path));
      }
    }
  }

  lemma DepthIsCounted(p: Loc)
    requires PathStrings.Normal(p)
    ensures CountSlashes(ArchivePath(p)) == if p == [] then 1 else |p|
  {
    if p == [] {
      assert CountSlashes("/") == 1;
    } else {
      SlashesAreDepth(p);
    }
  }

  predicate HasItem(items: seq<Item>, p: Loc) { exists i :: 0 <= i < |items| && items[i].path == p }

  ghost predicate DistinctPaths(items: seq<Item>) {
    forall i, j :: 0 <= i < j < |items| ==> items[i].path != items[j].path
  }

  /** No item comes before an item above it, and none is there twice. */
  ghost predicate ParentsFirst(items: seq<Item>) {
    forall i, j :: 0 <= i < j < |items| ==> !Below(items[i].path, items[j].path)
  }

  lemma SortedParentsFirst(items: seq<Item>)
    requires Sorted(ShallowFirst, items) && DistinctPaths(items)
    requires forall i :: 0 <= i < |items| ==> PathStrings.Normal(items[i].path)
    ensures ParentsFirst(items)
  {
    forall i, j | 0 <= i < j < |items| ensures !Below(items[i].path, items[j].path) {
      assert ShallowFirst(items[i], items[j]);
      if StrictlyBelow(items[i].path, items[j].path) { ParentIsShallower(items[i], items[j]); }
      BelowCases(items[i].path, items[j].path);
    }
  }

  lemma ParentIsShallower(a: Item, b: Item)
    requires PathStrings.Normal(a.path) && PathStrings.Normal(b.path) && StrictlyBelow(a.path, b.path)
    ensures !ShallowFirst(a, b)
  {
    SlashesAreDepth(a.path);
    PrefixOfLonger(b.path, a.path);
    if b.path != [] {
      SlashesAreDepth(b.path);
    } else {
      assert CountSlashes("/") == 1;
    }
    var x, y := ArchivePath(a.path), ArchivePath(b.path);
    if StringLeq(x, y) { StringLeqAntisymmetric(x, y); }
  }

  /** The items of a collection: exactly the nodes at and below the sources, each once. */
  ghost predicate Collects(t: Tree, sources: seq<Loc>, items: seq<Item>) {
    && DistinctPaths(items)
    && (forall i :: 0 <= i < |items| ==>
        items[i].path in t && items[i].node == t[items[i].path] && !items[i].node.Other?)
    && (forall p :: HasItem(items, p) <==> p in t && Covered(sources, p))
  }

  /** The walk gets past `p`: a directory can be listed and what it lists can be looked up, and
      nothing is of an unsupported kind. */
  predicate MayCollect(u: User, t: Tree, p: Loc)
    requires p in t
  {
    && !t[p].Other?
    && (t[p].Dir? ==> MayList(u, t[p]) && (HasEntries(t, p) ==> MaySearch(u, t[p])))
  }

  /** A socket, a device or a pipe stops the walk. So does, for an ordinary user, a directory without the
      bit 0400, and one without the bit 0100 unless it is empty. */
  lemma CollectNeeds(u: User, t: Tree, p: Loc)
    requires p in t
    ensures !MayCollect(u, t, p) <==>
      || t[p].Other?
      || (!u.privileged && t[p].Dir?
          && (t[p].mode & 0x100 == 0 || (t[p].mode & 0x40 == 0 && exists c :: c in t && p < c)))
  {
    assert forall c :: c in t ==> (StrictlyBelow(c, p) <==> p < c);
  }

  ghost predicate Collectible(u: User, t: Tree, sources: seq<Loc>) {
    && (forall s :: s in sources ==> s in t && SearchableAbove(u, t, s))
    && (forall p :: p in t && Covered(sources, p) ==> MayCollect(u, t, p))
  }

  ghost function Of<T>(list: seq<T>): set<T> { set x | x in list }

  function Sub(t: Tree, source: Loc): (s: set<Loc>)
    ensures forall p :: p in s <==> p in t && Below(p, source)
  {
    set p | p in t && Below(p, source)
  }

  /** What the loop over the sources has collected so far. */
  ghost predicate Collected(t: Tree, items: seq<Item>, done: set<Loc>) {
    && DistinctPaths(items)
    && (forall i :: 0 <= i < |items| ==>
        items[i].path in t && items[i].node == t[items[i].path] && !items[i].node.Other?)
    && (forall p :: HasItem(items, p) <==> p in done)
  }

  lemma SeenIsDone(t: Tree, items: seq<Item>, done: set<Loc>, p: Loc)
    requires Collected(t, items, done)
    ensures HasItem(items, p) <==> p in done
  {}

  lemma AddItem(t: Tree, items: seq<Item>, done: set<Loc>, p: Loc)
    requires Collected(t, items, done) && p in t && !t[p].Other? && p !in done
    ensures Collected(t, items + [Item(p, t[p])], done + {p})
  {
    var items' := items + [Item(p, t[p])];
    assert !HasItem(items, p);
    assert items'[|items|].path == p;
    forall q ensures HasItem(items', q) <==> q in done + {p} {
      if HasItem(items, q) {
        var i :| 0 <= i < |items| && items[i].path == q;
        assert items'[i].path == q;
      }
    }
  }

  lemma OfStep(done: set<Loc>, list: seq<Loc>, i: nat)
    requires i < |list|
    ensures done + Of(list[..i + 1]) == done + Of(list[..i]) + {list[i]}
  {
    PrefixStep(list, i);
  }

  /** What the walk does for each node it meets. */
  method CollectList(u: User, t: Tree, list: seq<Loc>, items: seq<Item>, ghost done: set<Loc>)
    returns (r: Result<seq<Item>, Error>)
    requires Collected(t, items, done) && forall p :: p in list ==> p in t
    ensures r.Ok? ==> Collected(t, r.value, done + Of(list))
    ensures r.Ok? <==> forall p :: p in list ==> MayCollect(u, t, p)
  {
    hide Collected, HasItem, HasEntries, MayList, MaySearch, Of;
    var out := items;
    assert done + Of(list[..0]) == done by { NothingOf<Loc>(); }
    for i := 0 to |list|
      invariant Collected(t, out, done + Of(list[..i]))
      invariant forall k :: 0 <= k < i ==> MayCollect(u, t, list[k])
    {
      var p := list[i];
      assert p in list && (t[p].Other? ==> !MayCollect(u, t, p));
      if t[p].Other? { return Err(UnsupportedType); }
      if !MayCollect(u, t, p) { return Err(PermissionDenied); }
      OfStep(done, list, i);
      ghost var before := done + Of(list[..i]);
      SeenIsDone(t, out, before, p);
      if HasItem(out, p) {
        assert before + {p} == before;
      } else {
        AddItem(t, out, before, p);
        out := out + [Item(p, t[p])];
      }
    }
    assert list[..|list|] == list;
    return Ok(out);
  }

  lemma NothingOf<T>()
    ensures Of<T>([]) == {}
  {}

  /** One source: the node itself, or the walk below a directory. */
  method WalkSource(u: User, t: Tree, source: Loc, items: seq<Item>, ghost done: set<Loc>)
    returns (r: Result<seq<Item>, Error>)
    requires WellFormed(t) && source in t && Collected(t, items, done)
    ensures r.Ok? ==> Collected(t, r.value, done + Sub(t, source))
    ensures r.Ok? <==> forall p :: p in Sub(t, source) ==> MayCollect(u, t, p)
  {
    hide WellFormed, Collected, MayCollect;
    NothingBelowLeaf(t, source);
    var list := [source];
    if t[source].Dir? { list := Elements(Sub(t, source)); }
    assert forall p :: p in list <==> p in Sub(t, source) by {
      if t[source].Dir? { ListingOfSet(list, Sub(t, source)); }
    }
    assert Of(list) == Sub(t, source);
    r := CollectList(u, t, list, items, done);
  }

  lemma NothingBelowLeaf(t: Tree, source: Loc)
    requires WellFormed(t) && source in t
    ensures !t[source].Dir? ==> forall p :: p in Sub(t, source) <==> p == source
  {
    forall p | p in Sub(t, source) && p != source ensures t[source].Dir? {
      BelowCases(p, source);
      AncestorsAreDirs(t, p, source);
    }
  }

  ghost function SubAll(t: Tree, sources: seq<Loc>): (s: set<Loc>)
    ensures forall p :: p in s <==> p in t && Covered(sources, p)
  {
    set p | p in t && Covered(sources, p)
  }

  /** Nothing above `p` is a symbolic link. */
  ghost predicate NoLinkAbove(t: Tree, p: Loc) {
    forall q :: q in t && StrictlyBelow(p, q) ==> !t[q].Link?
  }

  /** The collection succeeds exactly when every source can be looked up and the walk gets past
      everything below; the entries are exactly the nodes at and below the sources, each once, and
      sorted so that a directory comes before what is in it. */
  method CollectPackItems(u: User, t: Tree, sources: seq<Loc>) returns (r: Result<seq<Item>, Error>)
    requires WellFormed(t) && forall s :: s in sources ==> NoLinkAbove(t, s)
    ensures r.Ok? <==> Collectible(u, t, sources)
    ensures r.Ok? ==> Collects(t, sources, r.value) && Sorted(ShallowFirst, r.value)
  {
    hide MayCollect, SearchableAbove, WellFormed, Collected, Collects;
    var items: seq<Item> := [];
    NothingCollected(t);
    for i := 0 to |sources|
      invariant Collected(t, items, SubAll(t, sources[..i]))
      invariant forall s :: s in sources[..i] ==> s in t && SearchableAbove(u, t, s)
      invariant forall p :: p in SubAll(t, sources[..i]) ==> MayCollect(u, t, p)
    {
      PrefixStep(sources, i);
      var source := sources[i];
      if !SearchableAbove(u, t, source) { return Err(PermissionDenied); }
      if source !in t { return Err(MissingSource); }
      var walked := WalkSource(u, t, source, items, SubAll(t, sources[..i]));
      assert SubAll(t, sources[..i + 1]) == SubAll(t, sources[..i]) + Sub(t, source);
      if walked.Err? {
        assert exists p :: p in Sub(t, source) && !MayCollect(u, t, p) && Covered(sources, p);
        return Err(walked.error);
      }
      items := walked.value;
    }
    assert sources[..|sources|] == sources;
    items := SortItems(t, sources, items);
    return Ok(items);
  }

  lemma NothingCollected(t: Tree)
    ensures Collected(t, [], SubAll(t, []))
  {}

  method SortItems(t: Tree, sources: seq<Loc>, items: seq<Item>) returns (sorted: seq<Item>)
    requires Collected(t, items, SubAll(t, sources))
    ensures Collects(t, sources, sorted) && Sorted(ShallowFirst, sorted)
  {
    ItemOrder();
    sorted := Sort(ShallowFirst, items);
    PermutedCollection(t, sources, items, sorted);
  }

  lemma PermutedCollection(t: Tree, sources: seq<Loc>, a: seq<Item>, b: seq<Item>)
    requires Collected(t, a, SubAll(t, sources)) && multiset(a) == multiset(b)
    ensures Collects(t, sources, b)
  {
    SameElements(a, b);
    forall i | 0 <= i < |b| ensures b[i] in a {
      assert b[i] in b;
    }
    forall p ensures HasItem(a, p) <==> HasItem(b, p) {
      if HasItem(a, p) { var i :| 0 <= i < |a| && a[i].path == p; assert a[i] in b; }
      if HasItem(b, p) { var i :| 0 <= i < |b| && b[i].path == p; assert b[i] in a; }
    }
    DistinctItemsOnce(a);
    ListingOfSet(b, Of(a));
    forall i, j | 0 <= i < j < |b| ensures b[i].path != b[j].path {
      assert b[i] in a && b[j] in a && b[i] != b[j];
    }
  }

  lemma DistinctItemsOnce(a: seq<Item>)
    requires DistinctPaths(a)
    ensures multiset(a) == multiset(Of(a))
  {
    if a == [] {
    } else {
      var init, last := a[..|a| - 1], a[|a| - 1];
      assert a == init + [last];
      DistinctItemsOnce(init);
      assert Of(a) == Of(init) + {last};
      assert last !in init;
    }
  }

  // ---------- replace paths ----------

  /** What the caller asked to pack: the paths a previous archive replaced, explicit paths, names to
      pack wherever they are found, whether everything is packed, and where the search starts. */
  datatype Request = Request(previous: seq<Loc>, explicit: seq<Loc>, names: seq<string>, allLocal: bool, prefix: Loc)

  ghost predicate NormalRequest(req: Request) {
    && AllNormal(req.previous) && AllNormal(req.explicit) && PathStrings.Normal(req.prefix)
    && forall n :: n in req.names ==> PathStrings.Normal([n])
  }

  /** A source is there because everything is packed, or for its name, or explicitly. */
  ghost predicate AskedFor(req: Request, s: Loc) {
    req.allLocal || s in req.explicit || (s != [] && s[|s| - 1] in req.names)
  }

  function Parents(req: Request, sources: seq<Loc>): (r: set<Loc>)
    ensures forall d :: d in r <==>
      if sources == [] then d != [] && d == req.prefix else exists s :: s in sources && d == Parent(s)
  {
    if sources == [] then (if req.prefix == [] then {} else {req.prefix})
    else
      var r := set s | s in sources :: Parent(s);
      r
  }

  /** `p` is one of the names next to a packed source. */
  ghost predicate NamedSibling(req: Request, sources: seq<Loc>, p: Loc) {
    p != [] && Parent(p) in Parents(req, sources) && p[|p| - 1] in req.names
  }

  ghost predicate Replaced(req: Request, sources: seq<Loc>, p: Loc) {
    && p != []
    && (p in req.previous || (req.allLocal && p in sources) || p in req.explicit || NamedSibling(req, sources, p))
  }

  /** The paths to replace, one by one: what the last archive replaced, what is named explicitly, the
      sources themselves when everything is packed, and next to each source every one of the names; without
      a source, the names below the place where the search started, unless that is the root. Never the
      root itself. */
  lemma ReplacedExactly(req: Request, sources: seq<Loc>, p: Loc)
    ensures Replaced(req, sources, p) <==>
      && p != []
      && (|| p in req.previous || p in req.explicit || (req.allLocal && p in sources)
          || (exists n, s :: n in req.names && s in sources && p == (if s == [] then [] else s[..|s| - 1]) + [n])
          || (sources == [] && req.prefix != [] && exists n :: n in req.names && p == req.prefix + [n]))
  {
    if p != [] { SiblingExactly(req, sources, p); }
  }

  lemma SiblingExactly(req: Request, sources: seq<Loc>, p: Loc)
    requires p != []
    ensures NamedSibling(req, sources, p) <==>
      || (exists n, s :: n in req.names && s in sources && p == (if s == [] then [] else s[..|s| - 1]) + [n])
      || (sources == [] && req.prefix != [] && exists n :: n in req.names && p == req.prefix + [n])
  {
    var up, name := Parent(p), p[|p| - 1];
    if NamedSibling(req, sources, p) {
      assert p == up + [name];
      if sources != [] { var s :| s in sources && up == Parent(s); }
    }
    if n, s :| n in req.names && s in sources && p == (if s == [] then [] else s[..|s| - 1]) + [n] {
      LastOf(Parent(s), n);
    }
    if n :| n in req.names && p == req.prefix + [n] { LastOf(req.prefix, n); }
  }

  lemma LastOf(d: Loc, name: string)
    ensures Parent(d + [name]) == d && (d + [name])[|d|] == name
  {}

  lemma ReplacedIsNormal(req: Request, sources: seq<Loc>, p: Loc)
    requires NormalRequest(req) && AllNormal(sources) && Replaced(req, sources, p)
    ensures PathStrings.Normal(p)
  {
    if NamedSibling(req, sources, p) {
      var up, name := Parent(p), p[|p| - 1];
      assert PathStrings.Normal(up) by {
        if sources != [] { var s :| s in sources && up == Parent(s); }
      }
      assert PathStrings.Normal([name]) && [name][0] == name;
      assert p == up + [name];
    }
  }

  function Add(out: seq<Loc>, p: Loc): (r: seq<Loc>)
    ensures Distinct(out) ==> Distinct(r)
    ensures forall q :: q in r <==> q in out || (q != [] && q == p)
  {
    if p == [] || p in out then out else AddNew(out, p)
  }

  method AddAll(out: seq<Loc>, list: seq<Loc>) returns (r: seq<Loc>)
    requires Distinct(out)
    ensures Distinct(r) && forall p :: p in r <==> p in out || (p != [] && p in list)
  {
    r := out;
    for i := 0 to |list|
      invariant Distinct(r) && forall p :: p in r <==> p in out || (p != [] && p in list[..i])
    {
      PrefixStep(list, i);
      r := Add(r, list[i]);
    }
    assert list[..|list|] == list;
  }

  /** `p` is the location of one of the names in a directory. */
  predicate IsChild(p: Loc, d: Loc, names: seq<string>) { p != [] && Parent(p) == d && p[|p| - 1] in names }

  lemma OneMoreChild(d: Loc, names: seq<string>, j: nat)
    requires j < |names|
    ensures forall p :: IsChild(p, d, names[..j + 1]) <==> IsChild(p, d, names[..j]) || p == d + [names[j]]
  {
    forall p ensures IsChild(p, d, names[..j + 1]) <==> IsChild(p, d, names[..j]) || p == d + [names[j]] {
      PrefixStep(names, j);
      if p != [] { assert p == Parent(p) + [p[|p| - 1]]; }
    }
  }

  lemma NoChild(d: Loc)
    ensures forall p :: !IsChild(p, d, [])
  {}

  /** Adds the names below one directory. */
  method AddChildren(list: seq<Loc>, d: Loc, names: seq<string>) returns (r: seq<Loc>)
    requires Distinct(list)
    ensures Distinct(r) && forall p :: p in r <==> p in list || IsChild(p, d, names)
  {
    hide IsChild, Distinct, Add;
    r := list;
    assert forall p :: !IsChild(p, d, names[..0]) by { NoChild(d); }
    for j := 0 to |names|
      invariant Distinct(r)
      invariant forall p :: p in r <==> p in list || IsChild(p, d, names[..j])
    {
      OneMoreChild(d, names, j);
      r := Add(r, d + [names[j]]);
    }
    assert names[..|names|] == names;
  }

  /** The replace paths: sorted by name, without repetition and without the root, whatever the order
      in which the parents are walked; none at all for the profile that replaces nothing. */
  method PackReplacePaths(none: bool, req: Request, sources: seq<Loc>) returns (out: seq<Loc>)
    ensures none ==> out == []
    ensures !none ==> forall p :: p in out <==> Replaced(req, sources, p)
    ensures Distinct(out) && Sorted(ByName, out)
  {
    hide Sorted, Distinct, IsChild, Add;
    if none {
      NothingListed();
      return [];
    }
    NothingListed();
    var list := AddAll([], req.previous);
    if req.allLocal { list := AddAll(list, sources); }
    list := AddAll(list, req.explicit);
    ghost var fixed := list;
    var parents := Elements(Parents(req, sources));
    ListingOfSet(parents, Parents(req, sources));
    for i := 0 to |parents|
      invariant Distinct(list)
      invariant forall p :: p in list <==>
        p in fixed || (Parent(p) in parents[..i] && IsChild(p, Parent(p), req.names))
    {
      ChildOfParent(parents[i], req.names);
      PrefixStep(parents, i);
      list := AddChildren(list, parents[i], req.names);
    }
    assert parents[..|parents|] == parents;
    out := SortStrings(list);
    forall p ensures NamedSibling(req, sources, p) <==> Parent(p) in parents && IsChild(p, Parent(p), req.names) {
      SiblingIsChild(req, sources, p);
    }
  }

  lemma NothingListed()
    ensures Distinct([]) && Sorted(ByName, [])
  {}

  lemma ChildOfParent(d: Loc, names: seq<string>)
    ensures forall p :: IsChild(p, d, names) <==> Parent(p) == d && IsChild(p, Parent(p), names)
  {}

  lemma SiblingIsChild(req: Request, sources: seq<Loc>, p: Loc)
    ensures NamedSibling(req, sources, p) <==> Parent(p) in Parents(req, sources) && IsChild(p, Parent(p), req.names)
  {}

  /** The paths an unpack removes first and then installs: the replace paths, or the sources when
      there are none. */
  function InstallPaths(replace: seq<Loc>, sources: seq<Loc>): seq<Loc> { if replace == [] then sources else replace }

  /** No path comes before one above it, and none is there twice. */
  ghost predicate AncestorsFirst(paths: seq<Loc>) {
    forall i, j :: 0 <= i < j < |paths| ==> !Below(paths[i], paths[j])
  }

  lemma SortedNamesAncestorsFirst(paths: seq<Loc>)
    requires AllNormal(paths) && Distinct(paths) && Sorted(ByName, paths)
    ensures AncestorsFirst(paths)
  {
    forall i, j | 0 <= i < j < |paths| ensures !Below(paths[i], paths[j]) {
      var p, q := paths[i], paths[j];
      assert ByName(p, q);
      if Below(p, q) {
        assert q < p || q == p;
        ExtendedPath(q, p);
        TrimmedRoot(q);
        PrefixOfLonger(q, p);
        StringLeqAntisymmetric(ArchivePath(p), ArchivePath(q));
      }
    }
  }

  lemma PrefixOfLonger(q: Loc, p: Loc)
    requires PathStrings.Normal(p) && StrictlyBelow(p, q)
    ensures StringLeq(ArchivePath(q), ArchivePath(p)) && ArchivePath(q) != ArchivePath(p)
  {
    ExtendedPath(q, p);
    assert PathStrings.Cat(q) <= ArchivePath(p);
    assert ArchivePath(q) <= ArchivePath(p);
    PrefixIsSmaller(ArchivePath(q), ArchivePath(p));
  }

  /** The replaced paths are installed, or the sources if nothing is replaced. */
  ghost predicate Installs(none: bool, req: Request, sources: seq<Loc>, p: Loc) {
    if none || forall q :: !Replaced(req, sources, q) then p in sources else Replaced(req, sources, p)
  }

  /** The paths an unpack replaces are listed ancestors first and contain every source. */
  lemma InstallPathsCoverSources(none: bool, req: Request, sources: seq<Loc>, replace: seq<Loc>)
    requires AllNormal(sources) && Distinct(sources) && Sorted(ByName, sources) && [] !in sources
    requires forall s :: s in sources ==> AskedFor(req, s)
    requires AllNormal(replace) && Distinct(replace) && Sorted(ByName, replace)
    requires if none then replace == [] else forall p :: p in replace <==> Replaced(req, sources, p)
    ensures AncestorsFirst(InstallPaths(replace, sources))
    ensures forall s :: s in sources ==> s in InstallPaths(replace, sources)
    ensures forall p :: p in InstallPaths(replace, sources) <==> Installs(none, req, sources, p)
  {
    SortedNamesAncestorsFirst(InstallPaths(replace, sources));
    if !none {
      forall s | s in sources ensures Replaced(req, sources, s) {
        assert AskedFor(req, s);
      }
    }
  }
}
