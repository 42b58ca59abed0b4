/** The FUSE read cache (`fuse_cache.go`): a size-bounded, version-checked, least-recently-used
    map from remote paths to file contents. */
module ReadCache {
  import opened Basics
  import opened Versions
  import opened GoSort

  const DEFAULT_MAX_SIZE := 134217728
  const DEFAULT_MAX_FILE := 4194304
  const DEFAULT_TTL := 30000000000

  datatype Line = Line(data: Bytes, version: Version, expires: int)

  /** The calls that change what a later hit may return. */
  datatype Op = Put(path: Path, data: Bytes, version: Version)
              | Invalidate(target: Path)
              | InvalidatePrefix(prefix: Path)

  /** The plain history: the most recent admitted put for `p` since its last invalidation. A put
      larger than `maxFile` is not admitted and leaves the earlier one in force. */
  function Latest(hist: seq<Op>, maxFile: int, p: Path): Option<(Bytes, Version)> {
    if hist == [] then None else
      var rest := hist[..|hist| - 1];
      match hist[|hist| - 1]
      case Put(q, d, v) => if q == p && |d| <= maxFile then Some((d, v)) else Latest(rest, maxFile, p)
      case Invalidate(q) => if q == p then None else Latest(rest, maxFile, p)
      case InvalidatePrefix(q) => if Under(p, q) then None else Latest(rest, maxFile, p)
  }

  lemma LatestAppend(hist: seq<Op>, op: Op)
    ensures (hist + [op])[..|hist|] == hist && (hist + [op])[|hist|] == op
  {}

  // ---------- recency lists ----------

  function Without(order: seq<Path>, gone: set<Path>): seq<Path> {
    if order == [] then []
    else if order[0] in gone then Without(order[1..], gone)
    else [order[0]] + Without(order[1..], gone)
  }

  function Total(items: map<Path, Line>, order: seq<Path>): nat {
    if order == [] then 0
    else (if order[0] in items then |items[order[0]].data| else 0) + Total(items, order[1..])
  }

  ghost predicate Distinct(order: seq<Path>) {
    forall i, j :: 0 <= i < j < |order| ==> order[i] != order[j]
  }

  lemma WithoutMembers(order: seq<Path>, gone: set<Path>)
    ensures forall p :: p in Without(order, gone) <==> p in order && p !in gone
    ensures Distinct(order) ==> Distinct(Without(order, gone))
    ensures |Without(order, gone)| <= |order|
  {
    if order != [] {
      assert order == [order[0]] + order[1..];
      WithoutMembers(order[1..], gone);
    }
  }

  lemma WithoutNothing(order: seq<Path>, gone: set<Path>)
    requires forall p :: p in order ==> p !in gone
    ensures Without(order, gone) == order
  {
    if order == [] {
    } else {
      assert order == [order[0]] + order[1..];
      WithoutNothing(order[1..], gone);
    }
  }

  /** Taking paths out leaves the others in their order. */
  lemma {:induction false} WithoutIsFilter(a: seq<Path>, p: Path, b: seq<Path>, gone: set<Path>)
    ensures Without(a + [p] + b, gone) == Without(a, gone) + (if p in gone then [] else [p]) + Without(b, gone)
    ensures Without([], gone) == []
  {
    var all := a + [p] + b;
    if a == [] {
      assert all[0] == p && all[1..] == b;
    } else {
      assert all[0] == a[0] && all[1..] == a[1..] + [p] + b;
      WithoutIsFilter(a[1..], p, b, gone);
    }
  }

  lemma WithoutTwice(order: seq<Path>, a: set<Path>, b: set<Path>)
    ensures Without(Without(order, a), b) == Without(order, a + b)
  {}

  lemma GoneGrows(order: seq<Path>, all: map<Path, Line>, items: map<Path, Line>, q: Path)
    requires q in items && q in all
    ensures Without(Without(order, all.Keys - items.Keys), {q}) == Without(order, all.Keys - (items - {q}).Keys)
  {
    WithoutTwice(order, all.Keys - items.Keys, {q});
    assert all.Keys - (items - {q}).Keys == (all.Keys - items.Keys) + {q};
  }

  lemma {:induction false} WithoutLast(order: seq<Path>)
    requires Distinct(order) && order != []
    ensures Without(order, {order[|order| - 1]}) == order[..|order| - 1]
  {
    var last := order[|order| - 1];
    if |order| == 1 {
      assert Without(order[1..], {last}) == [];
    } else {
      var rest := order[1..];
      assert Distinct(rest) && rest[|rest| - 1] == last && order[0] != last;
      WithoutLast(rest);
      assert order[..|order| - 1] == [order[0]] + rest[..|rest| - 1];
    }
  }

  lemma TotalFrame(a: map<Path, Line>, b: map<Path, Line>, order: seq<Path>)
    requires forall p :: p in order ==> (p in a <==> p in b) && (p in a ==> a[p].data == b[p].data)
    ensures Total(a, order) == Total(b, order)
  {
    if order == [] {
    } else {
      assert order[0] in order;
      TotalFrame(a, b, order[1..]);
    }
  }

  lemma TotalWithout(items: map<Path, Line>, order: seq<Path>, p: Path)
    requires Distinct(order) && p in order && p in items
    ensures Total(items, Without(order, {p})) == Total(items, order) - |items[p].data|
  {
    if order[0] == p {
      assert forall q :: q in order[1..] ==> q != p;
      WithoutNothing(order[1..], {p});
    } else {
      assert order == [order[0]] + order[1..];
      TotalWithout(items, order[1..], p);
    }
  }

  lemma TotalPrefix(items: map<Path, Line>, order: seq<Path>, k: nat)
    requires k <= |order|
    ensures Total(items, order[..k]) <= Total(items, order)
  {
    if k == 0 {
    } else {
      assert order[..k][1..] == order[1..][..k - 1];
      TotalPrefix(items, order[1..], k - 1);
    }
  }

  /** `kept` is the longest prefix of the recency order that fits. */
  ghost predicate LongestFit(items: map<Path, Line>, recency: seq<Path>, maxSize: int, kept: seq<Path>) {
    && kept <= recency
    && Total(items, kept) <= maxSize
    && forall k :: |kept| < k <= |recency| ==> Total(items, recency[..k]) > maxSize
  }

  lemma LongerPrefixIsLarger(items: map<Path, Line>, recency: seq<Path>, maxSize: int, k: nat)
    requires k <= |recency| && Total(items, recency[..k]) > maxSize
    ensures forall m :: k <= m <= |recency| ==> Total(items, recency[..m]) > maxSize
  {
    forall m | k <= m <= |recency| ensures Total(items, recency[..m]) > maxSize {
      assert recency[..m][..k] == recency[..k];
      TotalPrefix(items, recency[..m], k);
    }
  }

  ghost predicate SubMap(a: map<Path, Line>, b: map<Path, Line>) {
    forall q :: q in a ==> q in b && a[q] == b[q]
  }

  /** Items and recency list are in bijection and `size` is the sum of the entry lengths. */
  ghost predicate Mirrors(items: map<Path, Line>, order: seq<Path>, size: int) {
    && Distinct(order)
    && (forall p :: p in items <==> p in order)
    && size == Total(items, order)
  }

  /** Every entry is what the plain history says. */
  ghost predicate Agrees(items: map<Path, Line>, hist: seq<Op>, maxFile: int) {
    forall p :: p in items ==> Latest(hist, maxFile, p) == Some((items[p].data, items[p].version))
  }

  lemma MirrorsEvict(items: map<Path, Line>, order: seq<Path>, size: int, p: Path)
    requires Mirrors(items, order, size) && p in items
    ensures Mirrors(items - {p}, Without(order, {p}), size - |items[p].data|)
  {
    WithoutMembers(order, {p});
    TotalWithout(items, order, p);
    TotalFrame(items - {p}, items, Without(order, {p}));
  }

  lemma MirrorsStore(items: map<Path, Line>, order: seq<Path>, size: int, p: Path, line: Line)
    requires Mirrors(items, order, size)
    ensures Mirrors(items[p := line], [p] + Without(order, {p}),
                    size - (if p in items then |items[p].data| else 0) + |line.data|)
  {
    hide Total, Without;
    WithoutMembers(order, {p});
    if p in items {
      TotalWithout(items, order, p);
    } else {
      WithoutNothing(order, {p});
    }
    TotalFrame(items, items[p := line], Without(order, {p}));
    FrontOf(items[p := line], p, Without(order, {p}));
  }

  lemma FrontOf(items: map<Path, Line>, p: Path, rest: seq<Path>)
    requires Distinct(rest) && p !in rest && p in items
    ensures Distinct([p] + rest)
    ensures forall q :: q in [p] + rest <==> q == p || q in rest
    ensures Total(items, [p] + rest) == |items[p].data| + Total(items, rest)
  {
    assert ([p] + rest)[1..] == rest;
  }

  lemma AgreesStore(items: map<Path, Line>, hist: seq<Op>, maxFile: int, p: Path, line: Line)
    requires Agrees(items, hist, maxFile) && |line.data| <= maxFile
    ensures Agrees(items[p := line], hist + [Op.Put(p, line.data, line.version)], maxFile)
  {
    LatestAppend(hist, Op.Put(p, line.data, line.version));
  }

  lemma AgreesSubMap(items: map<Path, Line>, all: map<Path, Line>, hist: seq<Op>, maxFile: int)
    requires Agrees(all, hist, maxFile) && SubMap(items, all)
    ensures Agrees(items, hist, maxFile)
  {}

  lemma AgreesOversize(items: map<Path, Line>, hist: seq<Op>, maxFile: int, op: Op)
    requires Agrees(items, hist, maxFile) && op.Put? && |op.data| > maxFile
    ensures Agrees(items, hist + [op], maxFile)
  {
    LatestAppend(hist, op);
  }

  lemma AgreesInvalidate(items: map<Path, Line>, hist: seq<Op>, maxFile: int, p: Path)
    requires Agrees(items, hist, maxFile) && p !in items
    ensures Agrees(items, hist + [Op.Invalidate(p)], maxFile)
  {
    LatestAppend(hist, Op.Invalidate(p));
  }

  lemma AgreesInvalidatePrefix(items: map<Path, Line>, hist: seq<Op>, maxFile: int, prefix: Path)
    requires Agrees(items, hist, maxFile) && forall q :: q in items ==> !Under(q, prefix)
    ensures Agrees(items, hist + [Op.InvalidatePrefix(prefix)], maxFile)
  {
    LatestAppend(hist, Op.InvalidatePrefix(prefix));
  }

  /** One round of the eviction loop: the list loses its last element. */
  lemma EvictLast(all: map<Path, Line>, recency: seq<Path>, maxSize: int,
                  items: map<Path, Line>, order: seq<Path>, size: int)
    requires Mirrors(items, order, size) && SubMap(items, all) && order <= recency
    requires order != [] && size > maxSize
    requires forall k :: |order| < k <= |recency| ==> Total(all, recency[..k]) > maxSize
    ensures order[|order| - 1] in items
    ensures Without(order, {order[|order| - 1]}) == order[..|order| - 1] <= recency
    ensures forall k :: |order| - 1 < k <= |recency| ==> Total(all, recency[..k]) > maxSize
  {
    assert order[|order| - 1] in order;
    WithoutLast(order);
    assert recency[..|order|] == order;
    TotalFrame(items, all, order);
    LongerPrefixIsLarger(all, recency, maxSize, |order|);
  }

  lemma Fits(all: map<Path, Line>, recency: seq<Path>, maxSize: int,
             items: map<Path, Line>, order: seq<Path>, size: int)
    requires Mirrors(items, order, size) && SubMap(items, all) && order <= recency
    requires size <= maxSize || (order == [] && maxSize >= 0)
    requires forall k :: |order| < k <= |recency| ==> Total(all, recency[..k]) > maxSize
    ensures LongestFit(all, recency, maxSize, order) && size <= maxSize
  {
    TotalFrame(items, all, order);
  }

  /** Of the first `i` keys exactly those under the prefix are gone. */
  ghost predicate Walked(items: map<Path, Line>, all: map<Path, Line>, keys: seq<Path>, i: int, prefix: Path)
    requires 0 <= i <= |keys|
  {
    forall q :: q in items <==> q in all && (Under(q, prefix) ==> q !in keys[..i])
  }

  lemma WalkStart(all: map<Path, Line>, keys: seq<Path>, prefix: Path)
    ensures Walked(all, all, keys, 0, prefix)
  {}

  lemma WalkOne(items: map<Path, Line>, all: map<Path, Line>, keys: seq<Path>, i: int, prefix: Path)
    requires 0 <= i < |keys| && Walked(items, all, keys, i, prefix)
    requires keys[i] in all && forall k :: 0 <= k < i ==> keys[k] != keys[i]
    ensures keys[i] in items
    ensures Walked(if Under(keys[i], prefix) then items - {keys[i]} else items, all, keys, i + 1, prefix)
  {
    assert keys[..i + 1] == keys[..i] + [keys[i]];
  }

  lemma WalkDone(items: map<Path, Line>, all: map<Path, Line>, keys: seq<Path>, prefix: Path)
    requires Walked(items, all, keys, |keys|, prefix) && forall q :: q in all ==> q in keys
    ensures forall q :: q in items <==> q in all && !Under(q, prefix)
  {
    assert keys[..|keys|] == keys;
  }

  class FuseReadCache {
    var items: map<Path, Line>
    var order: seq<Path>
    var size: int
    const maxSize: int
    const maxFile: int
    const ttl: int
    ghost var hist: seq<Op>

    ghost predicate Valid()
      reads this
    {
      && Mirrors(items, order, size)
      && Agrees(items, hist, maxFile)
      && 0 <= size <= maxSize
    }

    constructor (maxSize: int, maxFile: int, ttl: int)
      ensures Valid() && hist == [] && items == map[]
      ensures this.maxSize == (if maxSize <= 0 then 0x800_0000 else maxSize)
      ensures this.maxFile == (if maxFile <= 0 then 0x40_0000 else maxFile)
      ensures this.ttl == (if ttl == 0 then 30_000_000_000 else ttl)
    {
      this.maxSize := if maxSize <= 0 then DEFAULT_MAX_SIZE else maxSize;
      this.maxFile := if maxFile <= 0 then DEFAULT_MAX_FILE else maxFile;
      this.ttl := if ttl == 0 then DEFAULT_TTL else ttl;
      items, order, size, hist := map[], [], 0, [];
    }

    method Evict(p: Path)
      requires Mirrors(items, order, size) && p in items
      modifies this`items, this`order, this`size
      ensures Mirrors(items, order, size)
      ensures items == old(items) - {p}
      ensures order == Without(old(order), {p})
      ensures 0 <= size == old(size) - |old(items)[p].data|
    {
      MirrorsEvict(items, order, size, p);
      var gone := items[p];
      items := items - {p};
      order := Without(order, {p});
      size := size - |gone.data|;
    }

    /** A hit is the most recent admitted put for the path since its last invalidation, under a
        version that matches; a stale entry is dropped, a mismatching one is kept. */
    method Get(p: Path, version: Version, now: int) returns (r: Option<Bytes>)
      requires Valid()
      modifies this`items, this`order, this`size
      ensures Valid()
      ensures r.Some? <==> p in old(items) && old(items)[p].version.Matches(version)
                           && !(ttl > 0 && now > old(items)[p].expires)
      ensures r.Some? ==> exists v: Version :: Latest(hist, maxFile, p) == Some((r.value, v)) && v.Matches(version)
      ensures r.Some? ==> items == old(items) && order == [p] + Without(old(order), {p})
      ensures r.None? ==>
        if p in old(items) && old(items)[p].version.Matches(version)
        then items == old(items) - {p} && order == Without(old(order), {p})
        else items == old(items) && order == old(order)
    {
      if p !in items { return None; }
      var line := items[p];
      if !line.version.Matches(version) { return None; }
      if ttl > 0 && now > line.expires {
        Evict(p);
        return None;
      }
      MirrorsStore(items, order, size, p, line);
      assert items[p := line] == items;
      order := [p] + Without(order, {p});
      return Some(line.data);
    }

    /** Evicts from the back until the entries fit. */
    method Trim()
      requires Mirrors(items, order, size) && maxSize >= 0
      modifies this`items, this`order, this`size
      ensures Mirrors(items, order, size) && size <= maxSize
      ensures LongestFit(old(items), old(order), maxSize, order)
      ensures SubMap(items, old(items))
    {
      hide Mirrors, Total, Without, LongestFit;
      ghost var all, recency := items, order;
      while size > maxSize && |order| > 0
        invariant Mirrors(items, order, size) && SubMap(items, all) && order <= recency
        invariant forall k :: |order| < k <= |recency| ==> Total(all, recency[..k]) > maxSize
        decreases |order|
      {
        EvictLast(all, recency, maxSize, items, order, size);
        Evict(order[|order| - 1]);
      }
      Fits(all, recency, maxSize, items, order, size);
    }

    /** After an admitted put the survivors are the longest prefix of the recency order that fits
        in `maxSize`; an oversized put changes nothing. */
    method Put(p: Path, data: Bytes, version: Version, now: int)
      requires Valid()
      modifies this
      ensures Valid() && hist == old(hist) + [Op.Put(p, data, version)]
      ensures |data| > maxFile ==> items == old(items) && order == old(order)
      ensures |data| <= maxFile ==>
        var all := old(items)[p := Line(data, version, now + ttl)];
        LongestFit(all, [p] + Without(old(order), {p}), maxSize, order) && SubMap(items, all)
    {
      if |data| > maxFile {
        AgreesOversize(items, hist, maxFile, Op.Put(p, data, version));
        hist := hist + [Op.Put(p, data, version)];
        return;
      }
      hide Mirrors, Agrees, Total, Without, LongestFit;
      var line := Line(data, version, now + ttl);
      MirrorsStore(items, order, size, p, line);
      AgreesStore(items, hist, maxFile, p, line);
      if p in items {
        size := size - |items[p].data|;
      }
      size := size + |data|;
      items := items[p := line];
      order := [p] + Without(order, {p});
      hist := hist + [Op.Put(p, data, version)];
      ghost var all := items;
      Trim();
      AgreesSubMap(items, all, hist, maxFile);
    }

    method Invalidate(p: Path)
      requires Valid()
      modifies this
      ensures Valid() && hist == old(hist) + [Op.Invalidate(p)]
      ensures items == old(items) - {p} && order == Without(old(order), {p})
    {
      if p in items {
        Evict(p);
      } else {
        WithoutNothing(order, {p});
      }
      AgreesInvalidate(items, hist, maxFile, p);
      hist := hist + [Op.Invalidate(p)];
    }

    method InvalidatePrefix(prefix: Path)
      requires Valid()
      modifies this
      ensures Valid() && hist == old(hist) + [Op.InvalidatePrefix(prefix)]
      ensures SubMap(items, old(items))
      ensures forall q :: q in items <==> q in old(items) && !Under(q, prefix)
      ensures order == Without(old(order), old(items).Keys - items.Keys)
    {
      hide Mirrors, Agrees, Without, Under, Walked;
      ghost var all, recency := items, order;
      var keys := Elements(items.Keys);
      ListingOfSet(keys, items.Keys);
      WithoutNothing(order, {});
      assert all.Keys - items.Keys == {};
      assert Walked(items, all, keys, 0, prefix) by { WalkStart(items, keys, prefix); }
      for i := 0 to |keys|
        invariant Mirrors(items, order, size) && 0 <= size <= old(size) && hist == old(hist)
        invariant SubMap(items, all) && Walked(items, all, keys, i, prefix)
        invariant order == Without(recency, all.Keys - items.Keys)
      {
        var q := keys[i];
        WalkOne(items, all, keys, i, prefix);
        if Under(q, prefix) {
          GoneGrows(recency, all, items, q);
          Evict(q);
        }
      }
      WalkDone(items, all, keys, prefix);
      AgreesSubMap(items, all, hist, maxFile);
      AgreesInvalidatePrefix(items, hist, maxFile, prefix);
      hist := hist + [Op.InvalidatePrefix(prefix)];
    }
  }

  // ---------- what a hit means for the remote file ----------

  /** Every put stored the content that its version names at that path. */
  ghost predicate SoundHistory(hist: seq<Op>, named: map<(Path, int), Bytes>) {
    forall i :: 0 <= i < |hist| && hist[i].Put? && hist[i].version.revision > 0 ==>
      (hist[i].path, hist[i].version.revision) in named
      && named[(hist[i].path, hist[i].version.revision)] == hist[i].data
  }

  /** If a revision determines the content at a path, then whatever history led here, a hit for a
      required revision returns the content that revision names. */
  lemma {:induction false} HitReturnsNamedContent(hist: seq<Op>, maxFile: int, named: map<(Path, int), Bytes>,
                                                  p: Path, required: Version, data: Bytes, v: Version)
    requires SoundHistory(hist, named) && required.revision > 0
    requires Latest(hist, maxFile, p) == Some((data, v)) && v.Matches(required)
    ensures (p, required.revision) in named && named[(p, required.revision)] == data
  {
    var rest := hist[..|hist| - 1];
    var last := hist[|hist| - 1];
    if last.Put? && last.path == p && |last.data| <= maxFile {
    } else {
      assert SoundHistory(rest, named);
      HitReturnsNamedContent(rest, maxFile, named, p, required, data, v);
    }
  }
}
