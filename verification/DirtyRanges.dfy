/** Dirty byte ranges of an open handle (`fuse_mount.go`): their canonical form, the amount of
    dirty data, and the fixed-size parts a patch has to upload. */
module DirtyRanges {
  import opened GoSort
  import opened Division

  datatype Range = Range(start: int, end: int)

  function Max(a: int, b: int): int { if a > b then a else b }
  function Min(a: int, b: int): int { if a < b then a else b }

  // ---------- what a list of ranges denotes ----------

  /** Byte `b` lies in `r` once `r` is clipped at zero. */
  predicate InRange(r: Range, b: int) { Max(0, r.start) <= b < r.end }

  /** Position `x` is touched by `r`; an empty range touches exactly one position. */
  predicate AtPoint(r: Range, x: int) { Max(0, r.start) <= x <= r.end }

  ghost predicate HasByte(rs: seq<Range>, b: int) { exists r :: r in rs && InRange(r, b) }

  ghost predicate HasPoint(rs: seq<Range>, x: int) { exists r :: r in rs && AtPoint(r, x) }

  ghost predicate SameCover(a: seq<Range>, b: seq<Range>) {
    && (forall x :: HasByte(a, x) <==> HasByte(b, x))
    && (forall x :: HasPoint(a, x) <==> HasPoint(b, x))
  }

  /** Sorted, clipped, and each range starts strictly beyond the end of the previous one. */
  ghost predicate Canonical(rs: seq<Range>) {
    && (forall i :: 0 <= i < |rs| ==> 0 <= rs[i].start <= rs[i].end)
    && (forall i, j :: 0 <= i < j < |rs| ==> rs[i].end < rs[j].start)
  }

  lemma CoverAppend(s: seq<Range>, r: Range)
    ensures forall x :: HasByte(s + [r], x) <==> HasByte(s, x) || InRange(r, x)
    ensures forall x :: HasPoint(s + [r], x) <==> HasPoint(s, x) || AtPoint(r, x)
  {
    forall x
      ensures HasByte(s + [r], x) <==> HasByte(s, x) || InRange(r, x)
      ensures HasPoint(s + [r], x) <==> HasPoint(s, x) || AtPoint(r, x)
    {
      assert forall q :: q in s + [r] <==> q in s || q == r;
    }
  }

  lemma CoverPermutation(a: seq<Range>, b: seq<Range>)
    requires multiset(a) == multiset(b)
    ensures SameCover(a, b)
  {
    SameElements(a, b);
  }

  /** A canonical list is determined by the bytes and the positions it covers. */
  lemma {:induction false} CanonicalUnique(a: seq<Range>, b: seq<Range>)
    requires Canonical(a) && Canonical(b) && SameCover(a, b)
    ensures a == b
    decreases |a|
  {
    if a == [] {
      if b != [] { StartIsPoint(b); }
    } else {
      StartIsPoint(a);
      assert b != [];
      StartIsPoint(b);
      FirstPoint(a, b[0].start);
      FirstPoint(b, a[0].start);
      FirstEnd(a, b);
      FirstEnd(b, a);
      assert a[0] == b[0];
      TailCover(a);
      TailCover(b);
      CanonicalUnique(a[1..], b[1..]);
      assert a == [a[0]] + a[1..] && b == [b[0]] + b[1..];
    }
  }

  lemma StartIsPoint(a: seq<Range>)
    requires Canonical(a) && a != []
    ensures HasPoint(a, a[0].start)
  {
    assert a[0] in a && AtPoint(a[0], a[0].start);
  }

  lemma FirstPoint(a: seq<Range>, x: int)
    requires Canonical(a) && a != [] && HasPoint(a, x)
    ensures a[0].start <= x
  {}

  lemma FirstGap(a: seq<Range>)
    requires Canonical(a) && a != []
    ensures !HasByte(a, a[0].end)
  {}

  lemma FirstEnd(a: seq<Range>, b: seq<Range>)
    requires Canonical(a) && Canonical(b) && SameCover(a, b)
    requires a != [] && b != [] && a[0].start == b[0].start
    ensures b[0].end <= a[0].end
  {
    FirstGap(a);
    assert b[0] in b && !InRange(b[0], a[0].end);
  }

  lemma TailCover(a: seq<Range>)
    requires Canonical(a) && a != []
    ensures Canonical(a[1..])
    ensures forall x :: HasByte(a[1..], x) <==> HasByte(a, x) && x > a[0].end
    ensures forall x :: HasPoint(a[1..], x) <==> HasPoint(a, x) && x > a[0].end
  {
    assert a == [a[0]] + a[1..];
    forall x
      ensures HasByte(a[1..], x) <==> HasByte(a, x) && x > a[0].end
      ensures HasPoint(a[1..], x) <==> HasPoint(a, x) && x > a[0].end
    {
      assert forall r :: r in a <==> r == a[0] || r in a[1..];
      assert forall r :: r in a[1..] ==> r.start > a[0].end;
    }
  }

  // ---------- reference definition: add one interval at a time ----------

  ghost function AddRange(c: seq<Range>, r: Range): (out: seq<Range>)
    requires Canonical(c) && 0 <= r.start <= r.end
    ensures Canonical(out) && out != []
    ensures out[0].start >= if c == [] then r.start else Min(c[0].start, r.start)
    decreases |c|
  {
    if c == [] then [r]
    else
      TailCanonical(c);
      if r.end < c[0].start then
        FrontCanonical(r, c);
        [r] + c
      else if c[0].end < r.start then
        FrontCanonical(c[0], AddRange(c[1..], r));
        [c[0]] + AddRange(c[1..], r)
      else AddRange(c[1..], Range(Min(c[0].start, r.start), Max(c[0].end, r.end)))
  }

  lemma TailCanonical(c: seq<Range>)
    requires Canonical(c) && c != []
    ensures Canonical(c[1..]) && 0 <= c[0].start <= c[0].end
    ensures |c| > 1 ==> c[0].end < c[1..][0].start
  {}

  lemma FrontCanonical(r: Range, c: seq<Range>)
    requires Canonical(c) && 0 <= r.start <= r.end && (c != [] ==> r.end < c[0].start)
    ensures Canonical([r] + c)
  {
    forall j | 0 <= j < |c| ensures r.end < c[j].start {
      assert j > 0 ==> c[0].end < c[j].start;
    }
  }

  lemma {:induction false} AddRangeCover(c: seq<Range>, r: Range)
    requires Canonical(c) && 0 <= r.start <= r.end
    ensures forall x :: HasByte(AddRange(c, r), x) <==> HasByte(c, x) || InRange(r, x)
    ensures forall x :: HasPoint(AddRange(c, r), x) <==> HasPoint(c, x) || AtPoint(r, x)
    decreases |c|
  {
    hide HasByte, HasPoint, Canonical;
    var out := AddRange(c, r);
    HeadCover(out);
    if c == [] {
      NothingCovered();
      assert out[1..] == [];
    } else {
      TailCanonical(c);
      HeadCover(c);
      if r.end < c[0].start {
        assert out[1..] == c;
      } else if c[0].end < r.start {
        assert out[1..] == AddRange(c[1..], r);
        AddRangeCover(c[1..], r);
      } else {
        AddRangeCover(c[1..], Range(Min(c[0].start, r.start), Max(c[0].end, r.end)));
      }
    }
  }

  lemma NothingCovered()
    ensures forall x :: !HasByte([], x) && !HasPoint([], x)
  {}

  lemma HeadCover(a: seq<Range>)
    requires a != []
    ensures forall x :: HasByte(a, x) <==> InRange(a[0], x) || HasByte(a[1..], x)
    ensures forall x :: HasPoint(a, x) <==> AtPoint(a[0], x) || HasPoint(a[1..], x)
  {
    assert forall r :: r in a <==> r == a[0] || r in a[1..];
  }

  /** The canonical form of a list of ranges. */
  ghost function Merged(rs: seq<Range>): (out: seq<Range>)
    ensures Canonical(out) && SameCover(out, rs)
  {
    if rs == [] then [] else
      var last := rs[|rs| - 1];
      assert rs == rs[..|rs| - 1] + [last];
      CoverAppend(rs[..|rs| - 1], last);
      if last.end < Max(0, last.start) then Merged(rs[..|rs| - 1])
      else
        var clipped := Range(Max(0, last.start), last.end);
        AddRangeCover(Merged(rs[..|rs| - 1]), clipped);
        AddRange(Merged(rs[..|rs| - 1]), clipped)
  }

  /** Two lists have the same canonical form exactly when they cover the same bytes and
      positions; so order, splitting and overlap of the input are irrelevant. */
  lemma MergedEqualIffSameCover(a: seq<Range>, b: seq<Range>)
    ensures Merged(a) == Merged(b) <==> SameCover(a, b)
  {
    if SameCover(a, b) { CanonicalUnique(Merged(a), Merged(b)); }
  }

  lemma MergedIdempotent(rs: seq<Range>)
    ensures Merged(Merged(rs)) == Merged(rs)
  {
    MergedEqualIffSameCover(Merged(rs), rs);
  }

  lemma MergedPermutation(a: seq<Range>, b: seq<Range>)
    requires multiset(a) == multiset(b)
    ensures Merged(a) == Merged(b)
  {
    CoverPermutation(a, b);
    MergedEqualIffSameCover(a, b);
  }

  lemma MergedOfCanonical(c: seq<Range>)
    requires Canonical(c)
    ensures Merged(c) == c
  {
    CanonicalUnique(Merged(c), c);
  }

  // ---------- the program's merge, compacting in place ----------

  predicate RangeLeq(a: Range, b: Range) {
    if a.start == b.start then a.end <= b.end else a.start < b.start
  }

  lemma RangeLeqTotal()
    ensures TotalOrder(RangeLeq)
  {}

  method CleanRanges(ranges: seq<Range>) returns (cleaned: seq<Range>)
    ensures SameCover(cleaned, ranges)
    ensures forall r :: r in cleaned ==> 0 <= r.start <= r.end
  {
    cleaned := [];
    for i := 0 to |ranges|
      invariant SameCover(cleaned, ranges[..i])
      invariant forall r :: r in cleaned ==> 0 <= r.start <= r.end
    {
      var r := ranges[i];
      if r.start < 0 { r := r.(start := 0); }
      assert ranges[..i + 1] == ranges[..i] + [ranges[i]];
      CoverAppend(ranges[..i], ranges[i]);
      if r.end < r.start { continue; }
      CoverAppend(cleaned, r);
      cleaned := cleaned + [r];
    }
    assert ranges[..|ranges|] == ranges;
  }

  function CompactStep(out: seq<Range>, r: Range): seq<Range> {
    if out == [] || r.start > out[|out| - 1].end then out + [r]
    else out[|out| - 1 := out[|out| - 1].(end := Max(out[|out| - 1].end, r.end))]
  }

  lemma CompactStepCover(out: seq<Range>, r: Range)
    requires Canonical(out) && 0 <= r.start <= r.end
    requires out != [] ==> out[|out| - 1].start <= r.start
    ensures Canonical(CompactStep(out, r))
    ensures SameCover(CompactStep(out, r), out + [r])
  {
    CoverAppend(out, r);
    if out != [] && r.start <= out[|out| - 1].end {
      var last := out[|out| - 1];
      var grown := last.(end := Max(last.end, r.end));
      assert out == out[..|out| - 1] + [last];
      CoverAppend(out[..|out| - 1], last);
      assert CompactStep(out, r) == out[..|out| - 1] + [grown];
      CoverAppend(out[..|out| - 1], grown);
    }
  }

  ghost predicate Compacted(g: seq<Range>, s: seq<Range>, i: int)
    requires 0 <= i <= |s|
  {
    Canonical(g) && SameCover(g, s[..i]) && (g != [] ==> i > 0 && g[|g| - 1].start <= s[i - 1].start)
  }

  lemma CompactedStart(s: seq<Range>)
    ensures Compacted([], s, 0)
  {
    assert s[..0] == [];
  }

  lemma CompactedStep(g: seq<Range>, s: seq<Range>, i: int)
    requires 0 <= i < |s| && Sorted(RangeLeq, s) && 0 <= s[i].start <= s[i].end
    requires Compacted(g, s, i)
    ensures Compacted(CompactStep(g, s[i]), s, i + 1)
  {
    assert i > 0 ==> RangeLeq(s[i - 1], s[i]);
    CompactStepCover(g, s[i]);
    assert s[..i + 1] == s[..i] + [s[i]];
    CoverAppend(s[..i], s[i]);
    CoverAppend(g, s[i]);
  }

  /** `out` shares the array of the sorted input: the write position never passes the read
      position, so no element is overwritten before it is read. */
  method CompactInPlace(a: array<Range>) returns (n: nat)
    requires Sorted(RangeLeq, a[..])
    requires forall r :: r in a[..] ==> 0 <= r.start <= r.end
    modifies a
    ensures n <= a.Length
    ensures Canonical(a[..n]) && SameCover(a[..n], old(a[..]))
  {
    hide Canonical, SameCover, Sorted;
    ghost var s := a[..];
    ghost var g: seq<Range> := [];
    CompactedStart(s);
    n := 0;
    for i := 0 to a.Length
      invariant n <= i && (n == 0 <==> i == 0) && n == |g|
      invariant forall k :: i <= k < a.Length ==> a[k] == s[k]
      invariant forall k :: 0 <= k < n ==> a[k] == g[k]
      invariant Compacted(g, s, i)
    {
      var r := a[i];
      assert r in s;
      CompactedStep(g, s, i);
      if n == 0 || r.start > a[n - 1].end {
        a[n] := r;
        n := n + 1;
      } else if r.end > a[n - 1].end {
        a[n - 1] := a[n - 1].(end := r.end);
      }
      g := CompactStep(g, r);
    }
    assert a[..n] == g;
    assert s[..a.Length] == s;
  }

  method MergeFuseDirtyRanges(ranges: seq<Range>) returns (out: seq<Range>)
    ensures out == Merged(ranges)
  {
    if |ranges| == 0 { return []; }
    var cleaned := CleanRanges(ranges);
    RangeLeqTotal();
    var sorted := Sort(RangeLeq, cleaned);
    SameElements(sorted, cleaned);
    CoverPermutation(sorted, cleaned);
    var a := new Range[|sorted|](i requires 0 <= i < |sorted| => sorted[i]);
    assert a[..] == sorted;
    var n := CompactInPlace(a);
    out := a[..n];
    CanonicalUnique(out, Merged(ranges));
  }

  // ---------- how much is dirty ----------

  ghost function DirtySet(rs: seq<Range>): set<int> {
    set i, b | 0 <= i < |rs| && 0 <= b < rs[i].end && InRange(rs[i], b) :: b
  }

  lemma DirtySetIsHasByte(rs: seq<Range>, b: int)
    ensures b in DirtySet(rs) <==> HasByte(rs, b)
  {
    if HasByte(rs, b) {
      var r :| r in rs && InRange(r, b);
      var i :| 0 <= i < |rs| && rs[i] == r;
      assert InRange(rs[i], b);
    }
  }

  lemma DirtySetSameCover(a: seq<Range>, b: seq<Range>)
    requires SameCover(a, b)
    ensures DirtySet(a) == DirtySet(b)
  {
    forall x ensures x in DirtySet(a) <==> x in DirtySet(b) {
      DirtySetIsHasByte(a, x);
      DirtySetIsHasByte(b, x);
    }
  }

  ghost function Interval(lo: int, hi: int): (s: set<int>)
    requires lo <= hi
    ensures |s| == hi - lo
    ensures forall b :: b in s <==> lo <= b < hi
    decreases hi - lo
  {
    if lo == hi then {} else Interval(lo, hi - 1) + {hi - 1}
  }

  lemma DirtySetAppend(c: seq<Range>, r: Range)
    requires Canonical(c + [r])
    ensures |DirtySet(c + [r])| == |DirtySet(c)| + r.end - r.start
  {
    assert (c + [r])[|c|] == r;
    var iv := Interval(r.start, r.end);
    forall x ensures x in DirtySet(c + [r]) <==> x in DirtySet(c) + iv {
      DirtySetIsHasByte(c + [r], x);
      DirtySetIsHasByte(c, x);
      CoverAppend(c, r);
    }
    forall x | x in DirtySet(c) ensures x !in iv {
      DirtySetIsHasByte(c, x);
      var q :| q in c && InRange(q, x);
      var i :| 0 <= i < |c| && c[i] == q;
      assert (c + [r])[i] == q && (c + [r])[|c|] == r;
    }
    assert DirtySet(c + [r]) == DirtySet(c) + iv;
  }

  /** The loop of `shouldPatchFuseWrite` that adds up the merged ranges counts each dirty byte
      exactly once. */
  method TotalDirty(ranges: seq<Range>) returns (total: int)
    ensures total == |DirtySet(ranges)|
  {
    total := 0;
    var merged := MergeFuseDirtyRanges(ranges);
    for i := 0 to |merged|
      invariant total == |DirtySet(merged[..i])|
    {
      var r := merged[i];
      assert merged[..i + 1] == merged[..i] + [r];
      DirtySetAppend(merged[..i], r);
      if r.end > r.start {
        total := total + (r.end - r.start);
      }
    }
    assert merged[..|merged|] == merged;
    DirtySetSameCover(merged, ranges);
  }

  // ---------- which parts are dirty ----------

  /** An empty range that no other range touches. */
  ghost predicate Isolated(rs: seq<Range>, x: int) {
    HasPoint(rs, x) && !HasByte(rs, x) && !HasByte(rs, x - 1)
  }

  /** Bytes of the new file that make their part dirty; an isolated empty range counts as the
      one byte at its position. */
  ghost predicate Touched(rs: seq<Range>, newSize: int, b: int) {
    0 <= b < newSize && (HasByte(rs, b) || Isolated(rs, b))
  }

  /** Parts are numbered from one. */
  function PartOf(b: int, partSize: int): int
    requires partSize > 0
  {
    b / partSize + 1
  }

  ghost predicate DirtyPart(rs: seq<Range>, partSize: int, newSize: int, p: int)
    requires partSize > 0
  {
    exists b :: Touched(rs, newSize, b) && PartOf(b, partSize) == p
  }

  /** The bytes one merged range contributes, as computed in the body of the loop. */
  predicate Contributes(r: Range, newSize: int, b: int) {
    && r.start < newSize
    && var end := Min(r.end, newSize);
       r.start <= b < (if end <= r.start then r.start + 1 else end)
  }

  lemma ContributesIsTouched(c: seq<Range>, newSize: int, b: int)
    requires Canonical(c)
    ensures Touched(c, newSize, b) <==> exists r :: r in c && Contributes(r, newSize, b)
  {
    if Touched(c, newSize, b) {
      if HasByte(c, b) {
        var r :| r in c && InRange(r, b);
        assert Contributes(r, newSize, b);
      } else {
        var r :| r in c && AtPoint(r, b);
        assert InRange(r, b - 1) || r == Range(b, b);
        assert Contributes(r, newSize, b);
      }
    }
    if r :| r in c && Contributes(r, newSize, b) {
      if r.start < r.end {
        assert InRange(r, b);
      } else {
        assert AtPoint(r, b);
        assert !HasByte(c, b) && !HasByte(c, b - 1);
      }
    }
  }

  lemma PartMonotone(a: int, b: int, partSize: int)
    requires partSize > 0 && a <= b
    ensures PartOf(a, partSize) <= PartOf(b, partSize)
  {
    DivMonotone(a, b, partSize);
  }

  lemma PartStart(p: int, partSize: int)
    requires partSize > 0
    ensures PartOf(partSize * (p - 1), partSize) == p
  {
    DivUnique(partSize * (p - 1), partSize, p - 1);
  }

  /** The parts between the first and the last byte of an interval are exactly those that
      contain one of its bytes. */
  lemma PartInterval(lo: int, hi: int, partSize: int, p: int)
    requires partSize > 0 && lo < hi
    ensures PartOf(lo, partSize) <= p <= PartOf(hi - 1, partSize)
       <==> exists b :: lo <= b < hi && PartOf(b, partSize) == p
  {
    if b :| lo <= b < hi && PartOf(b, partSize) == p {
      PartMonotone(lo, b, partSize);
      PartMonotone(b, hi - 1, partSize);
    } else if PartOf(lo, partSize) < p <= PartOf(hi - 1, partSize) {
      PartWitness(lo, hi, partSize, p);
    }
  }

  lemma MulNonNegative(n: int, d: int)
    requires n > 0 && d >= 0
    ensures n * d >= 0
  {}

  lemma PartWitness(lo: int, hi: int, partSize: int, p: int)
    requires partSize > 0 && PartOf(lo, partSize) < p <= PartOf(hi - 1, partSize)
    ensures exists b :: lo <= b < hi && PartOf(b, partSize) == p
  {
    var b := partSize * (p - 1);
    PartStart(p, partSize);
    if b < lo { PartMonotone(b, lo, partSize); }
    DivBounds(hi - 1, partSize);
    assert partSize * (p - 1) <= partSize * ((hi - 1) / partSize) by {
      MulNonNegative(partSize, (hi - 1) / partSize - (p - 1));
      assert partSize * ((hi - 1) / partSize) == partSize * (p - 1) + partSize * ((hi - 1) / partSize - (p - 1));
    }
    assert lo <= b < hi && PartOf(b, partSize) == p;
  }

  method FuseDirtyParts(ranges: seq<Range>, partSizeBytes: int, newSize: int) returns (out: seq<int>)
    ensures forall i, j :: 0 <= i < j < |out| ==> out[i] < out[j]
    ensures forall p :: p in out <==> DirtyPart(ranges, Max(partSizeBytes, 1), newSize, p)
  {
    var partSize := Max(partSizeBytes, 1);
    var seen: set<int> := {};
    var merged := MergeFuseDirtyRanges(ranges);
    for i := 0 to |merged|
      invariant forall p :: p in seen <==>
        exists b :: (exists k :: 0 <= k < i && Contributes(merged[k], newSize, b)) && PartOf(b, partSize) == p
    {
      var r := merged[i];
      ghost var before := seen;
      if r.start >= newSize { continue; }
      var end := r.end;
      if end > newSize { end := newSize; }
      if end <= r.start { end := r.start + 1; }
      var first := r.start / partSize + 1;
      var last := (end - 1) / partSize + 1;
      PartMonotone(r.start, end - 1, partSize);
      for part := first to last + 1
        invariant forall p :: p in seen <==> p in before || first <= p < part
      {
        seen := seen + {part};
      }
      forall p ensures p in seen <==>
        exists b :: (exists k :: 0 <= k < i + 1 && Contributes(merged[k], newSize, b)) && PartOf(b, partSize) == p
      {
        PartInterval(r.start, end, partSize, p);
        assert forall b :: Contributes(r, newSize, b) <==> r.start <= b < end;
      }
    }
    SeenIsDirtyPart(merged, ranges, partSize, newSize, seen);
    out := SortedKeys(seen);
  }

  lemma SeenIsDirtyPart(merged: seq<Range>, ranges: seq<Range>, partSize: int, newSize: int, seen: set<int>)
    requires partSize > 0 && merged == Merged(ranges)
    requires forall p :: p in seen <==>
      exists b :: (exists k :: 0 <= k < |merged| && Contributes(merged[k], newSize, b)) && PartOf(b, partSize) == p
    ensures forall p :: p in seen <==> DirtyPart(ranges, partSize, newSize, p)
  {
    forall b
      ensures Touched(ranges, newSize, b) <==> exists k :: 0 <= k < |merged| && Contributes(merged[k], newSize, b)
    {
      ContributesIsTouched(merged, newSize, b);
      assert Touched(ranges, newSize, b) <==> Touched(merged, newSize, b);
    }
  }

  predicate IntLeq(a: int, b: int) { a <= b }

  /** Collects the keys of a map in whatever order it yields them, then sorts. */
  method SortedKeys(keys: set<int>) returns (out: seq<int>)
    ensures forall i, j :: 0 <= i < j < |out| ==> out[i] < out[j]
    ensures forall p :: p in out <==> p in keys
  {
    var list := Elements(keys);
    assert TotalOrder(IntLeq);
    out := Sort(IntLeq, list);
    ListingOfSet(out, keys);
  }

  /** Exact cover: part numbers stay within the file, every dirty byte of the new file is in a
      listed part, and a listed part holds a dirty byte or the position of an empty range. */
  lemma DirtyPartsCover(rs: seq<Range>, partSize: int, newSize: int)
    requires partSize > 0 && newSize >= 0
    ensures forall p :: DirtyPart(rs, partSize, newSize, p) ==>
      1 <= p <= (newSize + partSize - 1) / partSize
    ensures forall b :: 0 <= b < newSize && HasByte(rs, b) ==>
      DirtyPart(rs, partSize, newSize, PartOf(b, partSize))
    ensures forall p :: DirtyPart(rs, partSize, newSize, p) ==>
      exists r, b :: r in rs && AtPoint(r, b) && PartOf(b, partSize) == p
  {
    forall p | DirtyPart(rs, partSize, newSize, p)
      ensures 1 <= p <= (newSize + partSize - 1) / partSize
      ensures exists r, b :: r in rs && AtPoint(r, b) && PartOf(b, partSize) == p
    {
      var b :| Touched(rs, newSize, b) && PartOf(b, partSize) == p;
      PartBounds(b, newSize, partSize);
      assert HasPoint(rs, b) by {
        if HasByte(rs, b) {
          var r :| r in rs && InRange(r, b);
          assert AtPoint(r, b);
        }
      }
    }
    forall b | 0 <= b < newSize && HasByte(rs, b)
      ensures DirtyPart(rs, partSize, newSize, PartOf(b, partSize))
    {
      assert Touched(rs, newSize, b);
    }
  }

  lemma PartBounds(b: int, newSize: int, partSize: int)
    requires partSize > 0 && 0 <= b < newSize
    ensures 1 <= PartOf(b, partSize) <= (newSize + partSize - 1) / partSize
  {
    PartMonotone(0, b, partSize);
    PartMonotone(b + partSize, newSize + partSize - 1, partSize);
    DivShift(b, partSize);
  }
}
