/** Appending a local file to a remote one by patch (`data.go`): the callback that fills the parts
    from the local file, against the rewrite of the whole file. */
module AppendPatch {
  import opened Basics

  /** One part of the plan: its size and the bytes the remote file already has in it. */
  datatype Part = Part(size: nat, original: Bytes)

  datatype Error = OriginalTooLong | ShortRead | SizeMismatch

  /** How many bytes of the local file the part needs. */
  function Need(p: Part): nat { if |p.original| > p.size then 0 else p.size - |p.original| }

  /** The callback for one part, reading the local file at the shared offset. */
  function FillPart(p: Part, local: Bytes, offset: nat): Result<Bytes, Error> {
    if |p.original| > p.size then Err(OriginalTooLong)
    else if Need(p) == 0 then Ok(p.original)
    else if offset + Need(p) > |local| then Err(ShortRead)
    else Ok(p.original + local[offset..offset + Need(p)])
  }

  /** What the callback returns: the bytes the part has, followed by as many of the local file as it
      still takes, from the shared offset on; or why it cannot. */
  lemma FillPartMeans(p: Part, local: Bytes, offset: nat)
    ensures var r := FillPart(p, local, offset);
      && (r == Err(OriginalTooLong) <==> |p.original| > p.size)
      && (r == Err(ShortRead) <==> |p.original| < p.size && offset + p.size - |p.original| > |local|)
      && (r.Ok? ==>
            && |r.value| == p.size
            && forall b :: 0 <= b < p.size ==>
                 r.value[b] == if b < |p.original| then p.original[b] else local[offset + b - |p.original|])
  {}

  // ---------- parts handled in some order ----------

  ghost predicate IsOrder(parts: seq<Part>, order: seq<nat>) {
    && |order| == |parts|
    && (forall i :: 0 <= i < |order| ==> order[i] < |parts|)
    && (forall i, j :: 0 <= i < j < |order| ==> order[i] != order[j])
  }

  /** The shared offset after the first `k` callbacks. */
  function OffsetAfter(parts: seq<Part>, order: seq<nat>, k: nat): nat
    requires k <= |order| && forall i :: 0 <= i < |order| ==> order[i] < |parts|
  {
    if k == 0 then 0 else OffsetAfter(parts, order, k - 1) + Need(parts[order[k - 1]])
  }

  /** What the callback of the `k`-th part in order returns. */
  function Filled(parts: seq<Part>, order: seq<nat>, local: Bytes, k: nat): Result<Bytes, Error>
    requires k < |order| && forall i :: 0 <= i < |order| ==> order[i] < |parts|
  {
    FillPart(parts[order[k]], local, OffsetAfter(parts, order, k))
  }

  /** The first `k` callbacks succeed and produced the given parts. */
  ghost predicate FilledInto(parts: seq<Part>, order: seq<nat>, local: Bytes, filled: seq<Bytes>, k: nat)
    requires k <= |order| && |filled| == |parts| && forall i :: 0 <= i < |order| ==> order[i] < |parts|
  {
    k == 0 || (FilledInto(parts, order, local, filled, k - 1)
               && Filled(parts, order, local, k - 1) == Ok(filled[order[k - 1]]))
  }

  lemma FilledIntoFrame(parts: seq<Part>, order: seq<nat>, local: Bytes, filled: seq<Bytes>, filled': seq<Bytes>,
                        k: nat)
    requires IsOrder(parts, order) && k < |order| && |filled| == |filled'| == |parts|
    requires FilledInto(parts, order, local, filled, k)
    requires forall i :: 0 <= i < |parts| && i != order[k] ==> filled'[i] == filled[i]
    ensures FilledInto(parts, order, local, filled', k)
  {
    FrameBelow(parts, order, local, filled, filled', k, k);
  }

  lemma FrameBelow(parts: seq<Part>, order: seq<nat>, local: Bytes, filled: seq<Bytes>, filled': seq<Bytes>, k: nat,
                   j: nat)
    requires IsOrder(parts, order) && j <= k < |order| && |filled| == |filled'| == |parts|
    requires FilledInto(parts, order, local, filled, j)
    requires forall i :: 0 <= i < |parts| && i != order[k] ==> filled'[i] == filled[i]
    ensures FilledInto(parts, order, local, filled', j)
  {
    if j == 0 {
    } else {
      FrameBelow(parts, order, local, filled, filled', k, j - 1);
    }
  }

  /** The append: the callbacks run one after the other in `order`, sharing one running offset; the
      upload is completed only if the offset ends at the size of the local file. */
  method AppendByPatch(parts: seq<Part>, order: seq<nat>, local: Bytes) returns (res: Result<seq<Bytes>, Error>)
    requires IsOrder(parts, order)
    ensures res.Ok? ==> |res.value| == |parts| && FilledInto(parts, order, local, res.value, |order|)
                        && OffsetAfter(parts, order, |order|) == |local|
    ensures res == Err(SizeMismatch) ==> OffsetAfter(parts, order, |order|) != |local|
    ensures res.Err? && res != Err(SizeMismatch) ==> exists k :: 0 <= k < |order| && Filled(parts, order, local, k).Err?
  {
    var filled: seq<Bytes> := seq(|parts|, _ => []);
    var offset: nat := 0;
    for k := 0 to |order|
      invariant |filled| == |parts| && offset == OffsetAfter(parts, order, k)
      invariant FilledInto(parts, order, local, filled, k)
    {
      var p := parts[order[k]];
      var data := FillPart(p, local, offset);
      assert data == Filled(parts, order, local, k);
      if data.Err? { return Err(data.error); }
      FilledIntoFrame(parts, order, local, filled, filled[order[k] := data.value], k);
      filled := filled[order[k] := data.value];
      offset := offset + Need(p);
    }
    if offset != |local| { return Err(SizeMismatch); }
    return Ok(filled);
  }

  /** The reference: the whole new content. */
  function AppendByRewrite(existing: Bytes, local: Bytes): Bytes { existing + local }

  // ---------- plans ----------

  /** Where part `k` of a plan begins in the file. */
  function Begin(parts: seq<Part>, start: nat, k: nat): nat
    requires k <= |parts|
  {
    if k == 0 then start else Begin(parts, start, k - 1) + parts[k - 1].size
  }

  /** The bytes of `existing` between two positions, as far as it goes. */
  function Existing(existing: Bytes, from: nat, to: nat): Bytes
    requires from <= to
  {
    if from >= |existing| then [] else existing[from..if to < |existing| then to else |existing|]
  }

  /** The parts tile the new file from `start` to its end, in order, and each brings the bytes the
      existing file has in it. */
  ghost predicate Tiles(parts: seq<Part>, start: nat, existing: Bytes, size: nat) {
    && start <= |existing|
    && Begin(parts, start, |parts|) == |existing| + size
    && forall i :: 0 <= i < |parts| ==> HasOriginal(parts, start, existing, i)
  }

  predicate HasOriginal(parts: seq<Part>, start: nat, existing: Bytes, i: nat)
    requires i < |parts|
  {
    parts[i].original == Existing(existing, Begin(parts, start, i), Begin(parts, start, i) + parts[i].size)
  }

  lemma BeginMonotone(parts: seq<Part>, start: nat, i: nat, j: nat)
    requires i <= j <= |parts|
    ensures Begin(parts, start, i) <= Begin(parts, start, j)
  {
    if i == j {
    } else {
      BeginMonotone(parts, start, i, j - 1);
    }
  }

  /** How much of the local file belongs before position `at` of the new file. */
  function NewBefore(existing: Bytes, at: nat): nat { if at <= |existing| then 0 else at - |existing| }

  /** The bytes part `i` must have. */
  function Wanted(parts: seq<Part>, start: nat, existing: Bytes, local: Bytes, i: nat): Bytes
    requires i < |parts| && Begin(parts, start, i + 1) <= |existing| + |local|
  {
    AppendByRewrite(existing, local)[Begin(parts, start, i)..Begin(parts, start, i + 1)]
  }

  lemma PartFits(parts: seq<Part>, start: nat, existing: Bytes, size: nat, i: nat)
    requires Tiles(parts, start, existing, size) && i < |parts|
    ensures Begin(parts, start, i + 1) <= |existing| + size
    ensures |parts[i].original| <= parts[i].size
    ensures Need(parts[i]) ==
      NewBefore(existing, Begin(parts, start, i + 1)) - NewBefore(existing, Begin(parts, start, i))
  {
    BeginMonotone(parts, start, i + 1, |parts|);
    assert HasOriginal(parts, start, existing, i);
  }

  /** The callback gives a part the bytes it must have when the shared offset is where the part
      begins in the local file, or when it needs none of it. */
  lemma FillsWanted(parts: seq<Part>, start: nat, existing: Bytes, local: Bytes, i: nat, offset: nat)
    requires Tiles(parts, start, existing, |local|) && i < |parts|
    requires Need(parts[i]) == 0 || offset == NewBefore(existing, Begin(parts, start, i))
    ensures Begin(parts, start, i + 1) <= |existing| + |local|
    ensures FillPart(parts[i], local, offset) == Ok(Wanted(parts, start, existing, local, i))
  {
    PartFits(parts, start, existing, |local|, i);
    assert HasOriginal(parts, start, existing, i);
    var from, to := Begin(parts, start, i), Begin(parts, start, i + 1);
    var got, want := FillPart(parts[i], local, offset).value, Wanted(parts, start, existing, local, i);
    assert |got| == |want|;
    var whole, original := AppendByRewrite(existing, local), parts[i].original;
    forall b | 0 <= b < |got| ensures got[b] == want[b] {
      assert want[b] == whole[from + b];
      if b < |original| {
        assert original[b] == existing[from + b] == whole[from + b];
      } else {
        assert whole[from + b] == local[from + b - |existing|];
      }
    }
    assert got == want;
  }

  function InOrder(n: nat): (order: seq<nat>)
    ensures |order| == n && forall i :: 0 <= i < n ==> order[i] == i
  {
    seq(n, i => i)
  }

  lemma OffsetInOrder(parts: seq<Part>, start: nat, existing: Bytes, size: nat, k: nat)
    requires Tiles(parts, start, existing, size) && k <= |parts|
    ensures OffsetAfter(parts, InOrder(|parts|), k) == NewBefore(existing, Begin(parts, start, k))
  {
    if k == 0 {
    } else {
      OffsetInOrder(parts, start, existing, size, k - 1);
      PartFits(parts, start, existing, size, k - 1);
    }
  }

  /** Every part ends up with exactly the bytes the rewrite would have put there. */
  ghost predicate AppendCorrect(parts: seq<Part>, start: nat, existing: Bytes, local: Bytes, order: seq<nat>)
    requires IsOrder(parts, order)
  {
    && OffsetAfter(parts, order, |order|) == |local|
    && forall k :: 0 <= k < |order| ==> PartCorrect(parts, start, existing, local, order, k)
  }

  predicate PartCorrect(parts: seq<Part>, start: nat, existing: Bytes, local: Bytes, order: seq<nat>, k: nat)
    requires k < |order| && forall i :: 0 <= i < |order| ==> order[i] < |parts|
  {
    var r := Filled(parts, order, local, k);
    r.Ok? && HasWanted(parts, start, existing, local, r.value, order[k])
  }

  /** Taken in plan order, the append by patch never fails, its running offset ends at the size of
      the local file, and every part has the bytes the rewrite would have written. */
  lemma PatchRefinesRewrite(parts: seq<Part>, start: nat, existing: Bytes, local: Bytes)
    requires Tiles(parts, start, existing, |local|)
    ensures AppendCorrect(parts, start, existing, local, InOrder(|parts|))
  {
    var order := InOrder(|parts|);
    OffsetInOrder(parts, start, existing, |local|, |parts|);
    forall k | 0 <= k < |order| ensures PartCorrect(parts, start, existing, local, order, k) {
      OffsetInOrder(parts, start, existing, |local|, k);
      FillsWanted(parts, start, existing, local, k, OffsetAfter(parts, order, k));
    }
  }

  function Concat(parts: seq<Bytes>): Bytes {
    if parts == [] then [] else Concat(parts[..|parts| - 1]) + parts[|parts| - 1]
  }

  predicate HasWanted(parts: seq<Part>, start: nat, existing: Bytes, local: Bytes, data: Bytes, i: nat)
    requires i < |parts|
  {
    Begin(parts, start, i + 1) <= |existing| + |local| && data == Wanted(parts, start, existing, local, i)
  }

  /** One more part with its wanted bytes. */
  lemma GluePart(front: Bytes, filled: seq<Bytes>, k: nat, whole: Bytes, from: nat, to: nat)
    requires 0 < k <= |filled| && from <= to <= |whole|
    requires front + Concat(filled[..k - 1]) == whole[..from] && filled[k - 1] == whole[from..to]
    ensures front + Concat(filled[..k]) == whole[..to]
  {
    assert filled[..k][..k - 1] == filled[..k - 1];
    assert whole[..to] == whole[..from] + whole[from..to];
    assert front + Concat(filled[..k]) == (front + Concat(filled[..k - 1])) + filled[k - 1];
  }

  /** Parts with the wanted bytes, after the untouched front of the file, make up the whole file. */
  lemma {:induction false} WantedPartsMakeTheFile(parts: seq<Part>, start: nat, existing: Bytes, local: Bytes,
                                                  filled: seq<Bytes>, k: nat)
    requires Tiles(parts, start, existing, |local|) && |filled| == |parts| && k <= |parts|
    requires forall i :: 0 <= i < |parts| ==> HasWanted(parts, start, existing, local, filled[i], i)
    ensures Begin(parts, start, k) <= |existing| + |local|
    ensures existing[..start] + Concat(filled[..k]) == AppendByRewrite(existing, local)[..Begin(parts, start, k)]
    ensures k == |parts| ==> existing[..start] + Concat(filled) == AppendByRewrite(existing, local)
    decreases k
  {
    hide Concat, HasOriginal;
    BeginMonotone(parts, start, k, |parts|);
    var whole := AppendByRewrite(existing, local);
    if k == 0 {
      NoParts();
      assert whole[..start] == existing[..start] + [];
    } else {
      WantedPartsMakeTheFile(parts, start, existing, local, filled, k - 1);
      assert HasWanted(parts, start, existing, local, filled[k - 1], k - 1);
      GluePart(existing[..start], filled, k, whole, Begin(parts, start, k - 1), Begin(parts, start, k));
    }
    if k == |parts| {
      assert filled[..k] == filled && whole[..|whole|] == whole;
    }
  }

  lemma NoParts()
    ensures Concat([]) == []
  {}

  lemma FilledAt(parts: seq<Part>, order: seq<nat>, local: Bytes, filled: seq<Bytes>, k: nat, j: nat)
    requires IsOrder(parts, order) && j < k <= |order| && |filled| == |parts|
    requires FilledInto(parts, order, local, filled, k)
    ensures Filled(parts, order, local, j) == Ok(filled[order[j]])
  {
    if j == k - 1 {
    } else {
      FilledAt(parts, order, local, filled, k - 1, j);
    }
  }

  /** Whatever `AppendByPatch` returns for the plan order, the front of the file and the returned
      parts are together the file the rewrite would have written; and it returns no error. */
  lemma AppendRefinesRewrite(parts: seq<Part>, start: nat, existing: Bytes, local: Bytes, filled: seq<Bytes>)
    requires Tiles(parts, start, existing, |local|) && |filled| == |parts|
    ensures FilledInto(parts, InOrder(|parts|), local, filled, |parts|) ==>
              existing[..start] + Concat(filled) == AppendByRewrite(existing, local)
    ensures OffsetAfter(parts, InOrder(|parts|), |parts|) == |local|
    ensures forall k :: 0 <= k < |parts| ==> Filled(parts, InOrder(|parts|), local, k).Ok?
  {
    PatchRefinesRewrite(parts, start, existing, local);
    var order := InOrder(|parts|);
    forall k | 0 <= k < |parts| ensures Filled(parts, order, local, k).Ok? {
      assert PartCorrect(parts, start, existing, local, order, k);
    }
    if FilledInto(parts, order, local, filled, |parts|) {
      forall i | 0 <= i < |parts| ensures HasWanted(parts, start, existing, local, filled[i], i) {
        FilledAt(parts, order, local, filled, |parts|, i);
        assert PartCorrect(parts, start, existing, local, order, i);
      }
      WantedPartsMakeTheFile(parts, start, existing, local, filled, |parts|);
    }
  }

  // ---------- the order of the callbacks ----------

  ghost predicate AtMostOneNeeds(parts: seq<Part>) {
    forall i, j :: 0 <= i < j < |parts| ==> Need(parts[i]) == 0 || Need(parts[j]) == 0
  }

  lemma OffsetStaysZero(parts: seq<Part>, order: seq<nat>, k: nat)
    requires IsOrder(parts, order) && k <= |order| && forall i :: 0 <= i < k ==> Need(parts[order[i]]) == 0
    ensures OffsetAfter(parts, order, k) == 0
  {
    if k == 0 {
    } else {
      OffsetStaysZero(parts, order, k - 1);
    }
  }

  lemma OneNeederIsAtZero(parts: seq<Part>, start: nat, existing: Bytes, size: nat, order: seq<nat>, k: nat)
    requires Tiles(parts, start, existing, size) && IsOrder(parts, order) && k < |order|
    requires AtMostOneNeeds(parts) && Need(parts[order[k]]) > 0
    ensures OffsetAfter(parts, order, k) == 0 == NewBefore(existing, Begin(parts, start, order[k]))
  {
    forall i | 0 <= i < |order| && i != k ensures Need(parts[order[i]]) == 0 {
      assert order[i] != order[k];
    }
    OffsetStaysZero(parts, order, k);
    var plan := InOrder(|parts|);
    forall i | 0 <= i < order[k] ensures Need(parts[plan[i]]) == 0 {}
    OffsetStaysZero(parts, plan, order[k]);
    OffsetInOrder(parts, start, existing, size, order[k]);
  }

  /** The parts handled by the first `k` callbacks. */
  ghost function Taken(order: seq<nat>, k: nat): set<nat>
    requires k <= |order|
  {
    if k == 0 then {} else Taken(order, k - 1) + {order[k - 1]}
  }

  ghost function Indices(n: nat): set<nat> { if n == 0 then {} else Indices(n - 1) + {n - 1} }

  ghost function NeedOf(parts: seq<Part>): nat -> nat { (i: nat) => if i < |parts| then Need(parts[i]) else 0 }

  lemma {:induction false} TakenIsDistinct(parts: seq<Part>, order: seq<nat>, k: nat)
    requires IsOrder(parts, order) && k <= |order|
    ensures |Taken(order, k)| == k
    ensures forall i :: i in Taken(order, k) ==> i < |parts|
    ensures forall j :: k <= j < |order| ==> order[j] !in Taken(order, k)
  {
    if k == 0 {
    } else {
      TakenIsDistinct(parts, order, k - 1);
    }
  }

  lemma {:induction false} OffsetIsSum(parts: seq<Part>, order: seq<nat>, k: nat)
    requires IsOrder(parts, order) && k <= |order|
    ensures OffsetAfter(parts, order, k) == Sum(NeedOf(parts), Taken(order, k))
  {
    hide Sum;
    if k == 0 {
      SumNothing(NeedOf(parts));
    } else {
      OffsetIsSum(parts, order, k - 1);
      TakenIsDistinct(parts, order, k - 1);
      SumRemove(NeedOf(parts), Taken(order, k), order[k - 1]);
      assert Taken(order, k) - {order[k - 1]} == Taken(order, k - 1);
    }
  }

  lemma {:induction false} IndicesAre(n: nat)
    ensures |Indices(n)| == n
    ensures forall i: nat :: i in Indices(n) <==> i < n
  {
    if n == 0 {
    } else {
      IndicesAre(n - 1);
    }
  }

  lemma SubsetEqual(a: set<nat>, b: set<nat>)
    requires a <= b && |a| == |b|
    ensures a == b
  {
    assert |b - a| == |b| - |a|;
    assert b == a + (b - a);
  }

  /** The offset after all callbacks does not depend on their order. */
  lemma TotalNeed(parts: seq<Part>, order: seq<nat>)
    requires IsOrder(parts, order)
    ensures OffsetAfter(parts, order, |order|) == OffsetAfter(parts, InOrder(|parts|), |parts|)
  {
    var plan := InOrder(|parts|);
    IndicesAre(|parts|);
    OffsetIsSum(parts, order, |order|);
    TakenIsDistinct(parts, order, |order|);
    SubsetEqual(Taken(order, |order|), Indices(|parts|));
    OffsetIsSum(parts, plan, |plan|);
    TakenIsDistinct(parts, plan, |plan|);
    SubsetEqual(Taken(plan, |plan|), Indices(|parts|));
  }

  /** At most this many parts are in flight at once. */
  const MAX_CONCURRENCY := 4

  /** The orders that can occur: parts are started in plan order, and a part is only started once
      all but `MAX_CONCURRENCY - 1` of the parts before it are done. */
  ghost predicate Reachable(order: seq<nat>) {
    forall k :: 0 <= k < |order| ==> order[k] < k + MAX_CONCURRENCY
  }

  /** The plan order with part `a` and the next one exchanged. */
  function Swapped(n: nat, a: nat): seq<nat>
    requires a + 1 < n
  {
    seq(n, i => if i == a then a + 1 else if i == a + 1 then a else i)
  }

  lemma SwappedOffset(parts: seq<Part>, a: nat, k: nat)
    requires k <= a && a + 1 < |parts|
    ensures OffsetAfter(parts, Swapped(|parts|, a), k) == OffsetAfter(parts, InOrder(|parts|), k)
  {
    if k == 0 {
    } else {
      SwappedOffset(parts, a, k - 1);
    }
  }

  /** Two neighbouring parts that need local bytes get each other's bytes when the second one is
      handled first. */
  lemma WrongOrder(parts: seq<Part>, start: nat, existing: Bytes, size: nat, a: nat)
    returns (order: seq<nat>, local: Bytes)
    requires Tiles(parts, start, existing, size) && a + 1 < |parts| && Need(parts[a]) > 0 && Need(parts[a + 1]) > 0
    ensures IsOrder(parts, order) && Reachable(order) && |local| == size
    ensures !AppendCorrect(parts, start, existing, local, order)
  {
    hide Wanted, AppendByRewrite, Tiles, FillPart;
    order := Swapped(|parts|, a);
    PartFits(parts, start, existing, size, a);
    PartFits(parts, start, existing, size, a + 1);
    SwappedOffset(parts, a, a);
    OffsetInOrder(parts, start, existing, size, a);
    var offset := NewBefore(existing, Begin(parts, start, a));
    local := seq(size, i => if i == offset then 1 as byte else 0);
    FillsFrom(parts, start, existing, local, a + 1, offset);
    FirstWanted(parts, start, existing, local, a + 1);
    assert !PartCorrect(parts, start, existing, local, order, a);
  }

  /** What a part gets that needs local bytes only. */
  lemma FillsFrom(parts: seq<Part>, start: nat, existing: Bytes, local: Bytes, i: nat, offset: nat)
    requires Tiles(parts, start, existing, |local|) && i < |parts| && |existing| <= Begin(parts, start, i)
    requires Need(parts[i]) > 0 && offset + Need(parts[i]) <= |local|
    ensures FillPart(parts[i], local, offset) == Ok(local[offset..offset + Need(parts[i])])
  {
    assert HasOriginal(parts, start, existing, i);
    assert [] + local[offset..offset + Need(parts[i])] == local[offset..offset + Need(parts[i])];
  }

  /** The first byte of a part that needs local bytes only. */
  lemma FirstWanted(parts: seq<Part>, start: nat, existing: Bytes, local: Bytes, i: nat)
    requires i < |parts| && Begin(parts, start, i) < Begin(parts, start, i + 1) <= |existing| + |local|
    requires |existing| <= Begin(parts, start, i)
    ensures Wanted(parts, start, existing, local, i) != []
    ensures Wanted(parts, start, existing, local, i)[0] == local[NewBefore(existing, Begin(parts, start, i))]
  {}

  ghost predicate PositiveSizes(parts: seq<Part>) { forall i :: 0 <= i < |parts| ==> parts[i].size > 0 }

  lemma NextAlsoNeeds(parts: seq<Part>, start: nat, existing: Bytes, size: nat, a: nat)
    requires Tiles(parts, start, existing, size) && PositiveSizes(parts) && a + 1 < |parts| && Need(parts[a]) > 0
    ensures Need(parts[a + 1]) > 0
  {
    PartFits(parts, start, existing, size, a);
    PartFits(parts, start, existing, size, a + 1);
  }

  /** The callbacks share one running offset but run concurrently, so the order in which they run
      matters: the append is right for every order that can occur and every local file of the given
      size if and only if at most one part needs bytes of the local file. */
  lemma OrderIsHarmlessIff(parts: seq<Part>, start: nat, existing: Bytes, size: nat)
    requires Tiles(parts, start, existing, size) && PositiveSizes(parts)
    ensures (forall order: seq<nat>, local: Bytes :: IsOrder(parts, order) && Reachable(order) && |local| == size ==>
               AppendCorrect(parts, start, existing, local, order))
       <==> AtMostOneNeeds(parts)
  {
    if AtMostOneNeeds(parts) {
      forall order: seq<nat>, local: Bytes | IsOrder(parts, order) && |local| == size
        ensures AppendCorrect(parts, start, existing, local, order)
      {
        OffsetInOrder(parts, start, existing, size, |parts|);
        TotalNeed(parts, order);
        forall k | 0 <= k < |order| ensures PartCorrect(parts, start, existing, local, order, k) {
          if Need(parts[order[k]]) > 0 { OneNeederIsAtZero(parts, start, existing, size, order, k); }
          FillsWanted(parts, start, existing, local, order[k], OffsetAfter(parts, order, k));
        }
      }
    } else {
      var a, b :| 0 <= a < b < |parts| && Need(parts[a]) > 0 && Need(parts[b]) > 0;
      NextAlsoNeeds(parts, start, existing, size, a);
      var order, local := WrongOrder(parts, start, existing, size, a);
    }
  }
}
