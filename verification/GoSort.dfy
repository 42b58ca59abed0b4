/** A stand-in for the library sorts (`sort.Slice`, `sort.Strings`, `sort.Ints`): what the
    program relies on is only that the result is a sorted permutation of the input. */
module GoSort {
  ghost predicate TotalOrder<T(!new)>(leq: (T, T) -> bool) {
    && (forall x, y :: leq(x, y) || leq(y, x))
    && (forall x, y, z :: leq(x, y) && leq(y, z) ==> leq(x, z))
  }

  ghost predicate Sorted<T>(leq: (T, T) -> bool, s: seq<T>) {
    forall i, j :: 0 <= i < j < |s| ==> leq(s[i], s[j])
  }

  function Insert<T(!new)>(leq: (T, T) -> bool, x: T, s: seq<T>): (r: seq<T>)
    requires TotalOrder(leq) && Sorted(leq, s)
    ensures Sorted(leq, r) && multiset(r) == multiset(s) + multiset{x}
  {
    if s == [] then [x]
    else if leq(x, s[0]) then [x] + s
    else
      var t := Insert(leq, x, s[1..]);
      assert s == [s[0]] + s[1..];
      ConsSorted(leq, s[0], t, s[1..], x);
      [s[0]] + t
  }

  lemma ConsSorted<T(!new)>(leq: (T, T) -> bool, h: T, t: seq<T>, rest: seq<T>, x: T)
    requires Sorted(leq, t) && multiset(t) == multiset(rest) + multiset{x}
    requires leq(h, x) && forall i :: 0 <= i < |rest| ==> leq(h, rest[i])
    ensures Sorted(leq, [h] + t)
  {
    assert multiset(t) == multiset(rest + [x]);
    SameElements(t, rest + [x]);
    forall k | 0 <= k < |t| ensures leq(h, t[k]) {
      assert t[k] in t;
    }
  }

  function Sort<T(!new)>(leq: (T, T) -> bool, s: seq<T>): (r: seq<T>)
    requires TotalOrder(leq)
    ensures Sorted(leq, r) && multiset(r) == multiset(s)
  {
    if s == [] then []
    else
      assert s == [s[0]] + s[1..];
      Insert(leq, s[0], Sort(leq, s[1..]))
  }

  lemma PrefixStep<T>(s: seq<T>, i: nat)
    requires i < |s|
    ensures forall x :: x in s[..i + 1] <==> x in s[..i] || x == s[i]
  {
    assert s[..i + 1] == s[..i] + [s[i]];
  }

  lemma SameElements<T>(a: seq<T>, b: seq<T>)
    requires multiset(a) == multiset(b)
    ensures |a| == |b| && forall x :: x in a <==> x in b
  {
    assert |a| == |multiset(a)| == |multiset(b)| == |b|;
    forall x ensures x in a <==> x in b {
      assert x in a <==> x in multiset(a);
    }
  }

  /** `for k := range m`: the keys in an order the program cannot rely on. */
  method Elements<T(==)>(s: set<T>) returns (list: seq<T>)
    ensures multiset(list) == multiset(s)
  {
    list := [];
    var rest := s;
    while rest != {}
      invariant rest <= s && multiset(list) == multiset(s - rest)
      decreases rest
    {
      var x :| x in rest;
      list := list + [x];
      assert s - (rest - {x}) == (s - rest) + {x};
      rest := rest - {x};
    }
    assert s - rest == s;
  }

  /** A list with the elements of a set, each once, has no repetition. */
  lemma ListingOfSet<T>(a: seq<T>, s: set<T>)
    requires multiset(a) == multiset(s)
    ensures forall i, j :: 0 <= i < j < |a| ==> a[i] != a[j]
    ensures forall x :: x in a <==> x in s
    ensures |a| == |s|
  {
    forall x ensures x in a <==> x in s {
      assert x in a <==> x in multiset(a);
    }
    forall i, j | 0 <= i < j < |a| ensures a[i] != a[j] {
      assert a == a[..j] + [a[j]] + a[j + 1..];
      assert a[i] in a[..j];
      assert multiset(a)[a[i]] <= 1;
    }
    assert |a| == |multiset(a)|;
  }
}
