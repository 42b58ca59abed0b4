/** Facts about Euclidean division that the part arithmetic rests on. */
module Division {
  lemma {:induction false} MulAtLeast(n: int, d: int)
    requires n > 0 && d >= 1
    ensures n * d >= n
    decreases d
  {
    if d == 1 {
    } else {
      MulAtLeast(n, d - 1);
      assert n * d == n * (d - 1) + n;
    }
  }

  lemma MulCancel(n: int, x: int, y: int)
    requires n > 0 && n * x < n * y + n
    ensures x <= y
  {
    assert n * x == n * y + n * (x - y);
    if x > y {
      MulAtLeast(n, x - y);
    }
  }

  lemma DivBounds(b: int, n: int)
    requires n > 0
    ensures n * (b / n) <= b < n * (b / n) + n
  {}

  lemma DivUnique(b: int, n: int, q: int)
    requires n > 0 && n * q <= b < n * q + n
    ensures b / n == q
  {
    DivBounds(b, n);
    MulCancel(n, q, b / n);
    MulCancel(n, b / n, q);
  }

  lemma DivMonotone(a: int, b: int, n: int)
    requires n > 0 && a <= b
    ensures a / n <= b / n
  {
    DivBounds(a, n);
    DivBounds(b, n);
    MulCancel(n, a / n, b / n);
  }

  lemma DivShift(b: int, n: int)
    requires n > 0
    ensures (b + n) / n == b / n + 1
  {
    DivBounds(b, n);
    assert n * (b / n + 1) == n * (b / n) + n;
    DivUnique(b + n, n, b / n + 1);
  }
}
