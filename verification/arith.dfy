/** Multiplication, division and powers of two, for the proofs about rounding and counting. */
module Arith {
  lemma MulMonotone(a: int, b: int, n: int)
    requires a <= b && n >= 0
    ensures a * n <= b * n
  {
    assert (b - a) * n >= 0;
  }

  lemma MulDistributes(a: int, b: int, n: int)
    ensures (a + b) * n == a * n + b * n
    ensures (a - b) * n == a * n - b * n
  {
  }

  lemma DivBounds(x: int, n: int)
    requires n > 0
    ensures (x / n) * n <= x < (x / n + 1) * n
  {
    assert x == (x / n) * n + x % n;
    MulDistributes(x / n, 1, n);
  }

  lemma DivUnique(x: int, n: int, q: int)
    requires n > 0 && q * n <= x < (q + 1) * n
    ensures x / n == q
  {
    DivBounds(x, n);
    if q + 1 <= x / n {
      MulMonotone(q + 1, x / n, n);
    }
    if x / n + 1 <= q {
      MulMonotone(x / n + 1, q, n);
    }
  }

  lemma DivMonotone(x: int, y: int, n: int)
    requires n > 0 && x <= y
    ensures x / n <= y / n
  {
    DivBounds(x, n);
    DivBounds(y, n);
    if y / n + 1 <= x / n {
      MulMonotone(y / n + 1, x / n, n);
    }
  }

  lemma DivOneMore(x: int, n: int)
    requires n > 0
    ensures (x + n) / n == x / n + 1
  {
    DivBounds(x, n);
    MulDistributes(x / n, 1, n);
    MulDistributes(x / n + 1, 1, n);
    DivUnique(x + n, n, x / n + 1);
  }

  lemma RealDivide(a: real, b: real, n: real)
    requires n > 0.0
    ensures a * n <= b * n <==> a <= b
  {
    assert a > b ==> (a - b) * n > 0.0;
    assert a <= b ==> (b - a) * n >= 0.0;
  }

  lemma RealProduct(a: int, b: int)
    ensures (a * b) as real == a as real * b as real
  {
  }

  function Pow2(n: nat): (p: nat)
    ensures p >= 1
  {
    if n == 0 then 1 else 2 * Pow2(n - 1)
  }
}
