/** Truncating-division facts shared by the scaling code, and the bit operations it uses. */
module Arith {

  /** An unsigned 32-bit computation wraps modulo 2^32. */
  function Wrap32(x: nat): nat {
    x % 0x1_0000_0000
  }

  /** The 32-bit product of two numbers is their product. */
  predicate NoWrap(a: nat, b: nat) {
    Wrap32(a * b) == a * b
  }

  /** `x & ~1`: clears the lowest bit. */
  function ClearLow(x: nat): nat {
    x - x % 2
  }

  lemma Cleared(x: nat)
    ensures ClearLow(x) <= x < ClearLow(x) + 2 && ClearLow(x) % 2 == 0
  {
  }

  /** `a ^ b`, bit by bit. */
  function Xor(a: nat, b: nat): nat
    decreases a + b
  {
    if a == 0 && b == 0 then 0 else 2 * Xor(a / 2, b / 2) + (a % 2 + b % 2) % 2
  }

  function Pow2(k: nat): nat {
    if k == 0 then 1 else 2 * Pow2(k - 1)
  }

  lemma {:induction false} XorBound(a: nat, b: nat, k: nat)
    requires a < Pow2(k) && b < Pow2(k)
    ensures Xor(a, b) < Pow2(k)
  {
    if k > 0 { XorBound(a / 2, b / 2, k - 1); }
  }

  lemma Halves(q: nat, b: nat)
    requires b < 2
    ensures (2 * q + b) / 2 == q && (2 * q + b) % 2 == b
  {
  }

  lemma Parity(p: nat, q: nat)
    requires p < 2 && q < 2
    ensures ((p + q) % 2 + q) % 2 == p
  {
  }

  /** Bits are combined place by place. */
  lemma {:induction false} XorBits(p: nat, bp: nat, q: nat, bq: nat)
    requires bp < 2 && bq < 2
    ensures Xor(2 * p + bp, 2 * q + bq) == 2 * Xor(p, q) + (bp + bq) % 2
  {
    Halves(p, bp);
    Halves(q, bq);
  }

  lemma {:induction false} XorBitsTwice(p: nat, bp: nat, q: nat, bq: nat)
    requires bp < 2 && bq < 2 && Xor(Xor(p, q), q) == p
    ensures Xor(Xor(2 * p + bp, 2 * q + bq), 2 * q + bq) == 2 * p + bp
  {
    XorBits(p, bp, q, bq);
    XorBits(Xor(p, q), (bp + bq) % 2, q, bq);
    Parity(bp, bq);
  }

  lemma {:induction false} XorInvolution(a: nat, b: nat)
    ensures Xor(Xor(a, b), b) == a
    decreases a + b
  {
    if a > 0 || b > 0 {
      XorInvolution(a / 2, b / 2);
      XorBitsTwice(a / 2, a % 2, b / 2, b % 2);
      assert 2 * (a / 2) + a % 2 == a && 2 * (b / 2) + b % 2 == b;
    }
  }

  lemma {:induction false} XorZero(a: nat)
    ensures Xor(a, 0) == a
  {
    if a > 0 { XorZero(a / 2); }
  }

  lemma MulMono(a: nat, b: nat, c: nat)
    requires a <= b
    ensures a * c <= b * c && c * a <= c * b
  {
  }

  lemma DivUnique(a: nat, d: nat, q: nat)
    requires 0 < d && d * q <= a < d * q + d
    ensures a / d == q && a % d == a - d * q
  {
    var r: nat := a / d;
    assert a == d * r + a % d;
    if r < q {
      MulMono(r + 1, q, d);
    } else if r > q {
      MulMono(q + 1, r, d);
    }
  }

  lemma DivBounds(a: nat, d: nat)
    requires 0 < d
    ensures d * (a / d) <= a < d * (a / d) + d
  {
    assert a == d * (a / d) + a % d;
  }

  lemma DivMono(a: nat, b: nat, d: nat)
    requires 0 < d && a <= b
    ensures a / d <= b / d
  {
    DivBounds(a, d);
    DivBounds(b, d);
    if a / d > b / d {
      MulMono(b / d + 1, a / d, d);
    }
  }

  lemma DivAddMultiple(a: nat, k: nat, d: nat)
    requires 0 < d
    ensures (a + k * d) / d == a / d + k
  {
    DivBounds(a, d);
    assert d * (a / d + k) == d * (a / d) + k * d;
    DivUnique(a + k * d, d, a / d + k);
  }

  lemma MulDiv(k: nat, d: nat)
    requires 0 < d
    ensures k * d / d == k
  {
    DivAddMultiple(0, k, d);
  }

  lemma DivLess(a: nat, d: nat, q: nat)
    requires 0 < d && a < q * d
    ensures a / d < q
  {
    DivBounds(a, d);
    if a / d >= q {
      MulMono(q, a / d, d);
    }
  }

  /** The position in a line of `n` samples read for position `i` of `m`. */
  function Scale(i: nat, n: nat, m: nat): nat
    requires 0 < m
  {
    i * n / m
  }

  /** Position `q` of a line of `n` is where position `i` of its scaled form of `m` is read: `q` is the
      quotient `i * n / m`, rounded down. */
  predicate ReadAt(i: nat, n: nat, m: nat, q: nat) { q * m <= i * n < (q + 1) * m }

  /** The same, rounded down to an even number. */
  predicate ReadAtEven(i: nat, n: nat, m: nat, q: nat) { q % 2 == 0 && q * m <= i * n < (q + 2) * m }

  lemma ReadAtScale(i: nat, n: nat, m: nat, q: nat)
    requires 0 < m && ReadAt(i, n, m, q)
    ensures Scale(i, n, m) == q
  {
    assert (q + 1) * m == m * q + m;
    DivUnique(i * n, m, q);
  }

  lemma EvenBelow(r: nat, q: nat)
    requires q % 2 == 0 && q <= r < q + 2
    ensures ClearLow(r) == q
  {
  }

  lemma ReadAtEvenScale(i: nat, n: nat, m: nat, q: nat)
    requires 0 < m && ReadAtEven(i, n, m, q)
    ensures ClearLow(Scale(i, n, m)) == q
  {
    var r := Scale(i, n, m);
    DivBounds(i * n, m);
    if r < q { MulMono(r + 1, q, m); }
    if r >= q + 2 { MulMono(q + 2, r, m); }
    EvenBelow(r, q);
  }

  /** Downscaling spreads positions out: `k` steps in the output are at least `k` in the source. */
  lemma ScaleGap(i: nat, k: nat, n: nat, m: nat)
    requires 0 < m <= n
    ensures Scale(i, n, m) + k <= Scale(i + k, n, m)
  {
    DivAddMultiple(i * n, k, m);
    MulMono(m, n, k);
    assert (i + k) * n == i * n + k * n;
    DivMono(i * n + k * m, (i + k) * n, m);
  }

  lemma ScaleMono(i: nat, j: nat, n: nat, m: nat)
    requires 0 < m && i <= j
    ensures Scale(i, n, m) <= Scale(j, n, m)
  {
    MulMono(i, j, n);
    DivMono(i * n, j * n, m);
  }

  /** Positions `k` short of the end of the output stay `k` short of the end of the source. */
  lemma ScaleRoom(i: nat, k: nat, n: nat, m: nat)
    requires 0 < m <= n && i + k <= m
    ensures Scale(i, n, m) + k <= n
  {
    ScaleGap(i, k, n, m);
    ScaleMono(i + k, m, n, m);
    assert m * n == n * m;
    MulDiv(n, m);
  }

  /** A row of the half-height plane is read from a row of the half-height source. */
  lemma ScaleHalf(i: nat, n: nat, m: nat)
    requires 0 < m <= n && 2 * i + 2 <= m
    ensures Scale(i, n, m) < n / 2
  {
    ScaleRoom(2 * i, 2, n, m);
    DivBounds(i * n, m);
    assert (2 * i) * n == 2 * (i * n);
    var q := Scale(i, n, m);
    assert m * (2 * q) == 2 * (m * q);
    MulDiv(2 * q, m);
    assert m * (2 * q) == (2 * q) * m;
    DivMono((2 * q) * m, (2 * i) * n, m);
    assert 2 * q <= Scale(2 * i, n, m);
  }

  /** Scaling to the same size reads every position in place. */
  lemma ScaleSame(i: nat, n: nat)
    requires 0 < n
    ensures Scale(i, n, n) == i
  {
    MulDiv(i, n);
  }

  lemma WrapBounds(x: nat)
    ensures Wrap32(x) <= x && (x < 0x1_0000_0000 ==> Wrap32(x) == x)
    ensures x >= 0x1_0000_0000 ==> Wrap32(x) + 0x1_0000_0000 <= x
  {
  }

  lemma ProductFits32(a: nat, b: nat)
    requires a <= 4096 && b <= 4096
    ensures a * b <= 0x100_0000 && NoWrap(a, b)
  {
    MulMono(a, 4096, b);
    MulMono(b, 4096, 4096);
  }
}
