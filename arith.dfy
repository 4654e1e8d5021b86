/**
 * Unbounded-integer arithmetic used to state bit layouts: powers of two,
 * the number of binary digits Python prints for a natural number, and the
 * division facts that packing and unpacking rely on.
 */
module Arith {

  /** 2^n */
  function Pow2(n: nat): (r: nat)
    ensures r >= 1
  {
    if n == 0 then 1 else 2 * Pow2(n - 1)
  }

  lemma {:induction false} Pow2Add(a: nat, b: nat)
    ensures Pow2(a + b) == Pow2(a) * Pow2(b)
  {
    if a > 0 {
      Pow2Add(a - 1, b);
      assert Pow2(a + b) == 2 * Pow2(a - 1 + b);
    }
  }

  lemma {:induction false} Pow2Monotone(a: nat, b: nat)
    requires a <= b
    ensures Pow2(a) <= Pow2(b)
  {
    if a < b {
      Pow2Monotone(a, b - 1);
    }
  }

  /** The powers of two that name the instruction set's field widths. */
  lemma Pow2Four()
    ensures Pow2(4) == 16
  {
    assert Pow2(2) == 4;
  }

  lemma Pow2Values()
    ensures Pow2(1) == 2 && Pow2(4) == 16 && Pow2(8) == 256 && Pow2(12) == 0x1000
    ensures Pow2(15) == 0x8000 && Pow2(16) == 0x1_0000 && Pow2(19) == 0x8_0000
    ensures Pow2(20) == 0x10_0000 && Pow2(24) == 0x100_0000 && Pow2(28) == 0x1000_0000
    ensures Pow2(32) == 0x1_0000_0000
  {
    assert Pow2(2) == 4;
    assert Pow2(4) == 16;
    Pow2Add(4, 4);
    Pow2Add(8, 4);
    Pow2Add(12, 3);
    Pow2Add(12, 4);
    Pow2Add(16, 3);
    Pow2Add(16, 4);
    Pow2Add(16, 8);
    Pow2Add(16, 12);
    Pow2Add(16, 16);
  }

  /** The low n bits of w. */
  function Lo(w: nat, n: nat): (r: nat)
    ensures r < Pow2(n)
  {
    w % Pow2(n)
  }

  /** w shifted right by n bits. */
  function Hi(w: nat, n: nat): nat
  {
    DivNonNegative(w, Pow2(n));
    w / Pow2(n)
  }

  lemma DivNonNegative(x: nat, m: int)
    requires m > 0
    ensures x / m >= 0
  {
    var q := x / m;
    if q < 0 {
      MulLeMonotone(q, -1, m);
      assert false;
    }
  }

  /** hi shifted left by n bits, with low in the vacated bits. */
  function Join(hi: nat, low: nat, n: nat): nat
  {
    hi * Pow2(n) + low
  }

  lemma HiLoOfJoin(hi: nat, low: nat, n: nat)
    requires low < Pow2(n)
    ensures Hi(Join(hi, low, n), n) == hi && Lo(Join(hi, low, n), n) == low
  {
    SplitLow(hi, low, Pow2(n));
  }

  lemma JoinOfHiLo(w: nat, n: nat)
    ensures Join(Hi(w, n), Lo(w, n), n) == w
  {
  }

  lemma JoinBound(hi: nat, low: nat, a: nat, n: nat)
    requires hi < Pow2(a) && low < Pow2(n)
    ensures Join(hi, low, n) < Pow2(a + n)
  {
    Pow2Add(a, n);
    MulBound(hi, low, Pow2(n), Pow2(a));
  }

  lemma MulBound(hi: int, low: int, p: int, q: int)
    requires 0 <= hi < q && 0 <= low < p
    ensures hi * p + low < q * p
  {
    MulLeMonotone(hi + 1, q, p);
    assert (hi + 1) * p == hi * p + p;
  }

  lemma MulLeMonotone(x: int, y: int, m: int)
    requires x <= y && m >= 0
    ensures x * m <= y * m
  {
  }

  lemma HiHi(w: nat, a: nat, b: nat)
    ensures Hi(Hi(w, a), b) == Hi(w, a + b)
  {
    Pow2Add(a, b);
    DivDiv(w, Pow2(a), Pow2(b));
  }

  lemma HiBound(w: nat, a: nat, n: nat)
    requires w < Pow2(a + n)
    ensures Hi(w, n) < Pow2(a)
  {
    Pow2Add(n, a);
    DivBound(w, Pow2(n), Pow2(a));
  }

  /** Quotient and remainder are determined by the division equation. */
  lemma DivModUnique(x: int, m: int, q: int, r: int)
    requires m > 0 && 0 <= r < m && x == q * m + r
    ensures x / m == q && x % m == r
  {
    var q', r' := x / m, x % m;
    assert (q - q') * m == r' - r;
    if q > q' {
      MulAtLeast(q - q', m);
    } else if q < q' {
      MulAtLeast(q' - q, m);
    }
  }

  lemma MulAtLeast(k: int, m: int)
    requires k >= 1 && m > 0
    ensures k * m >= m
  {
  }

  /** Appending a low field of b below a: the two parts come back out. */
  lemma SplitLow(a: int, b: int, m: int)
    requires m > 0 && 0 <= b < m
    ensures (a * m + b) / m == a && (a * m + b) % m == b
  {
    DivModUnique(a * m + b, m, a, b);
  }

  lemma DivDiv(x: nat, a: nat, b: nat)
    requires a > 0 && b > 0
    ensures x / a / b == x / (a * b)
  {
    var q1, r1 := x / a, x % a;
    var q2, r2 := q1 / b, q1 % b;
    assert x == q2 * (a * b) + (r2 * a + r1) by {
      assert x == q1 * a + r1;
      assert q1 == q2 * b + r2;
    }
    MulBound(r2, r1, a, b);
    DivModUnique(x, a * b, q2, r2 * a + r1);
  }

  /** A value below m * n has a quotient by m below n. */
  lemma DivBound(x: nat, m: nat, n: nat)
    requires m > 0 && x < m * n
    ensures x / m < n
  {
    assert (x / m) * m <= x;
    MulCancelLess(x / m, n, m);
  }

  lemma MulCancelLess(q: int, n: int, m: int)
    requires m > 0 && q * m < n * m
    ensures q < n
  {
  }

  /** Number of digits of bin(v)[2:], which is what '{:0Nb}'.format(v) pads to at least N. */
  function BinLen(v: nat): (r: nat)
    ensures r >= 1
  {
    if v < 2 then 1 else 1 + BinLen(v / 2)
  }

  lemma {:induction false} BinLenBound(v: nat)
    ensures v < Pow2(BinLen(v))
  {
    if v >= 2 {
      BinLenBound(v / 2);
    }
  }

  lemma {:induction false} BinLenFits(v: nat, w: nat)
    requires w >= 1 && v < Pow2(w)
    ensures BinLen(v) <= w
  {
    if v >= 2 {
      assert w >= 2;
      BinLenFits(v / 2, w - 1);
    }
  }

  function Max(a: nat, b: nat): nat { if a < b then b else a }
}
