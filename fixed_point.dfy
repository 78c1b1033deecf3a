/**
 * Bit-true fixed-point arithmetic on raw integers.
 *
 * A fixed-point number in format Fmt(S, I, F) is held as its raw two's-complement
 * integer x, standing for the real value x / 2^F. The operations below are the
 * integer counterparts of the psi_fix primitives used by the complex multiplier
 * and the FIR filter: Resize (rounding, then wrap or saturation), Add, Sub and
 * Mult (exact result, then Resize).
 */
module FixedPoint {

  /**
   * Fixed-point format: sign flag (the sign bit S = 1 when true), integer bits,
   * fractional bits.
   */
  datatype Fmt = Fmt(S: bool, I: nat, F: nat)

  /** Rounding applied to the fractional bits that a resize drops. */
  datatype Rnd = Trunc | Round

  /** What a resize does with a value outside the target range. */
  datatype Saturation = Wrap | Sat

  function Max(a: nat, b: nat): nat { if a >= b then a else b }

  function Pow2(n: nat): (r: int)
    ensures r >= 1
  {
    if n == 0 then 1 else 2 * Pow2(n - 1)
  }

  lemma {:induction false} Pow2Add(a: nat, b: nat)
    ensures Pow2(a + b) == Pow2(a) * Pow2(b)
  {
    if a > 0 {
      Pow2Add(a - 1, b);
      calc {
        Pow2(a + b);
        2 * Pow2(a - 1 + b);
        2 * (Pow2(a - 1) * Pow2(b));
        (2 * Pow2(a - 1)) * Pow2(b);
      }
    }
  }

  lemma {:induction false} Pow2Mono(a: nat, b: nat)
    requires a <= b
    ensures Pow2(a) <= Pow2(b)
  {
    if a < b { Pow2Mono(a, b - 1); }
  }

  /** Total number of bits of a format. */
  function Width(f: Fmt): nat { (if f.S then 1 else 0) + f.I + f.F }

  /** Largest raw value of a format: 2^(I+F) - 1. */
  function Hi(f: Fmt): int { Pow2(f.I + f.F) - 1 }

  /** Smallest raw value of a format: -S * 2^(I+F). */
  function Lo(f: Fmt): int { if f.S then -Pow2(f.I + f.F) else 0 }

  predicate InRange(x: int, f: Fmt) { Lo(f) <= x <= Hi(f) }

  /** The range of a format holds exactly 2^Width raw values. */
  lemma RangeSize(f: Fmt)
    ensures Hi(f) - Lo(f) + 1 == Pow2(Width(f))
  {
    if f.S {
      assert Width(f) - 1 == f.I + f.F;
      assert Pow2(Width(f)) == 2 * Pow2(f.I + f.F);
    } else {
      assert Width(f) == f.I + f.F;
    }
  }

  /** Raw value x with fromF fractional bits, re-expressed with toF >= fromF fractional bits. */
  function Align(x: int, fromF: nat, toF: nat): int
    requires fromF <= toF
  {
    x * Pow2(toF - fromF)
  }

  /** The real number that raw value x with fF fractional bits stands for. */
  function RealValue(x: int, fF: nat): real {
    x as real / Pow2(fF) as real
  }

  /**
   * Whether the real value of x (with xF fractional bits) lies between the real
   * bounds of f; both sides are compared as integers at the finer of the two
   * precisions.
   */
  predicate WithinBounds(x: int, xF: nat, f: Fmt) {
    var m := Max(xF, f.F);
    Align(Lo(f), f.F, m) <= Align(x, xF, m) <= Align(Hi(f), f.F, m)
  }

  /** The integer comparison of WithinBounds is the comparison of real values. */
  lemma WithinBoundsReal(x: int, xF: nat, f: Fmt)
    ensures WithinBounds(x, xF, f) <==> RealValue(Lo(f), f.F) <= RealValue(x, xF) <= RealValue(Hi(f), f.F)
  {
    var m := Max(xF, f.F);
    AlignedCompare(Lo(f), f.F, x, xF, m);
    AlignedCompare(x, xF, Hi(f), f.F, m);
  }

  /** Comparing two raw values aligned to a common precision compares their real values. */
  lemma AlignedCompare(a: int, aF: nat, b: int, bF: nat, m: nat)
    requires aF <= m && bF <= m
    ensures Align(a, aF, m) <= Align(b, bF, m) <==> RealValue(a, aF) <= RealValue(b, bF)
  {
    Pow2Add(m - aF, aF);
    Pow2Add(m - bF, bF);
    RealScale(a, Pow2(m - aF), Pow2(aF));
    RealScale(b, Pow2(m - bF), Pow2(bF));
    DivMono(Align(a, aF, m), Align(b, bF, m), Pow2(m));
  }

  lemma RealScale(a: int, s: int, p: int)
    requires s >= 1 && p >= 1
    ensures (a * s) as real / (s * p) as real == a as real / p as real
  {
    assert (a * s) as real == a as real * s as real;
    assert (s * p) as real == s as real * p as real;
  }

  lemma DivMono(x: int, y: int, p: int)
    requires p >= 1
    ensures x <= y <==> x as real / p as real <= y as real / p as real
  {
  }

  /**
   * Changes the number of fractional bits from fromF to toF. Extra bits are zeros;
   * dropped bits are truncated (floor) or rounded (half an LSB of the target is
   * added before the floor).
   */
  function Requantize(x: int, fromF: nat, toF: nat, rnd: Rnd): (r: int)
    ensures toF >= fromF ==> r == x * Pow2(toF - fromF)
    ensures toF < fromF && rnd == Trunc ==>
      r * Pow2(fromF - toF) <= x < (r + 1) * Pow2(fromF - toF)
    ensures toF < fromF && rnd == Round ==>
      r * Pow2(fromF - toF) <= x + Pow2(fromF - toF - 1) < (r + 1) * Pow2(fromF - toF)
  {
    if toF >= fromF then Align(x, fromF, toF)
    else
      var p := Pow2(fromF - toF);
      var y := if rnd == Round then x + Pow2(fromF - toF - 1) else x;
      FloorDiv(y, p);
      y / p
  }

  lemma FloorDiv(y: int, p: int)
    requires p > 0
    ensures (y / p) * p <= y < (y / p + 1) * p
  {
    assert y == (y / p) * p + y % p;
  }

  /** Brings x into the range of f, by two's-complement wrap-around or by clamping. */
  function Saturate(x: int, f: Fmt, sat: Saturation): (r: int)
    ensures InRange(r, f)
    ensures InRange(x, f) ==> r == x
    ensures sat == Sat ==> (x > Hi(f) ==> r == Hi(f)) && (x < Lo(f) ==> r == Lo(f))
    ensures sat == Wrap ==> (x - r) % Pow2(Width(f)) == 0
  {
    match sat
    case Wrap =>
      RangeSize(f);
      var m := Pow2(Width(f));
      var r := Lo(f) + (x - Lo(f)) % m;
      WrapFacts(x - Lo(f), m);
      r
    case Sat =>
      if x > Hi(f) then Hi(f) else if x < Lo(f) then Lo(f) else x
  }

  lemma WrapFacts(y: int, m: int)
    requires m > 0
    ensures 0 <= y % m < m
    ensures 0 <= y < m ==> y % m == y
    ensures (y - y % m) % m == 0
  {
    assert y - y % m == (y / m) * m;
    MulMod(y / m, m);
  }

  lemma MulMod(k: int, m: int)
    requires m > 0
    ensures (k * m) % m == 0
  {
    var q := (k * m) / m;
    var s := (k * m) % m;
    assert k * m == q * m + s;
    assert (k - q) * m == s;
    MulAtLeast(k - q, m);
  }

  lemma MulAtLeast(d: int, m: int)
    requires m > 0
    ensures d >= 1 ==> d * m >= m
    ensures d <= -1 ==> d * m <= -m
  {
  }

  /**
   * Resize of a raw value x held in xFmt into rFmt: Requantize to rFmt.F, then
   * Saturate into the range of rFmt. Only the fractional bits of xFmt matter.
   */
  function Resize(x: int, xFmt: Fmt, rFmt: Fmt, rnd: Rnd, sat: Saturation): (r: int)
    ensures InRange(r, rFmt)
    ensures xFmt.F <= rFmt.F && InRange(Align(x, xFmt.F, rFmt.F), rFmt) ==>
      r == Align(x, xFmt.F, rFmt.F)
    ensures WithinBounds(x, xFmt.F, rFmt) ==> r == Requantize(x, xFmt.F, rFmt.F, rnd)
  {
    var q := Requantize(x, xFmt.F, rFmt.F, rnd);
    if WithinBounds(x, xFmt.F, rFmt) then
      RequantizeWithinBounds(x, xFmt.F, rFmt, rnd);
      Saturate(q, rFmt, sat)
    else
      Saturate(q, rFmt, sat)
  }

  lemma MulCancelLt(a: int, b: int, p: int)
    requires p > 0 && a * p < b * p
    ensures a < b
  {
    assert (b - a) * p == b * p - a * p;
    MulAtLeast(b - a, p);
  }

  /** A value within the real bounds of f stays within them after rounding to f.F bits. */
  lemma RequantizeWithinBounds(x: int, xF: nat, f: Fmt, rnd: Rnd)
    requires WithinBounds(x, xF, f)
    ensures InRange(Requantize(x, xF, f.F, rnd), f)
  {
    var r := Requantize(x, xF, f.F, rnd);
    if f.F < xF {
      var p := Pow2(xF - f.F);
      var h := if rnd == Round then Pow2(xF - f.F - 1) else 0;
      assert Max(xF, f.F) == xF;
      assert Align(x, xF, xF) == x;
      assert 0 <= h < p by {
        if rnd == Round { assert p == 2 * Pow2(xF - f.F - 1); }
      }
      FloorWithin(x, h, p, r, Lo(f), Hi(f));
    } else {
      assert Max(xF, f.F) == f.F;
      assert Pow2(f.F - f.F) == 1;
    }
  }

  lemma FloorWithin(y: int, h: int, p: int, r: int, lo: int, hi: int)
    requires p > 0 && 0 <= h < p
    requires lo * p <= y <= hi * p
    requires r * p <= y + h < (r + 1) * p
    ensures lo <= r <= hi
  {
    assert r * p < (hi + 1) * p;
    MulCancelLt(r, hi + 1, p);
    assert (lo - 1) * p < r * p;
    MulCancelLt(lo - 1, r, p);
  }

  /** Format of an exact product: S = max(Sa, Sb), I = Ia + Ib + 1, F = Fa + Fb. */
  function ForMult(a: Fmt, b: Fmt): Fmt {
    Fmt(a.S || b.S, a.I + b.I + 1, a.F + b.F)
  }

  /** Format holding the exact sum of operands in a and b. */
  function ForAdd(a: Fmt, b: Fmt): Fmt {
    Fmt(a.S || b.S, Max(a.I, b.I) + 1, Max(a.F, b.F))
  }

  /** Format holding the exact difference of operands in a and b (always signed). */
  function ForSub(a: Fmt, b: Fmt): Fmt {
    Fmt(true, Max(a.I, b.I) + 1, Max(a.F, b.F))
  }

  /** Exact product, then Resize into rFmt. */
  function Mult(a: int, aFmt: Fmt, b: int, bFmt: Fmt, rFmt: Fmt, rnd: Rnd, sat: Saturation): (r: int)
    ensures InRange(r, rFmt)
    ensures rFmt.F == aFmt.F + bFmt.F && InRange(a * b, rFmt) ==> r == a * b
  {
    AlignSame(a * b, aFmt.F + bFmt.F);
    Resize(a * b, ForMult(aFmt, bFmt), rFmt, rnd, sat)
  }

  /** Exact sum at the finer of the two precisions, then Resize into rFmt. */
  function Add(a: int, aFmt: Fmt, b: int, bFmt: Fmt, rFmt: Fmt, rnd: Rnd, sat: Saturation): (r: int)
    ensures InRange(r, rFmt)
    ensures aFmt.F == bFmt.F == rFmt.F && InRange(a + b, rFmt) ==> r == a + b
  {
    var m := Max(aFmt.F, bFmt.F);
    AlignSame(a, aFmt.F);
    AlignSame(b, bFmt.F);
    Resize(Align(a, aFmt.F, m) + Align(b, bFmt.F, m), ForAdd(aFmt, bFmt), rFmt, rnd, sat)
  }

  /** Exact difference at the finer of the two precisions, then Resize into rFmt. */
  function Sub(a: int, aFmt: Fmt, b: int, bFmt: Fmt, rFmt: Fmt, rnd: Rnd, sat: Saturation): (r: int)
    ensures InRange(r, rFmt)
    ensures aFmt.F == bFmt.F == rFmt.F && InRange(a - b, rFmt) ==> r == a - b
  {
    var m := Max(aFmt.F, bFmt.F);
    AlignSame(a, aFmt.F);
    AlignSame(b, bFmt.F);
    Resize(Align(a, aFmt.F, m) - Align(b, bFmt.F, m), ForSub(aFmt, bFmt), rFmt, rnd, sat)
  }

  /** Re-expressing a value at its own precision changes nothing. */
  lemma AlignSame(x: int, f: nat)
    ensures Max(f, f) == f && Align(x, f, f) == x
  {
  }

  // ---------------------------------------------------------------------------
  // Format growth: the derived formats hold exact results
  // ---------------------------------------------------------------------------

  lemma MulLe(a: int, b: int, c: int)
    requires a >= 0 && b <= c
    ensures a * b <= a * c
  {
    assert a * c - a * b == a * (c - b);
  }

  /** |x| <= P and |y| <= Q give |x * y| <= P * Q. */
  lemma MulAbsBound(x: int, y: int, p: int, q: int)
    requires -p <= x <= p && -q <= y <= q
    ensures -(p * q) <= x * y <= p * q
  {
    var ax := if x >= 0 then x else -x;
    var ay := if y >= 0 then y else -y;
    assert ax * ay == x * y || ax * ay == -(x * y);
    MulLe(ax, ay, q);
    MulLe(q, ax, p);
    assert ax * q == q * ax && q * p == p * q;
  }

  /** A value of f is a value of any g with at least f's sign and magnitude bits. */
  lemma Widen(x: int, f: Fmt, g: Fmt)
    requires InRange(x, f) && (f.S ==> g.S) && f.I + f.F <= g.I + g.F
    ensures InRange(x, g)
  {
    Pow2Mono(f.I + f.F, g.I + g.F);
  }

  /** Scaling by k >= 1 keeps a value inside the correspondingly scaled range. */
  lemma ScaleRange(x: int, k: int, p: int, pk: int, xk: int, signed: bool)
    requires k >= 1 && p >= 1 && pk == p * k && xk == x * k
    requires signed ==> -p <= x
    requires !signed ==> 0 <= x
    requires x <= p - 1
    ensures signed ==> -pk <= xk
    ensures !signed ==> 0 <= xk
    ensures xk <= pk - 1
  {
    MulLe(k, x, p - 1);
    assert k * (p - 1) == pk - k;
    if signed {
      MulLe(k, -p, x);
    } else {
      MulLe(k, 0, x);
    }
  }

  /** Adding fractional bits (zeros) keeps a value in range. */
  lemma AlignInRange(x: int, f: Fmt, m: nat)
    requires InRange(x, f) && f.F <= m
    ensures InRange(Align(x, f.F, m), Fmt(f.S, f.I, m))
  {
    var k: int := Pow2(m - f.F);
    var p: int := Pow2(f.I + f.F);
    var pk: int := Pow2(f.I + m);
    Pow2Add(f.I + f.F, m - f.F);
    assert f.I + f.F + (m - f.F) == f.I + m;
    ScaleRange(x, k, p, pk, Align(x, f.F, m), f.S);
  }

  /** Bounds of the product of x in [lx, p - 1] and y in [ly, q - 1], |lx| <= p, |ly| <= q. */
  lemma ProductBound(x: int, y: int, p: int, q: int, pq: int, xy: int, sx: bool, sy: bool)
    requires p >= 1 && q >= 1 && pq == p * q && xy == x * y
    requires sx ==> -p <= x
    requires !sx ==> 0 <= x
    requires x <= p - 1
    requires sy ==> -q <= y
    requires !sy ==> 0 <= y
    requires y <= q - 1
    ensures -(2 * pq) <= xy <= 2 * pq - 1
    ensures !sx && !sy ==> 0 <= xy
  {
    MulAbsBound(x, y, p, q);
    if !sx && !sy {
      MulLe(x, 0, y);
    }
  }

  /** The product of x in [-S 2^i, 2^i - 1] and y in [-S 2^j, 2^j - 1] fits 2^(i + j + 1). */
  lemma ProductFitsPow(x: int, y: int, i: nat, j: nat, sx: bool, sy: bool)
    requires sx ==> -Pow2(i) <= x
    requires !sx ==> 0 <= x
    requires x <= Pow2(i) - 1
    requires sy ==> -Pow2(j) <= y
    requires !sy ==> 0 <= y
    requires y <= Pow2(j) - 1
    ensures -Pow2(i + j + 1) <= x * y <= Pow2(i + j + 1) - 1
    ensures !sx && !sy ==> 0 <= x * y
  {
    var pq: int := Pow2(i + j);
    assert pq == Pow2(i) * Pow2(j) by { Pow2Add(i, j); }
    assert Pow2(i + j + 1) == 2 * pq;
    ProductBound(x, y, Pow2(i), Pow2(j), pq, x * y, sx, sy);
  }

  /** ForMult is wide enough for the product of any two values, signed or not. */
  lemma ProductFits(x: int, a: Fmt, y: int, b: Fmt)
    requires InRange(x, a) && InRange(y, b)
    ensures InRange(x * y, ForMult(a, b))
  {
    var r := ForMult(a, b);
    ProductFitsPow(x, y, a.I + a.F, b.I + b.F, a.S, b.S);
    assert r.I + r.F == (a.I + a.F) + (b.I + b.F) + 1;
  }

  /** Both operands of an addition or subtraction, aligned to the common precision m. */
  lemma AlignedOperands(x: int, a: Fmt, y: int, b: Fmt, m: nat, n: nat, pn: int)
    requires InRange(x, a) && InRange(y, b)
    requires m == Max(a.F, b.F) && n == Max(a.I, b.I) + m && pn == Pow2(n)
    ensures -pn <= Align(x, a.F, m) <= pn - 1 && -pn <= Align(y, b.F, m) <= pn - 1
    ensures !a.S ==> 0 <= Align(x, a.F, m)
    ensures !b.S ==> 0 <= Align(y, b.F, m)
  {
    var w := Fmt(true, Max(a.I, b.I), m);
    assert Lo(w) == -pn && Hi(w) == pn - 1;
    var xa := Align(x, a.F, m);
    var ya := Align(y, b.F, m);
    AlignInRange(x, a, m);
    Widen(xa, Fmt(a.S, a.I, m), w);
    AlignInRange(y, b, m);
    Widen(ya, Fmt(b.S, b.I, m), w);
    if !a.S { assert Lo(Fmt(a.S, a.I, m)) == 0; }
    if !b.S { assert Lo(Fmt(b.S, b.I, m)) == 0; }
  }

  /** ForAdd holds the exact aligned sum of any two values. */
  lemma SumFits(x: int, a: Fmt, y: int, b: Fmt)
    requires InRange(x, a) && InRange(y, b)
    ensures InRange(Align(x, a.F, Max(a.F, b.F)) + Align(y, b.F, Max(a.F, b.F)), ForAdd(a, b))
  {
    var m := Max(a.F, b.F);
    var r := ForAdd(a, b);
    var n := Max(a.I, b.I) + m;
    var pn: int := Pow2(n);
    AlignedOperands(x, a, y, b, m, n, pn);
    assert r.I + r.F == n + 1;
    assert Hi(r) == 2 * pn - 1;
    if r.S {
      assert Lo(r) == -2 * pn;
    } else {
      assert Lo(r) == 0;
    }
  }

  /** ForSub holds the exact aligned difference of any two values. */
  lemma DiffFits(x: int, a: Fmt, y: int, b: Fmt)
    requires InRange(x, a) && InRange(y, b)
    ensures InRange(Align(x, a.F, Max(a.F, b.F)) - Align(y, b.F, Max(a.F, b.F)), ForSub(a, b))
  {
    var m := Max(a.F, b.F);
    var r := ForSub(a, b);
    var n := Max(a.I, b.I) + m;
    var pn: int := Pow2(n);
    AlignedOperands(x, a, y, b, m, n, pn);
    assert r.I + r.F == n + 1;
    assert Hi(r) == 2 * pn - 1;
    assert Lo(r) == -2 * pn;
  }

  // ---------------------------------------------------------------------------
  // Properties of Resize
  // ---------------------------------------------------------------------------

  /** Resizing a value that is already in the target format changes nothing. */
  lemma ResizeIdempotent(x: int, xFmt: Fmt, rFmt: Fmt, rnd: Rnd, sat: Saturation)
    ensures Resize(Resize(x, xFmt, rFmt, rnd, sat), rFmt, rFmt, rnd, sat)
         == Resize(x, xFmt, rFmt, rnd, sat)
  {
    var y := Resize(x, xFmt, rFmt, rnd, sat);
    assert Align(y, rFmt.F, rFmt.F) == y;
  }

  /**
   * One LSB above the upper bound, Wrap gives the lower bound and Sat the upper bound.
   */
  lemma WrapSatBoundary(f: Fmt)
    ensures Saturate(Hi(f) + 1, f, Wrap) == Lo(f)
    ensures Saturate(Hi(f) + 1, f, Sat) == Hi(f)
  {
    RangeSize(f);
    var m := Pow2(Width(f));
    assert Hi(f) + 1 - Lo(f) == m;
    MulMod(1, m);
  }
}
