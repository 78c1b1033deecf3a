/**
 * Bit-true model of psi_fix_complex_mult: (aI + j aQ) * (bI + j bQ) computed either
 * with four real multiplications or with three (a Karatsuba-style form using
 * pre-adders, as in DSP slices). Every intermediate step truncates and wraps; only
 * the two final additions apply the configured rounding and saturation.
 */
module ComplexMultiplier {
  import opened FixedPoint

  /**
   * A configured multiplier: input formats of A and B, the derived pre-adder and
   * product formats, the output format and policies, and the algorithm choice
   * (mult4 = true: four multiplications, false: three).
   */
  datatype ComplexMult = ComplexMult(
    inAFmt: Fmt, preAddAFmt: Fmt,
    inBFmt: Fmt, preAddBFmt: Fmt,
    mult4Fmt: Fmt, mult3Fmt: Fmt,
    outFmt: Fmt, rnd: Rnd, sat: Saturation, mult4: bool)

  /**
   * The constructor: derives the intermediate formats from the input formats.
   * A pre-adder result keeps its input's sign and fractional bits and gains one
   * integer bit; the four-multiplier product format is the exact product format
   * of A and B; the three-multiplier product format has one integer bit more, which
   * makes it the exact product format of a pre-adder output with the other input.
   */
  function NewComplexMult(inAFmt: Fmt, inBFmt: Fmt, outFmt: Fmt,
                          rnd: Rnd, sat: Saturation, mult4: bool): (c: ComplexMult)
    ensures c.preAddAFmt.S == inAFmt.S && c.preAddAFmt.I == inAFmt.I + 1 && c.preAddAFmt.F == inAFmt.F
    ensures c.preAddBFmt.S == inBFmt.S && c.preAddBFmt.I == inBFmt.I + 1 && c.preAddBFmt.F == inBFmt.F
    ensures c.mult4Fmt.S == (inAFmt.S || inBFmt.S)
    ensures c.mult4Fmt.I == inAFmt.I + inBFmt.I + 1 && c.mult4Fmt.F == inAFmt.F + inBFmt.F
    ensures c.mult3Fmt == ForMult(c.preAddAFmt, inBFmt) == ForMult(c.preAddBFmt, inAFmt)
    ensures c.mult3Fmt.S == c.mult4Fmt.S && c.mult3Fmt.I == c.mult4Fmt.I + 1 && c.mult3Fmt.F == c.mult4Fmt.F
    ensures c.inAFmt == inAFmt && c.inBFmt == inBFmt && c.outFmt == outFmt
    ensures c.rnd == rnd && c.sat == sat && c.mult4 == mult4
  {
    var preAddAFmt := Fmt(inAFmt.S, inAFmt.I + 1, inAFmt.F);
    var preAddBFmt := Fmt(inBFmt.S, inBFmt.I + 1, inBFmt.F);
    var mult4Fmt := Fmt(inAFmt.S || inBFmt.S, inAFmt.I + inBFmt.I + 1, inAFmt.F + inBFmt.F);
    var mult3Fmt := Fmt(mult4Fmt.S, mult4Fmt.I + 1, mult4Fmt.F);
    ComplexMult(inAFmt, preAddAFmt, inBFmt, preAddBFmt, mult4Fmt, mult3Fmt, outFmt, rnd, sat, mult4)
  }

  /** The constructor's defaults: rounding, saturation and four multiplications. */
  function DefaultComplexMult(inAFmt: Fmt, inBFmt: Fmt, outFmt: Fmt): (c: ComplexMult)
    ensures c.rnd == Round && c.sat == Sat && c.mult4
    ensures c.inAFmt == inAFmt && c.inBFmt == inBFmt && c.outFmt == outFmt
    ensures ValidMult(c)
  {
    NewComplexMult(inAFmt, inBFmt, outFmt, Round, Sat, true)
  }

  /** c was built by the constructor, so its derived formats are consistent. */
  predicate ValidMult(c: ComplexMult) {
    c == NewComplexMult(c.inAFmt, c.inBFmt, c.outFmt, c.rnd, c.sat, c.mult4)
  }

  /** The raw inputs are values of the declared input formats. */
  predicate InputsInRange(c: ComplexMult, ai: int, aq: int, bi: int, bq: int) {
    InRange(ai, c.inAFmt) && InRange(aq, c.inAFmt) && InRange(bi, c.inBFmt) && InRange(bq, c.inBFmt)
  }

  /**
   * Reference result: the exact complex product aI bI - aQ bQ, aI bQ + aQ bI (with
   * FA + FB fractional bits), rounded and saturated once into the output format.
   */
  function ExactProduct(c: ComplexMult, ai: int, aq: int, bi: int, bq: int): (int, int) {
    (Resize(ai * bi - aq * bq, c.mult4Fmt, c.outFmt, c.rnd, c.sat),
     Resize(ai * bq + aq * bi, c.mult4Fmt, c.outFmt, c.rnd, c.sat))
  }

  // ---------------------------------------------------------------------------
  // Exactness of the truncate/wrap intermediates
  // ---------------------------------------------------------------------------

  /** A truncating, wrapping multiplication into the exact product format loses nothing. */
  lemma ProductExact(x: int, a: Fmt, y: int, b: Fmt)
    requires InRange(x, a) && InRange(y, b)
    ensures Mult(x, a, y, b, ForMult(a, b), Trunc, Wrap) == x * y
  {
    ProductFits(x, a, y, b);
  }

  /**
   * For a signed format f, the difference and the sum of two values of f fit the
   * pre-adder format (one more integer bit), so the wrap-only pre-adder never wraps.
   */
  lemma PreAddExact(x: int, y: int, f: Fmt)
    requires f.S && InRange(x, f) && InRange(y, f)
    ensures Sub(x, f, y, f, Fmt(f.S, f.I + 1, f.F), Trunc, Wrap) == x - y
    ensures Add(x, f, y, f, Fmt(f.S, f.I + 1, f.F), Trunc, Wrap) == x + y
    ensures InRange(x - y, Fmt(f.S, f.I + 1, f.F)) && InRange(x + y, Fmt(f.S, f.I + 1, f.F))
  {
    assert Max(f.F, f.F) == f.F && Max(f.I, f.I) == f.I;
    assert Align(x, f.F, f.F) == x && Align(y, f.F, f.F) == y;
    DiffFits(x, f, y, f);
    SumFits(x, f, y, f);
    assert ForSub(f, f) == ForAdd(f, f) == Fmt(f.S, f.I + 1, f.F);
  }

  /** The three-multiplier sums equal the four-multiplier sums, as integers. */
  lemma KaratsubaIdentity(ai: int, aq: int, bi: int, bq: int)
    ensures (ai - aq) * bq + (bi - bq) * ai == ai * bi - aq * bq
    ensures (ai - aq) * bq + (bi + bq) * aq == ai * bq + aq * bi
  {
    assert (ai - aq) * bq == ai * bq - aq * bq;
    assert (bi - bq) * ai == ai * bi - ai * bq;
    assert (bi + bq) * aq == aq * bi + aq * bq;
  }

  // ---------------------------------------------------------------------------
  // The two algorithms
  // ---------------------------------------------------------------------------

  /** Four real multiplications (Trunc/Wrap into mult4Fmt), then Sub and Add into outFmt. */
  function FourMult(c: ComplexMult, ai: int, aq: int, bi: int, bq: int): (r: (int, int))
    requires ValidMult(c) && InputsInRange(c, ai, aq, bi, bq)
    ensures r == ExactProduct(c, ai, aq, bi, bq)
  {
    var multIQ := Mult(ai, c.inAFmt, bq, c.inBFmt, c.mult4Fmt, Trunc, Wrap);
    var multQI := Mult(aq, c.inAFmt, bi, c.inBFmt, c.mult4Fmt, Trunc, Wrap);
    var multII := Mult(ai, c.inAFmt, bi, c.inBFmt, c.mult4Fmt, Trunc, Wrap);
    var multQQ := Mult(aq, c.inAFmt, bq, c.inBFmt, c.mult4Fmt, Trunc, Wrap);
    ProductExact(ai, c.inAFmt, bq, c.inBFmt);
    ProductExact(aq, c.inAFmt, bi, c.inBFmt);
    ProductExact(ai, c.inAFmt, bi, c.inBFmt);
    ProductExact(aq, c.inAFmt, bq, c.inBFmt);
    var sumI := Sub(multII, c.mult4Fmt, multQQ, c.mult4Fmt, c.outFmt, c.rnd, c.sat);
    var sumQ := Add(multIQ, c.mult4Fmt, multQI, c.mult4Fmt, c.outFmt, c.rnd, c.sat);
    SubSameF(multII, multQQ, c.mult4Fmt, c.outFmt, c.rnd, c.sat);
    AddSameF(multIQ, multQI, c.mult4Fmt, c.mult4Fmt, c.outFmt, c.rnd, c.sat, multIQ + multQI);
    (sumI, sumQ)
  }


  /**
   * Three real multiplications: the shared term (aI - aQ) bQ, then
   * I = shared + (bI - bQ) aI and Q = shared + (bI + bQ) aQ. The pre-adders and the
   * products truncate and wrap; only the two final additions round and saturate.
   * For signed inputs this is the exact complex product, rounded once.
   */
  function ThreeMult(c: ComplexMult, ai: int, aq: int, bi: int, bq: int): (r: (int, int))
    ensures InRange(r.0, c.outFmt) && InRange(r.1, c.outFmt)
  {
    // common term
    var subA := Sub(ai, c.inAFmt, aq, c.inAFmt, c.preAddAFmt, Trunc, Wrap);
    var multSubAQ := Mult(subA, c.preAddAFmt, bq, c.inBFmt, c.mult3Fmt, Trunc, Wrap);
    // real part
    var subB := Sub(bi, c.inBFmt, bq, c.inBFmt, c.preAddBFmt, Trunc, Wrap);
    var multSubBI := Mult(subB, c.preAddBFmt, ai, c.inAFmt, c.mult3Fmt, Trunc, Wrap);
    var sumI := Add(multSubAQ, c.mult3Fmt, multSubBI, c.mult3Fmt, c.outFmt, c.rnd, c.sat);
    // imaginary part
    var sumB := Add(bi, c.inBFmt, bq, c.inBFmt, c.preAddBFmt, Trunc, Wrap);
    var multSumBQ := Mult(sumB, c.preAddBFmt, aq, c.inAFmt, c.mult3Fmt, Trunc, Wrap);
    var sumQ := Add(multSubAQ, c.mult3Fmt, multSumBQ, c.mult3Fmt, c.outFmt, c.rnd, c.sat);
    (sumI, sumQ)
  }

  /** For signed inputs, the three-multiplier form is the exact product rounded once. */
  lemma ThreeMultExact(c: ComplexMult, ai: int, aq: int, bi: int, bq: int)
    requires ValidMult(c) && InputsInRange(c, ai, aq, bi, bq) && c.inAFmt.S && c.inBFmt.S
    ensures ThreeMult(c, ai, aq, bi, bq) == ExactProduct(c, ai, aq, bi, bq)
  {
    ThreeMultRealExact(c, ai, aq, bi, bq);
    ThreeMultImagExact(c, ai, aq, bi, bq);
  }

  lemma ThreeMultRealExact(c: ComplexMult, ai: int, aq: int, bi: int, bq: int)
    requires ValidMult(c) && InputsInRange(c, ai, aq, bi, bq) && c.inAFmt.S && c.inBFmt.S
    ensures ThreeMult(c, ai, aq, bi, bq).0 == ExactProduct(c, ai, aq, bi, bq).0
  {
    var a, b, m3 := c.inAFmt, c.inBFmt, c.mult3Fmt;
    ThreeMultTermsExact(c, ai, aq, bi, bq);
    FinalSumsExact(c, ai, aq, bi, bq,
      Mult(Sub(ai, a, aq, a, c.preAddAFmt, Trunc, Wrap), c.preAddAFmt, bq, b, m3, Trunc, Wrap),
      Mult(Sub(bi, b, bq, b, c.preAddBFmt, Trunc, Wrap), c.preAddBFmt, ai, a, m3, Trunc, Wrap), true);
  }

  lemma ThreeMultImagExact(c: ComplexMult, ai: int, aq: int, bi: int, bq: int)
    requires ValidMult(c) && InputsInRange(c, ai, aq, bi, bq) && c.inAFmt.S && c.inBFmt.S
    ensures ThreeMult(c, ai, aq, bi, bq).1 == ExactProduct(c, ai, aq, bi, bq).1
  {
    var a, b, m3 := c.inAFmt, c.inBFmt, c.mult3Fmt;
    ThreeMultTermsExact(c, ai, aq, bi, bq);
    FinalSumsExact(c, ai, aq, bi, bq,
      Mult(Sub(ai, a, aq, a, c.preAddAFmt, Trunc, Wrap), c.preAddAFmt, bq, b, m3, Trunc, Wrap),
      Mult(Add(bi, b, bq, b, c.preAddBFmt, Trunc, Wrap), c.preAddBFmt, aq, a, m3, Trunc, Wrap), false);
  }

  /** For signed inputs the three pre-adder/multiplier stages compute their terms exactly. */
  lemma ThreeMultTermsExact(c: ComplexMult, ai: int, aq: int, bi: int, bq: int)
    requires ValidMult(c) && InputsInRange(c, ai, aq, bi, bq) && c.inAFmt.S && c.inBFmt.S
    ensures Mult(Sub(ai, c.inAFmt, aq, c.inAFmt, c.preAddAFmt, Trunc, Wrap), c.preAddAFmt,
                 bq, c.inBFmt, c.mult3Fmt, Trunc, Wrap) == (ai - aq) * bq
    ensures Mult(Sub(bi, c.inBFmt, bq, c.inBFmt, c.preAddBFmt, Trunc, Wrap), c.preAddBFmt,
                 ai, c.inAFmt, c.mult3Fmt, Trunc, Wrap) == (bi - bq) * ai
    ensures Mult(Add(bi, c.inBFmt, bq, c.inBFmt, c.preAddBFmt, Trunc, Wrap), c.preAddBFmt,
                 aq, c.inAFmt, c.mult3Fmt, Trunc, Wrap) == (bi + bq) * aq
  {
    StageExact(ai, aq, c.inAFmt, c.preAddAFmt, bq, c.inBFmt, c.mult3Fmt, true);
    StageExact(bi, bq, c.inBFmt, c.preAddBFmt, ai, c.inAFmt, c.mult3Fmt, true);
    StageExact(bi, bq, c.inBFmt, c.preAddBFmt, aq, c.inAFmt, c.mult3Fmt, false);
  }

  /**
   * One pre-adder/multiplier stage: a wrap-only pre-adder on a signed format f (into
   * the pre-adder format p) followed by a truncating, wrapping product into the exact
   * product format of p and g loses nothing.
   */
  lemma StageExact(x: int, y: int, f: Fmt, p: Fmt, z: int, g: Fmt, m: Fmt, sub: bool)
    requires f.S && InRange(x, f) && InRange(y, f) && InRange(z, g)
    requires p == Fmt(f.S, f.I + 1, f.F) && m == ForMult(p, g)
    ensures sub ==> Mult(Sub(x, f, y, f, p, Trunc, Wrap), p, z, g, m, Trunc, Wrap) == (x - y) * z
    ensures !sub ==> Mult(Add(x, f, y, f, p, Trunc, Wrap), p, z, g, m, Trunc, Wrap) == (x + y) * z
  {
    PreAddExact(x, y, f);
    var s := if sub then x - y else x + y;
    assert s == if sub then Sub(x, f, y, f, p, Trunc, Wrap) else Add(x, f, y, f, p, Trunc, Wrap);
    ProductExact(s, p, z, g);
  }

  /**
   * Given the exact shared term and the exact real (or imaginary) term, the final
   * rounding adder of the three-multiplier form yields the exact product's real
   * (or imaginary) part rounded once.
   */
  lemma FinalSumsExact(c: ComplexMult, ai: int, aq: int, bi: int, bq: int, common: int, term: int, isReal: bool)
    requires ValidMult(c)
    requires common == (ai - aq) * bq
    requires term == if isReal then (bi - bq) * ai else (bi + bq) * aq
    ensures Add(common, c.mult3Fmt, term, c.mult3Fmt, c.outFmt, c.rnd, c.sat)
         == if isReal then ExactProduct(c, ai, aq, bi, bq).0 else ExactProduct(c, ai, aq, bi, bq).1
  {
    KaratsubaIdentity(ai, aq, bi, bq);
    var exact := if isReal then ai * bi - aq * bq else ai * bq + aq * bi;
    AddSameF(common, term, c.mult3Fmt, c.mult4Fmt, c.outFmt, c.rnd, c.sat, exact);
  }

  /** Adding two values of one format m rescales nothing: it is a resize of the exact sum. */
  lemma AddSameF(x: int, y: int, m: Fmt, n: Fmt, out: Fmt, rnd: Rnd, sat: Saturation, sum: int)
    requires m.F == n.F && sum == x + y
    ensures Add(x, m, y, m, out, rnd, sat) == Resize(sum, n, out, rnd, sat)
  {
    AlignSame(x, m.F);
    AlignSame(y, m.F);
  }

  /** Subtracting two values of one format m is a resize of the exact difference. */
  lemma SubSameF(x: int, y: int, m: Fmt, out: Fmt, rnd: Rnd, sat: Saturation)
    ensures Sub(x, m, y, m, out, rnd, sat) == Resize(x - y, m, out, rnd, sat)
  {
    AlignSame(x, m.F);
    AlignSame(y, m.F);
  }

  /**
   * psi_fix_complex_mult.Process on one sample: the algorithm chosen by mult4.
   * Both results are values of the output format; with four multiplications, or
   * with three and signed inputs, they are the exact product rounded once.
   */
  function Process(c: ComplexMult, ai: int, aq: int, bi: int, bq: int): (r: (int, int))
    requires ValidMult(c) && InputsInRange(c, ai, aq, bi, bq)
    ensures InRange(r.0, c.outFmt) && InRange(r.1, c.outFmt)
    ensures c.mult4 || (c.inAFmt.S && c.inBFmt.S) ==> r == ExactProduct(c, ai, aq, bi, bq)
  {
    if c.mult4 then
      FourMult(c, ai, aq, bi, bq)
    else if c.inAFmt.S && c.inBFmt.S then
      ThreeMultExact(c, ai, aq, bi, bq);
      ThreeMult(c, ai, aq, bi, bq)
    else
      ThreeMult(c, ai, aq, bi, bq)
  }

  // ---------------------------------------------------------------------------
  // Properties across configurations
  // ---------------------------------------------------------------------------

  /**
   * For signed input formats, the three- and four-multiplier forms give identical
   * results for the same formats, policies and inputs.
   */
  lemma FormsAgree(inAFmt: Fmt, inBFmt: Fmt, outFmt: Fmt, rnd: Rnd, sat: Saturation,
                   ai: int, aq: int, bi: int, bq: int)
    requires inAFmt.S && inBFmt.S
    requires InRange(ai, inAFmt) && InRange(aq, inAFmt) && InRange(bi, inBFmt) && InRange(bq, inBFmt)
    ensures Process(NewComplexMult(inAFmt, inBFmt, outFmt, rnd, sat, false), ai, aq, bi, bq)
         == Process(NewComplexMult(inAFmt, inBFmt, outFmt, rnd, sat, true), ai, aq, bi, bq)
  {
    var c3 := NewComplexMult(inAFmt, inBFmt, outFmt, rnd, sat, false);
    var c4 := NewComplexMult(inAFmt, inBFmt, outFmt, rnd, sat, true);
    assert ExactProduct(c3, ai, aq, bi, bq) == ExactProduct(c4, ai, aq, bi, bq);
  }

  /**
   * With unsigned inputs the pre-adder difference wraps, and the two forms differ:
   * a = 0 + 0.5j, b = 0 + 0.5j in Fmt(unsigned, 0, 1) give I = -0.25 with four
   * multiplications and I = 0.75 with three.
   */
  lemma UnsignedFormsDiffer()
    ensures var u := Fmt(false, 0, 1);
            var c4 := NewComplexMult(u, u, Fmt(true, 2, 2), Trunc, Sat, true);
            var c3 := NewComplexMult(u, u, Fmt(true, 2, 2), Trunc, Sat, false);
            InputsInRange(c4, 0, 1, 0, 1) && InputsInRange(c3, 0, 1, 0, 1) &&
            Process(c4, 0, 1, 0, 1).0 == -1 && Process(c3, 0, 1, 0, 1).0 == 3
  {
    var u := Fmt(false, 0, 1);
    var o := Fmt(true, 2, 2);
    var c4 := NewComplexMult(u, u, o, Trunc, Sat, true);
    var c3 := NewComplexMult(u, u, o, Trunc, Sat, false);
    Pow2Small();
    assert InputsInRange(c4, 0, 1, 0, 1) && InputsInRange(c3, 0, 1, 0, 1);
    UnsignedFourMult();
    UnsignedThreeMult();
  }

  lemma UnsignedFourMult()
    ensures var u := Fmt(false, 0, 1);
            ExactProduct(NewComplexMult(u, u, Fmt(true, 2, 2), Trunc, Sat, true), 0, 1, 0, 1).0 == -1
  {
    Pow2Small();
    assert Requantize(-1, 2, 2, Trunc) == -1;
    assert InRange(-1, Fmt(true, 2, 2));
  }

  lemma UnsignedThreeMult()
    ensures var u := Fmt(false, 0, 1);
            ThreeMult(NewComplexMult(u, u, Fmt(true, 2, 2), Trunc, Sat, false), 0, 1, 0, 1).0 == 3
  {
    var u := Fmt(false, 0, 1);
    var p := Fmt(false, 1, 1);
    var m3 := Fmt(false, 2, 2);
    UnsignedPreAddWraps();
    assert Mult(3, p, 1, u, m3, Trunc, Wrap) == 3 by { ProductExact(3, p, 1, u); }
    assert Mult(3, p, 0, u, m3, Trunc, Wrap) == 0 by { ProductExact(3, p, 0, u); }
    assert Add(3, m3, 0, m3, Fmt(true, 2, 2), Trunc, Sat) == 3 by {
      Pow2Small();
      AlignSame(3, 2);
      AlignSame(0, 2);
    }
  }

  /** 0 - 0.5 in the unsigned pre-adder format wraps around to 1.5. */
  lemma UnsignedPreAddWraps()
    ensures Sub(0, Fmt(false, 0, 1), 1, Fmt(false, 0, 1), Fmt(false, 1, 1), Trunc, Wrap) == 3
  {
    Pow2Small();
    AlignSame(0, 1);
    AlignSame(1, 1);
    assert Requantize(-1, 1, 1, Trunc) == -1;
  }

  lemma Pow2Small()
    ensures Pow2(0) == 1 && Pow2(1) == 2 && Pow2(2) == 4 && Pow2(3) == 8 && Pow2(4) == 16
  {
  }

  /**
   * Inputs in Fmt(signed, 0, 16), output in Fmt(signed, 0, 20), round and saturate:
   * a = 0.5 + 0.5j and b = 0.25 give 0.125 + 0.125j in both forms.
   */
  lemma QuarterTimesHalf()
    ensures var f := Fmt(true, 0, 16);
            var c4 := NewComplexMult(f, f, Fmt(true, 0, 20), Round, Sat, true);
            var c3 := NewComplexMult(f, f, Fmt(true, 0, 20), Round, Sat, false);
            InputsInRange(c4, 32768, 32768, 16384, 0) && InputsInRange(c3, 32768, 32768, 16384, 0) &&
            Process(c4, 32768, 32768, 16384, 0) == (131072, 131072) &&
            Process(c3, 32768, 32768, 16384, 0) == (131072, 131072)
  {
    var f := Fmt(true, 0, 16);
    var o := Fmt(true, 0, 20);
    var c4 := NewComplexMult(f, f, o, Round, Sat, true);
    var c3 := NewComplexMult(f, f, o, Round, Sat, false);
    Pow2Values();
    assert InputsInRange(c4, 32768, 32768, 16384, 0) && InputsInRange(c3, 32768, 32768, 16384, 0);
    assert c4.mult4Fmt.F == 32;
    var x := 32768 * 16384;
    assert x == 536870912;
    assert Requantize(x, 32, 20, Round) == 131072;
    assert InRange(131072, o);
    assert Process(c4, 32768, 32768, 16384, 0) == ExactProduct(c4, 32768, 32768, 16384, 0);
    FormsAgree(f, f, o, Round, Sat, 32768, 32768, 16384, 0);
  }

  lemma Pow2Values()
    ensures Pow2(11) == 2048 && Pow2(12) == 4096 && Pow2(16) == 65536 && Pow2(20) == 1048576
  {
    Pow2Add(4, 4);
    Pow2Add(8, 3);
    Pow2Add(8, 4);
    Pow2Add(8, 8);
    Pow2Add(16, 4);
    Pow2Small();
  }
}
