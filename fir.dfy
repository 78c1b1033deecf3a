/**
 * Bit-true model of psi_fix_fir: a fixed-point FIR filter with decimation. The
 * convolution runs in an accumulator that is assumed never to wrap; an overflow
 * gate rejects any accumulator sample outside the rounding format, then the result
 * is rounded (wrap), decimated and saturated into the output format.
 */
module FirFilter {
  import opened FixedPoint

  /** A configured filter: formats and the rounding/saturation settings. */
  datatype Fir = Fir(inFmt: Fmt, outFmt: Fmt, coefFmt: Fmt, accuFmt: Fmt, roundFmt: Fmt,
                     rounding: Rnd, saturation: Saturation)

  /**
   * The result of Filter: the output samples, or one of its two errors. EmptyOperand
   * is the error lfilter's convolution raises when the input or the coefficient
   * sequence is empty; InternalOverflow is the overflow gate's error.
   */
  datatype Outcome = Ok(samples: seq<int>) | EmptyOperand | InternalOverflow

  /**
   * The constructor. The accumulator format is the product format of input and
   * coefficients with accumGrowth extra integer bits. roundFmt stands for the format
   * the fixed-point library derives for rounding the accumulator to outFmt.F
   * fractional bits, so it must carry exactly those.
   */
  function NewFir(inFmt: Fmt, outFmt: Fmt, coefFmt: Fmt, accumGrowth: nat, roundFmt: Fmt,
                  rounding: Rnd, saturation: Saturation): (f: Fir)
    requires roundFmt.F == outFmt.F
    ensures f.accuFmt.S == ForMult(inFmt, coefFmt).S
    ensures f.accuFmt.I == ForMult(inFmt, coefFmt).I + accumGrowth
    ensures f.accuFmt.F == ForMult(inFmt, coefFmt).F == inFmt.F + coefFmt.F
    ensures f.inFmt == inFmt && f.outFmt == outFmt && f.coefFmt == coefFmt && f.roundFmt == roundFmt
    ensures f.rounding == rounding && f.saturation == saturation
    ensures ValidFir(f)
  {
    var multFmt := ForMult(inFmt, coefFmt);
    var accuFmt := Fmt(multFmt.S, multFmt.I + accumGrowth, multFmt.F);
    Fir(inFmt, outFmt, coefFmt, accuFmt, roundFmt, rounding, saturation)
  }

  /** The constructor's defaults: one bit of accumulator growth, rounding, saturation. */
  function DefaultFir(inFmt: Fmt, outFmt: Fmt, coefFmt: Fmt, roundFmt: Fmt): (f: Fir)
    requires roundFmt.F == outFmt.F
    ensures f.rounding == Round && f.saturation == Sat
    ensures f.accuFmt.I == ForMult(inFmt, coefFmt).I + 1
    ensures f.inFmt == inFmt && f.outFmt == outFmt && f.coefFmt == coefFmt && f.roundFmt == roundFmt
    ensures ValidFir(f)
  {
    NewFir(inFmt, outFmt, coefFmt, 1, roundFmt, Round, Sat)
  }

  /** What the constructor establishes about the formats. */
  predicate ValidFir(f: Fir) {
    var multFmt := ForMult(f.inFmt, f.coefFmt);
    f.accuFmt.S == multFmt.S && f.accuFmt.I >= multFmt.I && f.accuFmt.F == multFmt.F &&
    f.roundFmt.F == f.outFmt.F
  }

  /** Every single product of an input and a coefficient fits the accumulator format. */
  lemma ProductFitsAccumulator(f: Fir, x: int, c: int)
    requires ValidFir(f) && InRange(x, f.inFmt) && InRange(c, f.coefFmt)
    ensures InRange(x * c, f.accuFmt)
  {
    ProductFits(x, f.inFmt, c, f.coefFmt);
    Widen(x * c, ForMult(f.inFmt, f.coefFmt), f.accuFmt);
  }

  // ---------------------------------------------------------------------------
  // Convolution: reference definition and streaming realisation
  // ---------------------------------------------------------------------------

  /** x[i], with zeros outside the sequence (zero initial state). */
  function Sample(x: seq<int>, i: int): int {
    if 0 <= i < |x| then x[i] else 0
  }

  /** Reference: sum over k of c[k] * x[n - k], with x zero before index 0. */
  function Convolution(c: seq<int>, x: seq<int>, n: int): int
    decreases |c|
  {
    if |c| == 0 then 0 else c[0] * Sample(x, n) + Convolution(c[1..], x, n - 1)
  }

  /** Inner product of coefficients and a newest-first delay line, over the shorter one. */
  function Dot(c: seq<int>, h: seq<int>): int
    decreases |c|
  {
    if |c| == 0 || |h| == 0 then 0 else c[0] * h[0] + Dot(c[1..], h[1..])
  }

  /** The delay line after sample n: x[n], x[n-1], ..., x[0]. */
  function DelayLine(x: seq<int>, n: int): (h: seq<int>)
    requires -1 <= n < |x|
    ensures |h| == n + 1
    decreases n
  {
    if n < 0 then [] else [x[n]] + DelayLine(x, n - 1)
  }

  /**
   * Streaming direct-form filter: each new sample is pushed onto the front of the
   * delay line, and the output is the inner product of the coefficients with it.
   */
  function FilterFrom(c: seq<int>, x: seq<int>, hist: seq<int>): (y: seq<int>)
    ensures |y| == |x|
    decreases |x|
  {
    if |x| == 0 then []
    else
      var h := [x[0]] + hist;
      [Dot(c, h)] + FilterFrom(c, x[1..], h)
  }

  /** Before the first sample the convolution is zero. */
  lemma {:induction false} ConvolutionBeforeStart(c: seq<int>, x: seq<int>, n: int)
    requires n < 0
    ensures Convolution(c, x, n) == 0
    decreases |c|
  {
    if |c| > 0 {
      ConvolutionBeforeStart(c[1..], x, n - 1);
    }
  }

  /** The inner product with the delay line is the convolution sum. */
  lemma {:induction false} DotDelayLine(c: seq<int>, x: seq<int>, n: int)
    requires -1 <= n < |x|
    ensures Dot(c, DelayLine(x, n)) == Convolution(c, x, n)
    decreases |c|
  {
    if n < 0 {
      ConvolutionBeforeStart(c, x, n);
    } else if |c| > 0 {
      var h := DelayLine(x, n);
      assert h[0] == x[n] && h[1..] == DelayLine(x, n - 1);
      DotDelayLine(c[1..], x, n - 1);
    }
  }

  /** Dropping the first sample shifts the delay line and leaves x[0] at its end. */
  lemma {:induction false} DelayLineShift(x: seq<int>, n: int)
    requires 0 <= n < |x|
    ensures DelayLine(x[1..], n - 1) + [x[0]] == DelayLine(x, n)
    decreases n
  {
    if n > 0 {
      DelayLineShift(x, n - 1);
      assert DelayLine(x[1..], n - 1) == [x[1..][n - 1]] + DelayLine(x[1..], n - 2);
    }
  }

  /** Output n of the streaming filter is the inner product with the whole history so far. */
  lemma {:induction false} FilterFromAt(c: seq<int>, x: seq<int>, hist: seq<int>, n: int)
    requires 0 <= n < |x|
    ensures FilterFrom(c, x, hist)[n] == Dot(c, DelayLine(x, n) + hist)
    decreases |x|
  {
    if n > 0 {
      FilterFromAt(c, x[1..], [x[0]] + hist, n - 1);
      DelayLineShift(x, n);
      assert DelayLine(x[1..], n - 1) + ([x[0]] + hist) == DelayLine(x, n) + hist;
    } else {
      assert DelayLine(x, 0) == [x[0]];
    }
  }

  /** Started from an empty delay line, the streaming filter computes the convolution. */
  lemma FilterFromIsConvolution(c: seq<int>, x: seq<int>)
    ensures forall n :: 0 <= n < |x| ==> FilterFrom(c, x, [])[n] == Convolution(c, x, n)
  {
    forall n | 0 <= n < |x|
      ensures FilterFrom(c, x, [])[n] == Convolution(c, x, n)
    {
      FilterFromAt(c, x, [], n);
      assert DelayLine(x, n) + [] == DelayLine(x, n);
      DotDelayLine(c, x, n);
    }
  }

  /**
   * lfilter(c, 1, x) on exact values: the streaming filter started from an empty
   * (all-zero) delay line. It returns one sample per input sample, and sample n is
   * the convolution sum over k of c[k] * x[n - k].
   */
  function LFilter(c: seq<int>, x: seq<int>): (y: seq<int>)
    ensures |y| == |x|
    ensures forall n :: 0 <= n < |x| ==> y[n] == Convolution(c, x, n)
  {
    FilterFromIsConvolution(c, x);
    FilterFrom(c, x, [])
  }

  // ---------------------------------------------------------------------------
  // Overflow gate, decimation, element-wise resize
  // ---------------------------------------------------------------------------

  /**
   * Some accumulator sample (with accuF fractional bits) lies above the upper or
   * below the lower bound of roundFmt.
   */
  function AnyOverflow(acc: seq<int>, accuF: nat, roundFmt: Fmt): (b: bool)
    ensures b <==> exists i :: 0 <= i < |acc| && !WithinBounds(acc[i], accuF, roundFmt)
    decreases |acc|
  {
    if |acc| == 0 then false
    else !WithinBounds(acc[0], accuF, roundFmt) || AnyOverflow(acc[1..], accuF, roundFmt)
  }

  /** s[::d]: the samples at indices 0, d, 2d, ... */
  function Decimate(s: seq<int>, d: nat): (r: seq<int>)
    requires d >= 1
    ensures |r| == (|s| + d - 1) / d
    ensures forall k :: 0 <= k < |r| ==> k * d < |s| && r[k] == s[k * d]
    decreases |s|
  {
    if |s| == 0 then []
    else if |s| <= d then
      DivOne(|s|, d);
      [s[0]]
    else
      var rest := Decimate(s[d..], d);
      DecimateStep(s, d, rest);
      [s[0]] + rest
  }

  lemma DivOne(n: int, d: int)
    requires 1 <= n <= d
    ensures (n + d - 1) / d == 1
  {
    assert d <= n + d - 1 < 2 * d;
  }

  lemma DivStep(n: int, d: int)
    requires d >= 1 && n > d
    ensures (n + d - 1) / d == (n - d + d - 1) / d + 1
  {
    var q := (n - 1) / d;
    var m := (n - 1) % d;
    assert n - 1 == q * d + m && 0 <= m < d;
    DivUnique(n + d - 1, d, q + 1, m);
    DivUnique(n - d + d - 1, d, q, m);
  }

  /** The quotient is the unique q with a = q*d + m and 0 <= m < d. */
  lemma DivUnique(a: int, d: int, q: int, m: int)
    requires d >= 1 && 0 <= m < d && a == q * d + m
    ensures a / d == q
  {
    var q', m' := a / d, a % d;
    assert a == q' * d + m' && 0 <= m' < d;
    assert (q' - q) * d == m - m';
    MulAtLeast(q' - q, d);
  }

  lemma DecimateStep(s: seq<int>, d: nat, rest: seq<int>)
    requires d >= 1 && |s| > d
    requires |rest| == (|s| - d + d - 1) / d
    requires forall k :: 0 <= k < |rest| ==> k * d < |s| - d && rest[k] == s[d..][k * d]
    ensures |[s[0]] + rest| == (|s| + d - 1) / d
    ensures forall k :: 0 <= k < |[s[0]] + rest| ==> k * d < |s| && ([s[0]] + rest)[k] == s[k * d]
  {
    DivStep(|s|, d);
    forall k | 0 <= k < |[s[0]] + rest|
      ensures k * d < |s| && ([s[0]] + rest)[k] == s[k * d]
    {
      if k > 0 {
        assert k * d == (k - 1) * d + d;
      }
    }
  }

  /** Resize every sample from format a into format b. */
  function ResizeAll(s: seq<int>, a: Fmt, b: Fmt, rnd: Rnd, sat: Saturation): (r: seq<int>)
    ensures |r| == |s| && forall i :: 0 <= i < |s| ==> r[i] == Resize(s[i], a, b, rnd, sat)
    decreases |s|
  {
    if |s| == 0 then [] else [Resize(s[0], a, b, rnd, sat)] + ResizeAll(s[1..], a, b, rnd, sat)
  }

  // ---------------------------------------------------------------------------
  // Filter
  // ---------------------------------------------------------------------------

  /**
   * psi_fix_fir.Filter on raw input and coefficient values (any integers). It fails
   * when the input or the coefficients are empty, and otherwise exactly when some
   * accumulator sample lies outside roundFmt. Else it returns ceil(n/d) samples,
   * sample k being the convolution at index k*d rounded once into outFmt.F
   * fractional bits (the wrap of the rounding stage and the truncation of the output
   * stage change nothing) and then saturated into outFmt.
   */
  function Filter(f: Fir, inp: seq<int>, decimRate: nat, coefs: seq<int>): (r: Outcome)
    requires ValidFir(f) && decimRate >= 1
    ensures r.EmptyOperand? <==> |inp| == 0 || |coefs| == 0
    ensures r.InternalOverflow? <==>
              |coefs| > 0 && exists n :: 0 <= n < |inp| && !WithinBounds(Convolution(coefs, inp, n), f.accuFmt.F, f.roundFmt)
    ensures r.Ok? ==> |r.samples| == (|inp| + decimRate - 1) / decimRate
    ensures r.Ok? ==> forall k :: 0 <= k < |r.samples| ==>
              k * decimRate < |inp| &&
              r.samples[k] == Saturate(Requantize(Convolution(coefs, inp, k * decimRate), f.accuFmt.F, f.roundFmt.F, f.rounding),
                                       f.outFmt, Sat)
    ensures r.Ok? ==> forall k :: 0 <= k < |r.samples| ==> InRange(r.samples[k], f.outFmt)
  {
    if |inp| == 0 || |coefs| == 0 then
      EmptyOperand
    else
      var res := LFilter(coefs, inp);
      var ovf := AnyOverflow(res, f.accuFmt.F, f.roundFmt);
      OverflowGate(f, inp, coefs, res);
      if ovf then
        InternalOverflow
      else
        var resRnd := ResizeAll(res, f.accuFmt, f.roundFmt, f.rounding, Wrap);
        var resDec := Decimate(resRnd, decimRate);
        var outp := ResizeAll(resDec, f.roundFmt, f.outFmt, Trunc, Sat);
        assert forall n :: 0 <= n < |res| ==> WithinBounds(res[n], f.accuFmt.F, f.roundFmt);
        FilterSamples(f, inp, decimRate, coefs, res, resRnd, resDec, outp);
        Ok(outp)
  }

  /** The gate fires exactly when some convolution sample lies outside roundFmt. */
  lemma OverflowGate(f: Fir, inp: seq<int>, coefs: seq<int>, res: seq<int>)
    requires |res| == |inp| && forall n :: 0 <= n < |inp| ==> res[n] == Convolution(coefs, inp, n)
    ensures AnyOverflow(res, f.accuFmt.F, f.roundFmt) <==>
              exists n :: 0 <= n < |inp| && !WithinBounds(Convolution(coefs, inp, n), f.accuFmt.F, f.roundFmt)
  {
    if AnyOverflow(res, f.accuFmt.F, f.roundFmt) {
      var i :| 0 <= i < |res| && !WithinBounds(res[i], f.accuFmt.F, f.roundFmt);
      assert res[i] == Convolution(coefs, inp, i);
      assert 0 <= i < |inp| && !WithinBounds(Convolution(coefs, inp, i), f.accuFmt.F, f.roundFmt);
      assert exists n :: 0 <= n < |inp| && !WithinBounds(Convolution(coefs, inp, n), f.accuFmt.F, f.roundFmt);
    } else {
      forall n | 0 <= n < |inp|
        ensures WithinBounds(Convolution(coefs, inp, n), f.accuFmt.F, f.roundFmt)
      {
        assert res[n] == Convolution(coefs, inp, n);
      }
    }
  }

  lemma FilterSamples(f: Fir, inp: seq<int>, d: nat, coefs: seq<int>,
                      res: seq<int>, resRnd: seq<int>, resDec: seq<int>, outp: seq<int>)
    requires ValidFir(f)
    requires |res| == |inp| && forall n :: 0 <= n < |inp| ==> res[n] == Convolution(coefs, inp, n)
    requires forall n :: 0 <= n < |res| ==> WithinBounds(res[n], f.accuFmt.F, f.roundFmt)
    requires |resRnd| == |res| && forall n :: 0 <= n < |res| ==> resRnd[n] == Resize(res[n], f.accuFmt, f.roundFmt, f.rounding, Wrap)
    requires forall k :: 0 <= k < |resDec| ==> k * d < |resRnd| && resDec[k] == resRnd[k * d]
    requires |outp| == |resDec| && forall k :: 0 <= k < |resDec| ==> outp[k] == Resize(resDec[k], f.roundFmt, f.outFmt, Trunc, Sat)
    ensures forall k :: 0 <= k < |outp| ==>
              k * d < |inp| &&
              outp[k] == Saturate(Requantize(Convolution(coefs, inp, k * d), f.accuFmt.F, f.roundFmt.F, f.rounding),
                                  f.outFmt, Sat)
  {
    forall k | 0 <= k < |outp|
      ensures k * d < |inp|
      ensures outp[k] == Saturate(Requantize(Convolution(coefs, inp, k * d), f.accuFmt.F, f.roundFmt.F, f.rounding),
                                  f.outFmt, Sat)
    {
      var n := k * d;
      assert n < |resRnd| && resDec[k] == resRnd[n];
      OutputSample(f, res[n], Convolution(coefs, inp, n));
    }
  }

  /**
   * One accumulator sample that passed the overflow gate: rounding with wrap into
   * roundFmt, then truncating and saturating into outFmt, is the rounded value
   * saturated once.
   */
  lemma OutputSample(f: Fir, acc: int, conv: int)
    requires ValidFir(f) && acc == conv && WithinBounds(acc, f.accuFmt.F, f.roundFmt)
    ensures Resize(Resize(acc, f.accuFmt, f.roundFmt, f.rounding, Wrap), f.roundFmt, f.outFmt, Trunc, Sat)
         == Saturate(Requantize(conv, f.accuFmt.F, f.roundFmt.F, f.rounding), f.outFmt, Sat)
  {
    var q := Requantize(acc, f.accuFmt.F, f.roundFmt.F, f.rounding);
    assert Resize(acc, f.accuFmt, f.roundFmt, f.rounding, Wrap) == q;
    assert Requantize(q, f.roundFmt.F, f.outFmt.F, Trunc) == q;
  }

  /** Decimating by 1 keeps every sample. */
  lemma DecimateByOne(s: seq<int>)
    ensures Decimate(s, 1) == s
  {
  }
}
