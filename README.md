# psi_fix complex multiplier and FIR filter, bit-true model in Dafny

This project models two bit-true Python reference models from the psi_fix
fixed-point library, and proves properties of them:

- `psi_fix_complex_mult` multiplies two complex fixed-point numbers. It can use
  four real multiplications, or three multiplications with pre-adders (the
  Karatsuba-style form used in FPGA DSP slices). Every intermediate step truncates
  and wraps; only the two final additions apply the configured rounding and
  saturation.
- `psi_fix_fir.Filter` is a fixed-point FIR filter with decimation. It convolves the
  input with the coefficients in a wide accumulator, then checks every accumulator
  sample against the rounding format and fails on overflow. It then rounds
  (with wrap), keeps every d-th sample and saturates into the output format.

Fixed-point values are raw two's-complement integers: `x` in `Fmt(S, I, F)`
stands for `x / 2^F` and lies in `[-S * 2^(I+F), 2^(I+F) - 1]`. The files are:

- `fixed_point.dfy` (module `FixedPoint`): formats and bounds; `Requantize`
  (truncate or round); `Saturate` (wrap or clamp); `Resize`; and `Add`, `Sub`,
  `Mult`, which compute the exact result and then resize it. It also holds the
  format-growth lemmas: `ForMult`, `ForAdd` and `ForSub` hold any exact product,
  sum or difference.
- `complex_mult.dfy` (module `ComplexMultiplier`): the constructor's format
  derivations, the two algorithms, `Process`, and the lemmas relating them.
- `fir.dfy` (module `FirFilter`): the constructor, a reference convolution, the
  streaming `lfilter` realisation proved equal to it, the overflow gate,
  decimation and `Filter`.

Main results:

- For signed input formats, every intermediate of both multiplier forms is exact.
  Both forms therefore return the exact complex product rounded once, and they
  agree bit for bit (`ComplexMultiplier.FormsAgree`).
- For unsigned input formats the forms can differ: the three-multiplier pre-adder
  wraps (`ComplexMultiplier.UnsignedFormsDiffer`). The DSP-slice pre-adder the code
  targets works on two's-complement operands, so this is recorded as a property of
  the configuration space, not as a defect.
- `Filter` fails on an empty input or coefficient sequence, as the convolution
  inside `lfilter` does. Otherwise it fails exactly when some convolution sample lies
  outside the rounding format. If neither happens, it returns `ceil(n/d)` samples,
  because `[::d]` keeps indices 0, d, 2d, and so on. Sample `k` is the convolution
  at index `k*d`, rounded once into `outFmt.F` fractional bits and saturated into
  `outFmt`. The wrap of the rounding stage and the truncation of the output stage
  provably change nothing.

## Model

| member | source | states |
|---|---|---|
| FixedPoint.Requantize | model/psi_fix_fir.py:78 | Adding fractional bits scales exactly. Dropping them with Trunc gives the floor, and with Round the floor after adding half an LSB of the target. |
| FixedPoint.Saturate | model/psi_fix_complex_mult.py:71-72 | The result is in the target range, and an in-range value is unchanged. Sat clamps to the nearest bound. Wrap differs from the input by a multiple of 2^width. |
| FixedPoint.Resize | model/psi_fix_fir.py:82 | The result is in range of the target format. Widening the fraction of an in-range value is exact. A value within the target's real bounds is only requantized, and never wrapped or clamped. |
| FixedPoint.RequantizeWithinBounds | model/psi_fix_fir.py:72-78 | A value within the real bounds of a format stays in its range after truncation or rounding to its fractional bits. The bounds are multiples of its LSB. |
| FixedPoint.Mult | model/psi_fix_complex_mult.py:65-68 | The result is in the target range. It equals the exact product when the target has the summed fractional bits and holds the product. |
| FixedPoint.Add | model/psi_fix_complex_mult.py:72 | The result is in the target range. It equals the exact sum when the fractional bits agree and the sum fits. |
| FixedPoint.Sub | model/psi_fix_complex_mult.py:71 | The result is in the target range. It equals the exact difference when the fractional bits agree and the difference fits. |
| FixedPoint.ProductFits | model/psi_fix_complex_mult.py:37 | The product format (sign of either, I = IA+IB+1, F = FA+FB) holds the product of any two values, signed or unsigned. |
| FixedPoint.SumFits | model/psi_fix_complex_mult.py:87 | The sum format (one more integer bit, finer precision) holds the aligned sum of any two values. |
| FixedPoint.DiffFits | model/psi_fix_complex_mult.py:82 | The signed difference format holds the aligned difference of any two values. |
| FixedPoint.Widen | model/psi_fix_fir.py:46 | A value stays in range in any format with at least its sign and magnitude bits. |
| FixedPoint.ResizeIdempotent | model/psi_fix_fir.py:82 | Resizing an already resized value into the same format again changes nothing. |
| FixedPoint.WrapSatBoundary | model/psi_fix_complex_mult.py:71-72 | One LSB above the upper bound, Wrap yields the lower bound and Sat yields the upper bound. |
| FixedPoint.RangeSize | model/psi_fix_fir.py:77-78 | A format's range has exactly 2^(S+I+F) values, so the wrap of the rounding stage is reduction modulo 2^width onto that range. |
| FixedPoint.WithinBoundsReal | model/psi_fix_fir.py:72-74 | The integer test `WithinBounds` holds iff the real value of the sample lies between the real lower and upper bounds of the format, as the two `np.where` comparisons against `PsiFixLowerBound` and `PsiFixUpperBound` test. |
| ComplexMultiplier.DefaultComplexMult | model/psi_fix_complex_mult.py:18-23 | Without the optional arguments the multiplier rounds, saturates and uses four multiplications, with the given formats and consistent derived formats. |
| ComplexMultiplier.NewComplexMult | model/psi_fix_complex_mult.py:33-42 | Each pre-adder format keeps its input's sign and fraction and has one more integer bit. mult4Fmt is signed iff either input is, with IA+IB+1 integer and FA+FB fractional bits. mult3Fmt is mult4Fmt plus one integer bit, and equals the exact product format of either pre-adder with the other input. |
| ComplexMultiplier.ProductExact | model/psi_fix_complex_mult.py:65-68 | A Trunc/Wrap multiplication into the exact product format returns the exact product. |
| ComplexMultiplier.PreAddExact | model/psi_fix_complex_mult.py:75-87 | For a signed format, the difference and the sum of two values fit the one-bit-grown pre-adder format, so the wrap-only pre-adder returns them exactly. |
| ComplexMultiplier.KaratsubaIdentity | model/psi_fix_complex_mult.py:79-89 | (aI-aQ)bQ + (bI-bQ)aI = aI bI - aQ bQ, and (aI-aQ)bQ + (bI+bQ)aQ = aI bQ + aQ bI. |
| ComplexMultiplier.FourMult | model/psi_fix_complex_mult.py:63-72 | For all signedness combinations, the four-multiplier form equals the exact products aI bI - aQ bQ and aI bQ + aQ bI, resized once with the configured rounding and saturation. |
| ComplexMultiplier.StageExact | model/psi_fix_complex_mult.py:75-79 | One pre-adder followed by a multiplier stage, both Trunc/Wrap on a signed format, computes (x ± y)·z exactly. |
| ComplexMultiplier.ThreeMultTermsExact | model/psi_fix_complex_mult.py:75-88 | For signed inputs, the shared term and the real and imaginary terms are exactly (aI-aQ)bQ, (bI-bQ)aI and (bI+bQ)aQ. |
| ComplexMultiplier.FinalSumsExact | model/psi_fix_complex_mult.py:84-89 | Adding the exact shared term to the exact real or imaginary term, with the output policies, gives the exact product's part resized once. |
| ComplexMultiplier.AddSameF | model/psi_fix_complex_mult.py:84 | Adding two values of one format is a resize of their exact sum from any format with the same fractional bits. |
| ComplexMultiplier.SubSameF | model/psi_fix_complex_mult.py:71 | Subtracting two values of one format is a resize of their exact difference. |
| ComplexMultiplier.ThreeMultRealExact | model/psi_fix_complex_mult.py:81-84 | For signed inputs, the three-multiplier I output equals the exact aI bI - aQ bQ resized once. The shared term is reused. |
| ComplexMultiplier.ThreeMultImagExact | model/psi_fix_complex_mult.py:86-89 | For signed inputs, the three-multiplier Q output equals the exact aI bQ + aQ bI resized once. It reuses the same shared term. |
| ComplexMultiplier.ThreeMult | model/psi_fix_complex_mult.py:73-89 | Both outputs of the three-multiplier form are values of outFmt, for every input and signedness. Its exactness for signed inputs is `ThreeMultExact`, its divergence for unsigned inputs `UnsignedFormsDiffer`. |
| ComplexMultiplier.ThreeMultExact | model/psi_fix_complex_mult.py:73-89 | For signed inputs, the three-multiplier form equals the exact complex product resized once. |
| ComplexMultiplier.Process | model/psi_fix_complex_mult.py:47-91 | Both outputs are in the range of outFmt. With four multiplications, or with three and signed inputs, they are the exact product resized once. |
| ComplexMultiplier.FormsAgree | testbench/psi_fix_complex_mult_tb/Scripts/preScript.py:43-46 | For signed input formats, the three- and four-multiplier configurations give identical outputs for the same formats, policies and inputs. |
| ComplexMultiplier.UnsignedFormsDiffer | model/psi_fix_complex_mult.py:73-91 | For unsigned inputs the forms can differ: with a = b = 0.5j in Fmt(unsigned, 0, 1), four multiplications give I = -0.25 and three give I = 0.75. |
| ComplexMultiplier.UnsignedPreAddWraps | model/psi_fix_complex_mult.py:75-78 | In the unsigned pre-adder format, 0 - 0.5 wraps to 1.5. |
| ComplexMultiplier.UnsignedFourMult | model/psi_fix_complex_mult.py:71 | The four-multiplier I output of the unsigned example is -0.25. |
| ComplexMultiplier.UnsignedThreeMult | model/psi_fix_complex_mult.py:79-84 | The three-multiplier I output of the unsigned example is 0.75. |
| ComplexMultiplier.QuarterTimesHalf | testbench/psi_fix_complex_mult_tb/Scripts/preScript.py:26-28 | With the testbench formats (signed 0.16 inputs, signed 0.20 output), Round/Sat, a = 0.5+0.5j and b = 0.25 give 0.125+0.125j in both forms. |
| FirFilter.DefaultFir | model/psi_fix_fir.py:29-34 | Without the optional arguments the filter has one bit of accumulator growth, rounds and saturates, with consistent formats. |
| FirFilter.NewFir | model/psi_fix_fir.py:42-49 | accuFmt has the product format's sign and fractional bits and accumGrowth more integer bits. The round format has outFmt's fractional bits. |
| FirFilter.ProductFitsAccumulator | model/psi_fix_fir.py:45-46 | Every product of an input value and a coefficient fits the accumulator format. |
| FirFilter.ConvolutionBeforeStart | model/psi_fix_fir.py:68 | With zero initial state, the convolution before the first sample is zero. |
| FirFilter.DotDelayLine | model/psi_fix_fir.py:68 | The inner product of the coefficients with the delay line after sample n is the convolution sum at n. |
| FirFilter.DelayLineShift | model/psi_fix_fir.py:68 | Feeding the first sample and then the rest builds the same delay line as feeding them all. |
| FirFilter.FilterFromAt | model/psi_fix_fir.py:68 | Output n of the streaming filter is the inner product with the input history so far followed by the initial state. |
| FirFilter.LFilter | model/psi_fix_fir.py:68 | lfilter with zero initial state has one output per input, and output n equals the reference convolution sum over k of c[k]·x[n-k], with samples before 0 taken as zero. |
| FirFilter.AnyOverflow | model/psi_fix_fir.py:72-75 | True iff some accumulator sample lies above the upper or below the lower real bound of roundFmt. |
| FirFilter.OverflowGate | model/psi_fix_fir.py:72-76 | The gate fires iff some convolution sample lies outside the real bounds of roundFmt. |
| FirFilter.Decimate | model/psi_fix_fir.py:80 | Slicing [::d] keeps ceil(n/d) samples, and output k is input k·d. |
| FirFilter.DecimateByOne | model/psi_fix_fir.py:80 | Decimating by 1 keeps every sample. |
| FirFilter.ResizeAll | model/psi_fix_fir.py:78 | Element-wise resize keeps the length, and element i is the resize of input i. |
| FirFilter.OutputSample | model/psi_fix_fir.py:77-82 | For an accumulator sample that passed the gate, rounding with wrap and then Trunc/Sat into outFmt is the rounded value saturated once. Wrap and Trunc change nothing. |
| FirFilter.FilterSamples | model/psi_fix_fir.py:77-82 | Output k of round, decimate and resize is the convolution at k·d rounded to outFmt.F bits and saturated into outFmt. |
| FirFilter.Filter | model/psi_fix_fir.py:54-83 | It fails with EmptyOperand iff the input or the coefficients are empty. It fails with InternalOverflow iff the coefficients are non-empty and some convolution sample leaves roundFmt's bounds. Otherwise it returns ceil(n/d) samples, sample k being the convolution at k·d rounded once and saturated into outFmt, all within outFmt's range. |

## Left out

- Conversion from floating-point inputs (`PsiFixFromReal`, with its range error) is not modelled, because it works on floats. Inputs and coefficients are raw integers. `Process` requires them to be in range of their formats, which that conversion guarantees. `Filter` accepts any integers, and its contract holds for all of them.
- Floating point is not modelled: numpy vectorisation and the float arithmetic of `scipy.signal.lfilter`. The convolution is exact integer arithmetic, and `Process` works on one sample rather than on arrays.
- scipy's `lfilter` uses a transposed direct-form realisation; the model uses a delay-line direct form instead. In exact arithmetic both give the same convolution, and the model proves its realisation equal to that convolution.
- The internals of `psi_fix_pkg` and `en_cl_fix_pkg` are not part of this model. `FixedPoint` re-defines the primitives on integers with explicit contracts.
- `FixFormat.for_round` is not modelled. The round format is a constructor parameter whose fractional bits must equal `outFmt.F`.
- Formats with negative integer or fractional bit counts are not modelled: `I` and `F` are natural numbers.
- The accumulator is unbounded. The filter assumes it never wraps (model/psi_fix_fir.py:23), so no accumulator wrap is modelled.
- The float-to-int coercion of the decimation rate is not modelled. It is a natural number with the precondition `decimRate >= 1`.
- The FIR `saturation` constructor argument is stored but not used by `Filter`, whose output stage always saturates. The model stores it too.
- The testbench's stimulus generation, plotting and file output are not modelled. It is used only for its formats and its comparison of the two forms.
