# NoiseCapture core in Dafny

A model of the measurement core of NoiseCapture, the Kotlin Multiplatform sound-level meter of
the Noise-Planet project, with proofs about it. It covers the following parts.

- **Signal processing.** The radix-2 FFT and its real-signal wrappers (`fft.kt`), complex
  arithmetic and Bluestein's chirp z-transform for window lengths that are not powers of two
  (`Bluestein.kt`, `BluesteinFloat.kt`), and the short-time spectrum analysis (`SpectrogramDataProcessing.kt`,
  `WindowAnalysis.kt`): the circular sample buffer, overlapping windows, overlap-add and
  spectrum levels. It also covers fractional-octave bands (`FrequencyBand.kt`), the third-octave
  aggregation and acoustic indicators (`AcousticIndicatorsProcessing.kt`), and the A-weighting
  biquad cascade (`BiquadFilter.kt`) and direct-form filter (`DigitalFilter.kt`).
- **Spectrogram bitmaps.** The BMP header, the colour ramp, painting a column and scrolling it
  in (both `SpectrogramBitmap.kt` files).
- **Measurement screen.** Axis and frequency labels, and the spectrogram strips
  (`MeasurementScreen.kt`).
- **Map.** Zoom levels and scales, and path bounding boxes (`MapViewModel.kt`), the tile URL
  scheme (`RemoteTileStreamProvider.kt`), and building the coloured sound-level path
  (`SoundLevelPathBuilder.kt`).
- **Measurement data.** Leq and location fragments (`SequenceFragment.kt`,
  `LeqSequenceFragment.kt`, `LocationSequenceFragment.kt`), and the recording service that cuts a
  measurement into fragments (`DefaultMeasurementService.kt`).
- **Storage.** The key/value store and its index (`KStoreStorageService.kt`), the cascading
  delete and migration of measurements (`MeasurementStorageService.kt`), and the user's running
  statistics (`DefaultUserStatisticsService.kt`).
- **Permissions.** The permission prompts of the root navigation (`RootCoordinatorViewModel.kt`).
- **Audio source.** The life cycle of the iOS audio source (`IOSAudioSource.kt`).

Each source component is one module. `Wrappers` holds the `Option`/`Result` types and the fault
kinds that stand for the exceptions the Kotlin code throws. `Numerics` holds Kotlin's 32- and
64-bit integer arithmetic, with explicit wrap-around, truncating division and remainder, and
truncating conversions from floating point. Floating-point numbers are Dafny `real`s. Sine,
cosine, `log10`, `pow`, `sqrt` and `exp` are a record of functions passed as a parameter. Each
operation that needs a law of these functions (the unit circle, the product law of powers,
monotonicity) states it as a precondition.

The chirp z-transform fixes its contour to the unit circle and its output length to the
window length, and the spectrum analysis has no power-spectral-density mode. The model follows
the code, including where it departs from what it evidently means to do; each such place is
under "Findings", among them:
- the FFT's size guard checks the array against `n` and not against `2n` doubles;
- the spectrum levels of `processWindowFloat` are computed from the imaginary parts only.

## Model

| member | source | states |
|---|---|---|
| Radix2.IsPowerOfTwoIsPow2 | composeApp/src/commonMain/kotlin/org/noiseplanet/noisecapture/audio/signal/fft.kt:25-27 | the bit test `n > 0 && n and (n - 1) == 0` holds exactly for 1, 2, 4, …: the powers of two as defined by halving |
| Radix2.NextPowerOfTwoSpec | composeApp/src/commonMain/kotlin/org/noiseplanet/noisecapture/audio/signal/fft.kt:30 | `nextPowerOfTwo(n)` is 0 for n ≤ 0, the least power of two at least n for 0 < n ≤ 2^30, and `Int.MAX_VALUE` (the saturated 2^31) above |
| Radix2.NextPowerOfTwoFixedPoint | composeApp/src/commonMain/kotlin/org/noiseplanet/noisecapture/audio/signal/fft.kt:25-30 | for 0 < n < `Int.MAX_VALUE`, `nextPowerOfTwo(n) == n` exactly when `isPowerOfTwo(n)`: the two tests the caller mixes agree |
| Radix2.RevInvolution | composeApp/src/commonMain/kotlin/org/noiseplanet/noisecapture/audio/signal/fft.kt:76-99 | reversing the low bits of an index twice gives the index back, so the reordering is its own inverse |
| Radix2.RevIncStep | composeApp/src/commonMain/kotlin/org/noiseplanet/noisecapture/audio/signal/fft.kt:93-98 | the `j` update (clear leading ones from the top bit, then set the next bit) turns the reversal of i into the reversal of i + 1 |
| Radix2.NextReversed | composeApp/src/commonMain/kotlin/org/noiseplanet/noisecapture/audio/signal/fft.kt:93-98 | the inner `while (k <= j)` loop terminates and yields the reversal of i + 1 |
| Radix2.ReversedStep | composeApp/src/commonMain/kotlin/org/noiseplanet/noisecapture/audio/signal/fft.kt:80-92 | one pass of the outer loop, swapping pairs i and j only when i < j, puts element i in its reversed place and disturbs no placed element |
| Radix2.BitReversePass | composeApp/src/commonMain/kotlin/org/noiseplanet/noisecapture/audio/signal/fft.kt:76-99 | the whole swap loop over n = 2^bits pairs yields the bit-reversal permutation: element c of the result is element Rev(c) of the input |
| FourierTransform.InterleaveToPairs | composeApp/src/commonMain/kotlin/org/noiseplanet/noisecapture/audio/signal/fft.kt:35 | reading the first n (re, im) pairs of an interleaved array and writing them back loses nothing |
| FourierTransform.Fft | composeApp/src/commonMain/kotlin/org/noiseplanet/noisecapture/audio/signal/fft.kt:37-41 | as written: fails with `IllegalArgumentException` when the length is not a power of two or exceeds the array size, and indexes out of bounds when the array holds fewer than 2n doubles; otherwise keeps the array's size and every double past the first 2n |
| FourierTransform.FftChecked | composeApp/src/commonMain/kotlin/org/noiseplanet/noisecapture/audio/signal/fft.kt:37-41 | with the guard requiring 2n doubles, only `IllegalArgumentException` is possible and the same size and tail guarantees hold |
| FourierTransform.FftCheckedAgrees | composeApp/src/commonMain/kotlin/org/noiseplanet/noisecapture/audio/signal/fft.kt:37-41 | on every array holding 2n doubles the corrected and the written transform agree |
| FourierTransform.FftGuardAdmitsShortArray | composeApp/src/commonMain/kotlin/org/noiseplanet/noisecapture/audio/signal/fft.kt:41 | `fft(2, DoubleArray(2))` passes the guard as written and then indexes past the end; the corrected guard rejects it |
| FourierTransform.HalfPowerOfTwo | composeApp/src/commonMain/kotlin/org/noiseplanet/noisecapture/audio/signal/fft.kt:174 | halving a power of two gives a power of two exactly when it is at least 2 (why `realFFT` of one sample fails) |
| FourierTransform.TransformDc | composeApp/src/commonMain/kotlin/org/noiseplanet/noisecapture/audio/signal/fft.kt:48-99 | after all butterfly passes and the reordering, pair 0 holds the sum of all pairs, halved once per pass by `iFFT` |
| FourierTransform.FftDc | composeApp/src/commonMain/kotlin/org/noiseplanet/noisecapture/audio/signal/fft.kt:37-165 | pair 0 of `fft` is the sum of the input pairs and pair 0 of `iFFT` their mean, whatever the trigonometric values |
| FourierTransform.RealFft | composeApp/src/commonMain/kotlin/org/noiseplanet/noisecapture/audio/signal/fft.kt:168-220 | fails exactly when the size is not a power of two or is 1; otherwise returns size + 2 doubles with `out[1] == 0` and `out[n + 1] == 0` |
| FourierTransform.RealFftDcNyquist | composeApp/src/commonMain/kotlin/org/noiseplanet/noisecapture/audio/signal/fft.kt:213-217 | bin 0 of `realFFT` is the sum of the samples and bin n/2 their alternating sum |
| FourierTransform.RealFftEnds | composeApp/src/commonMain/kotlin/org/noiseplanet/noisecapture/audio/signal/fft.kt:213-215 | `out[0]` and `out[n]` are the sum and the difference of the real and imaginary parts of pair 0 of the half-length transform |
| FourierTransform.RealFftOfRamp | composeApp/src/commonTest/kotlin/org/noiseplanet/noisecapture/signal/TestFFT.kt:116-128 | `realFFT([0, 1, …, 7])` has 10 doubles starting 28, 0 and with −4, 0 in bin 4, as the unit test expects |
| FourierTransform.RealIfft | composeApp/src/commonMain/kotlin/org/noiseplanet/noisecapture/audio/signal/fft.kt:223-271 | fails exactly when size − 2 is not a power of two of at least 2; otherwise returns size − 2 doubles |
| FourierTransform.RealRoundTripTwo | composeApp/src/commonTest/kotlin/org/noiseplanet/noisecapture/signal/TestFFT.kt:209-213 | for two samples `realIFFT(realFFT(x)) == x` exactly |
| FourierTransform.HalfFftOfReal | composeApp/src/commonMain/kotlin/org/noiseplanet/noisecapture/audio/signal/fft.kt:168-217 | the half-length transform of real samples read as pairs succeeds, and the sum and difference of its pair 0 are the sum and the alternating sum of the samples |
| FourierTransform.PairTransformAdditive | composeApp/src/commonMain/kotlin/org/noiseplanet/noisecapture/audio/signal/fft.kt:38-99 | `fft` and `iFFT` of n pairs are additive: the transform of a sum of signals is the sum of their transforms, whatever the twiddle values |
| ComplexNumbers.Complex.DivReal | composeApp/src/commonMain/kotlin/org/noiseplanet/noisecapture/audio/signal/bluestein/Bluestein.kt:49 | dividing by a real fails only for 0, and the quotient scaled back by the divisor is the dividend |
| ComplexNumbers.Complex.Div | composeApp/src/commonMain/kotlin/org/noiseplanet/noisecapture/audio/signal/bluestein/Bluestein.kt:50-53 | `div(other)` is defined exactly when the divisor's squared modulus is non-zero |
| ComplexNumbers.DivTimes | composeApp/src/commonMain/kotlin/org/noiseplanet/noisecapture/audio/signal/bluestein/Bluestein.kt:50-53 | (a / b) · b == a for every non-zero b: the quotient formula, a·conj(b) over the squared norm of b, really inverts `times` |
| ComplexNumbers.RealDiv | composeApp/src/commonMain/kotlin/org/noiseplanet/noisecapture/audio/signal/bluestein/Bluestein.kt:31-35 | `Double.div(Complex)` is defined exactly when the divisor is non-zero |
| ComplexNumbers.RealDivTimes | composeApp/src/commonMain/kotlin/org/noiseplanet/noisecapture/audio/signal/bluestein/Bluestein.kt:31-35 | (d / c) · c == d: `Double.div(Complex)` is d·conj(c) over the squared norm of c |
| ComplexNumbers.RealOperatorsEmbed | composeApp/src/commonMain/kotlin/org/noiseplanet/noisecapture/audio/signal/bluestein/Bluestein.kt:24-35 | `Double.plus`, `Double.minus` and `Double.div` with a `Complex` agree with the complex operators applied to d + 0i, and so does the corrected `Double.times` |
| ComplexNumbers.RealTimes | composeApp/src/commonMain/kotlin/org/noiseplanet/noisecapture/audio/signal/bluestein/Bluestein.kt:26-29 | the corrected `Double.times(Complex)` scales both parts by d |
| ComplexNumbers.RealTimesAsWrittenRotates | composeApp/src/commonMain/kotlin/org/noiseplanet/noisecapture/audio/signal/bluestein/Bluestein.kt:26-29 | as written, `Double.times(Complex)` multiplies by d(1 + i); it agrees with scaling only when d is 0 or the operand is 0 |
| ComplexNumbers.RealTimesAsWrittenExample | composeApp/src/commonMain/kotlin/org/noiseplanet/noisecapture/audio/signal/bluestein/Bluestein.kt:26-29 | as written, 1.0 · (1 + 0i) gives 1 + i instead of 1 |
| ComplexNumbers.RealDivEmbeds | composeApp/src/commonMain/kotlin/org/noiseplanet/noisecapture/audio/signal/bluestein/Bluestein.kt:31-35 | `Double.div(Complex)` agrees with dividing the complex number d + 0i by c |
| ChirpZ.Chirp | composeApp/src/commonMain/kotlin/org/noiseplanet/noisecapture/audio/signal/bluestein/Bluestein.kt:87-98 | the chirp table holds one factor for each k from 1 − n to n − 1, that is 2(max(m, n) + n − 1) doubles with m = n |
| ChirpZ.ChirpSymmetric | composeApp/src/commonMain/kotlin/org/noiseplanet/noisecapture/audio/signal/bluestein/Bluestein.kt:94 | the factor w^(k²/2) depends on k² only, so the table is symmetric about its middle pair |
| ChirpZ.ChirpOnUnitCircle | composeApp/src/commonMain/kotlin/org/noiseplanet/noisecapture/audio/signal/bluestein/Bluestein.kt:89-98 | every chirp factor lies on the unit circle when sine and cosine do, so every one has a reciprocal |
| ChirpZ.ReciprocalChirp | composeApp/src/commonMain/kotlin/org/noiseplanet/noisecapture/audio/signal/bluestein/Bluestein.kt:99-107 | the `ichirp` table before its transform has n2 = `nextPowerOfTwo(m + n − 1)` pairs |
| ChirpZ.ReciprocalChirpInverts | composeApp/src/commonMain/kotlin/org/noiseplanet/noisecapture/audio/signal/bluestein/Bluestein.kt:100-107 | pair i < m + n − 1 of `ichirp` times chirp factor i is 1, and every pair from m + n − 1 on is zero |
| ChirpZ.ConvolutionLength | composeApp/src/commonMain/kotlin/org/noiseplanet/noisecapture/audio/signal/bluestein/Bluestein.kt:99 | for 2n − 1 below 2^29 the convolution length is a power of two between 2n − 1 and 2^29; above it is 2^30 |
| ChirpZ.ChirpSize | composeApp/src/commonMain/kotlin/org/noiseplanet/noisecapture/audio/signal/bluestein/Bluestein.kt:91-92 | the `Int` size 2·(2n − 1) of the chirp array is exact and non-negative exactly when n ≤ 2^29 |
| ChirpZ.ReciprocalSize | composeApp/src/commonMain/kotlin/org/noiseplanet/noisecapture/audio/signal/bluestein/Bluestein.kt:100 | for n ≤ 2^29 the `Int` size 2·n2 of `ichirp` is exact and non-negative exactly when n ≤ 2^28 |
| ChirpZ.Make | composeApp/src/commonMain/kotlin/org/noiseplanet/noisecapture/audio/signal/bluestein/Bluestein.kt:87-111 | the constructor succeeds exactly when n ≤ 2^28, fails with a negative array size or an index out of bounds otherwise, and builds the chirp table and n2 = `nextPowerOfTwo(2n − 1)` |
| ChirpZ.Transform | composeApp/src/commonMain/kotlin/org/noiseplanet/noisecapture/audio/signal/bluestein/Bluestein.kt:113-148 | `fft(x)` rejects any input that does not hold 2·windowLength doubles and otherwise returns 2·windowLength doubles |
| ChirpZ.PreChirp | composeApp/src/commonMain/kotlin/org/noiseplanet/noisecapture/audio/signal/bluestein/Bluestein.kt:115-128 | `xp` holds n2 pairs: the input pairs times their chirp factors, then zero padding beyond n |
| ChirpZ.TransformSilent | composeApp/src/commonMain/kotlin/org/noiseplanet/noisecapture/audio/signal/bluestein/Bluestein.kt:113-148 | the chirp-z transform of silence is silence, whatever the trigonometric values |
| ChirpZ.TransformOfOne | composeApp/src/commonMain/kotlin/org/noiseplanet/noisecapture/audio/signal/bluestein/Bluestein.kt:113-148 | for one sample whose chirp factor is exactly 1 the transform is the identity |
| ChirpZ.FftSilent | composeApp/src/commonMain/kotlin/org/noiseplanet/noisecapture/audio/signal/fft.kt:37-165 | the radix-2 transforms map silence to silence |
| ChirpZ.TransformAdditive | composeApp/src/commonMain/kotlin/org/noiseplanet/noisecapture/audio/signal/bluestein/Bluestein.kt:113-148 | the transform of the sum of two inputs of n pairs is the sum of their transforms, whatever the trigonometric values |
| ChirpZ.FloatTransform | composeApp/src/commonMain/kotlin/org/noiseplanet/noisecapture/audio/signal/BluesteinFloat.kt:113-153 | an input of 2n values goes through the complex transform; an input shorter than n fails on its first missing sample; any other input is read as n real samples and gives n real values |
| ChirpZ.RealPreChirpEmbeds | composeApp/src/commonMain/kotlin/org/noiseplanet/noisecapture/audio/signal/BluesteinFloat.kt:115-128 | with the chirp factor of pair n − 1 + i, chirping n real samples is chirping their complex embedding |
| ChirpZ.RealTransform | composeApp/src/commonMain/kotlin/org/noiseplanet/noisecapture/audio/signal/BluesteinFloat.kt:113-153 | corrected: value k of the real-input transform is the real part of bin k of the complex transform of the samples |
| ChirpZ.RealChirpAsWrittenMisreads | composeApp/src/commonMain/kotlin/org/noiseplanet/noisecapture/audio/signal/BluesteinFloat.kt:117-123 | as written, real sample 1 is chirped with (sin 0, sin t), t = −1/(2n) turn, where the intended factor is (cos t, sin t) |
| ChirpZ.RealChirpAsWrittenExample | composeApp/src/commonMain/kotlin/org/noiseplanet/noisecapture/audio/signal/BluesteinFloat.kt:117-123 | with the true sine and cosine, for three samples 0, 1, 0 the pre-chirp as written differs from the intended one |
| SpectrogramProcessing.Make | composeApp/src/commonMain/kotlin/org/noiseplanet/noisecapture/audio/signal/window/SpectrogramDataProcessing.kt:19-61 | a negative window size fails on the buffer allocation; a size that is not a power of two and above 2^28 fails while building the chirp-z transform; otherwise a hop ≤ 0 fails on the `require`; a processor built starts with a zero buffer, the cursor at 0, the countdown at `windowSize`, a Hann table exactly when asked and the chirp-z transform of its size exactly when that size is not a power of two |
| SpectrogramProcessing.ChirpFor | composeApp/src/commonMain/kotlin/org/noiseplanet/noisecapture/audio/signal/window/SpectrogramDataProcessing.kt:28-33 | a chirp-z transform is built exactly when `nextPowerOfTwo(windowSize)` differs from `windowSize`; building it fails only above 2^28 samples, with the error its constructor raises |
| SpectrogramProcessing.UsesBluesteinIff | composeApp/src/commonMain/kotlin/org/noiseplanet/noisecapture/audio/signal/window/SpectrogramDataProcessing.kt:28-33 | the Bluestein transform is chosen exactly when the window size is not a power of two, for every size strictly between 0 and `Int.MAX_VALUE` |
| SpectrogramProcessing.Step | composeApp/src/commonMain/kotlin/org/noiseplanet/noisecapture/audio/signal/window/SpectrogramDataProcessing.kt:83-91 | one sample keeps the cursor inside the buffer and at least one sample missing before the next window |
| SpectrogramProcessing.Push | composeApp/src/commonMain/kotlin/org/noiseplanet/noisecapture/audio/signal/window/SpectrogramDataProcessing.kt:66-121 | pushing samples keeps the processor valid: the cursor stays in [0, windowSize) |
| SpectrogramProcessing.FillQuiet | composeApp/src/commonMain/kotlin/org/noiseplanet/noisecapture/audio/signal/window/SpectrogramDataProcessing.kt:75-90 | copying a run that stops before the countdown ends emits nothing and matches storing its samples one at a time |
| SpectrogramProcessing.FillEmit | composeApp/src/commonMain/kotlin/org/noiseplanet/noisecapture/audio/signal/window/SpectrogramDataProcessing.kt:75-118 | a run that ends the countdown emits the buffer it leaves behind, and the countdown restarts at `windowHop` |
| SpectrogramProcessing.FetchRuns | composeApp/src/commonMain/kotlin/org/noiseplanet/noisecapture/audio/signal/window/SpectrogramDataProcessing.kt:75-90 | the inner loop, copying runs bounded by the end of the circular buffer, stores exactly `toFetch` samples and agrees with storing them one at a time |
| SpectrogramProcessing.PushSamples | composeApp/src/commonMain/kotlin/org/noiseplanet/noisecapture/audio/signal/window/SpectrogramDataProcessing.kt:66-121 | the loop as written consumes every input sample and yields exactly the windows and state of the sample-by-sample semantics |
| SpectrogramProcessing.PushFromCount | composeApp/src/commonMain/kotlin/org/noiseplanet/noisecapture/audio/signal/window/SpectrogramDataProcessing.kt:91-118 | the number of windows emitted is the number of times the countdown reaches 0, restarting at `windowHop` each time |
| SpectrogramProcessing.FreshWindowCount | composeApp/src/commonMain/kotlin/org/noiseplanet/noisecapture/audio/signal/window/SpectrogramDataProcessing.kt:91-118 | a fresh processor emits no window before `windowSize` samples and then one more every `windowHop` samples: (len − windowSize) / windowHop + 1 |
| SpectrogramProcessing.ThirteenSamplesFiveWindows | composeApp/src/commonTest/kotlin/org/noiseplanet/noisecapture/signal/TestWindowAnalysis.kt:41-50 | 13 samples through windows of 5 with a hop of 2 give 5 windows |
| SpectrogramProcessing.RotatedAdvance | composeApp/src/commonMain/kotlin/org/noiseplanet/noisecapture/audio/signal/window/SpectrogramDataProcessing.kt:93-105 | storing a sample drops the oldest sample from the oldest-first view of the buffer and appends the new one |
| SpectrogramProcessing.FreshWindows | composeApp/src/commonMain/kotlin/org/noiseplanet/noisecapture/audio/signal/window/SpectrogramDataProcessing.kt:93-115 | window j of a fresh processor holds input samples j·hop to j·hop + windowSize, oldest first, times the Hann coefficients when applied |
| SpectrogramProcessing.OverlapAdd | composeApp/src/commonMain/kotlin/org/noiseplanet/noisecapture/audio/signal/window/SpectrogramDataProcessing.kt:126-137 | the reference overlap-add in exact arithmetic: k + k·windowHop samples, failing with an index error exactly when some window is too short for a read the loop makes |
| SpectrogramProcessing.ReconstructOriginalSignal | composeApp/src/commonMain/kotlin/org/noiseplanet/noisecapture/audio/signal/window/SpectrogramDataProcessing.kt:126-137 | with the `Int` size k + k·windowHop and `Int` write positions i·windowHop + j: the call fails with NegativeArraySize exactly when the wrapped size is negative; when every size and position is exact it returns the reference overlap-add; when the size is exact but a write position of the last window passes Int.MAX_VALUE, the wrapped negative position fails the array read with an index error |
| SpectrogramProcessing.AddWindow | composeApp/src/commonMain/kotlin/org/noiseplanet/noisecapture/audio/signal/window/SpectrogramDataProcessing.kt:129-134 | the inner loop adds sample j of a window at the `Int` position start + j; while no position wraps, it adds every sample that lands inside the sum and fails with an index error exactly when such a read runs past the window's end; a run of positions that leaves the Int range always fails with an index error |
| SpectrogramProcessing.AddWindows | composeApp/src/commonMain/kotlin/org/noiseplanet/noisecapture/audio/signal/window/SpectrogramDataProcessing.kt:127-136 | the outer loop over the windows equals the reference overlap-add when every size and position is exact, and fails when only the positions of the last window leave the Int range |
| SpectrogramProcessing.OverlapSize | composeApp/src/commonMain/kotlin/org/noiseplanet/noisecapture/audio/signal/window/SpectrogramDataProcessing.kt:127 | the `Int` size of the sum is k + k·windowHop whenever that value is an Int |
| SpectrogramProcessing.StackDisjoint | composeApp/src/commonMain/kotlin/org/noiseplanet/noisecapture/audio/signal/window/SpectrogramDataProcessing.kt:128-135 | when hop ≥ windowSize, sample q·hop + r of the sum is sample r of window q, or zero in the gaps |
| SpectrogramProcessing.TiledOverlapAdd | composeApp/src/commonMain/kotlin/org/noiseplanet/noisecapture/audio/signal/window/SpectrogramDataProcessing.kt:126-137 | windows that tile the input, each as long as the hop, overlap-add back to the input followed by one zero per window |
| SpectrogramProcessing.ReconstructRoundTrip | composeApp/src/commonMain/kotlin/org/noiseplanet/noisecapture/audio/signal/window/SpectrogramDataProcessing.kt:66-137 | with no Hann window and hop == windowSize, the reference overlap-add of `pushSamples(x)` is x up to the last full window, followed by one zero per window, and whenever k + k·windowSize is an Int every size and position the loops compute is exact, so `reconstructOriginalSignal` returns that same signal |
| SpectrogramProcessing.VRef | composeApp/src/commonMain/kotlin/org/noiseplanet/noisecapture/audio/signal/window/SpectrogramDataProcessing.kt:38-44 | with `windowSize²` an `Int` product, the reference `windowSize²/2 · factor` is positive up to a size of 46340, negative from 46341 to 65535, and zero at every multiple of 65536 |
| SpectrogramProcessing.LevelsAgreeOnImaginaryBins | composeApp/src/commonMain/kotlin/org/noiseplanet/noisecapture/audio/signal/window/SpectrogramDataProcessing.kt:146-152 | as written, the level of a bin ignores its real part: changing that part never changes the level, and the level agrees with the squared-modulus one exactly on a bin whose real part is zero |
| SpectrogramProcessing.DcLevelAsWritten | composeApp/src/commonMain/kotlin/org/noiseplanet/noisecapture/audio/signal/window/SpectrogramDataProcessing.kt:150 | on a `realFFT` spectrum the DC imaginary part is always 0, so the DC level as written is 10·log10(0) whatever the signal |
| SpectrogramProcessing.DcLevel | composeApp/src/commonMain/kotlin/org/noiseplanet/noisecapture/audio/signal/window/SpectrogramDataProcessing.kt:150 | with the squared modulus the DC level is that of the square of the sum of the samples |
| SpectrogramProcessing.ProcessWindowFloat | composeApp/src/commonMain/kotlin/org/noiseplanet/noisecapture/audio/signal/window/SpectrogramDataProcessing.kt:146-152 | a window whose size is not the window size is rejected with `IllegalArgumentException`; the radix-2 path otherwise fails only for sizes 0 and 1 and gives windowSize/2 + 1 levels, the chirp-z path always succeeds and gives windowSize/2 levels |
| SpectrogramProcessing.ProcessWindowFloatEnds | composeApp/src/commonMain/kotlin/org/noiseplanet/noisecapture/audio/signal/window/SpectrogramDataProcessing.kt:146-152 | on the radix-2 path the first and last levels, of the DC and Nyquist bins, are those of power 0 whatever the samples, where the squared modulus would give the DC level of the squared sample sum |
| SpectrogramProcessing.ProcessWindowFloatChirp | composeApp/src/commonMain/kotlin/org/noiseplanet/noisecapture/audio/signal/window/SpectrogramDataProcessing.kt:146-152 | on the chirp-z path level i is that of the squared real part of value 2i + 1 of the real-input transform as written |
| SpectrogramProcessing.ZeroPhaseFill | shared/src/commonMain/kotlin/org/noiseplanet/noisecapture/shared/signal/WindowAnalysis.kt:132-144 | the two copy loops put the second half of the window at 0 and the first half at the end of the buffer, zeros between: the zero-padded window rotated by half its size |
| SpectrogramProcessing.ProcessWindowDouble | composeApp/src/commonMain/kotlin/org/noiseplanet/noisecapture/audio/signal/window/SpectrogramDataProcessing.kt:155-167 | a window shorter than the window size fails on its first missing sample; otherwise the result is `realFFT` of the zero-phase buffer of size `nextPowerOfTwo(windowSize)` |
| FrequencyBands.BandsOnGrid | composeApp/src/commonMain/kotlin/org/noiseplanet/noisecapture/audio/signal/FrequencyBand.kt:45-54 | band k's centre is 1000·g^(k/d) and its edges g^(∓1/2d) times the centre: points 2k − 1, 2k, 2k + 1 of one half-band grid |
| FrequencyBands.BandOrdered | composeApp/src/commonMain/kotlin/org/noiseplanet/noisecapture/audio/signal/FrequencyBand.kt:45-54 | for g > 1 and d > 0 every band satisfies 0 < fMin < fMid < fMax |
| FrequencyBands.SharedEdge | composeApp/src/commonMain/kotlin/org/noiseplanet/noisecapture/audio/signal/FrequencyBand.kt:50-53 | adjacent bands share an edge: fMax of band k is fMin of band k + 1 |
| FrequencyBands.OctaveStep | composeApp/src/commonMain/kotlin/org/noiseplanet/noisecapture/audio/signal/FrequencyBand.kt:50 | moving d bands up multiplies the centre by g: one octave of the base |
| FrequencyBands.BandUnique | composeApp/src/commonMain/kotlin/org/noiseplanet/noisecapture/audio/signal/FrequencyBand.kt:45-54 | no frequency lies strictly inside two different bands |
| FrequencyBands.SearchFrom | composeApp/src/commonMain/kotlin/org/noiseplanet/noisecapture/audio/signal/FrequencyBand.kt:61-73 | whatever the search returns is a band holding the frequency strictly inside it |
| FrequencyBands.BandIndexByFrequency | composeApp/src/commonMain/kotlin/org/noiseplanet/noisecapture/audio/signal/FrequencyBand.kt:56-74 | `getBandIndexByFrequency` starts at band 0, and any index it returns is a band holding the frequency |
| FrequencyBands.SearchFinds | composeApp/src/commonMain/kotlin/org/noiseplanet/noisecapture/audio/signal/FrequencyBand.kt:61-73 | when band t holds f the loop terminates at t after exactly as many steps as the distance between k and t from band k, moving one band at a time |
| FrequencyBands.OnEdgeNeverFound | composeApp/src/commonMain/kotlin/org/noiseplanet/noisecapture/audio/signal/FrequencyBand.kt:63-68 | a frequency exactly on a band edge is in no band, so the loop never stops |
| FrequencyBands.BandTable | composeApp/src/commonMain/kotlin/org/noiseplanet/noisecapture/audio/signal/FrequencyBand.kt:39-42 | the table holds `count` consecutive bands from band `first`, each with spl 0 |
| FrequencyBands.EmptyFrequencyBands | composeApp/src/commonMain/kotlin/org/noiseplanet/noisecapture/audio/signal/FrequencyBand.kt:27-43 | the bands from the one holding the first frequency up to, excluding, the one holding the last; a search that never ends diverges and a last band below the first makes a negative array size |
| FrequencyBands.BandTableTiles | composeApp/src/commonMain/kotlin/org/noiseplanet/noisecapture/audio/signal/FrequencyBand.kt:39-54 | consecutive bands of a table share an edge and their centres rise |
| FrequencyBands.EmptyBandsTile | composeApp/src/commonMain/kotlin/org/noiseplanet/noisecapture/audio/signal/FrequencyBand.kt:27-54 | the bands `emptyFrequencyBands` returns tile the frequency axis in increasing order |
| FrequencyBands.EmptyBandsSpan | composeApp/src/commonMain/kotlin/org/noiseplanet/noisecapture/audio/signal/FrequencyBand.kt:37-42 | the first band returned holds the first frequency, and every band lies below the last frequency |
| ThirdOctave.NonFiniteSkipped | shared/src/commonMain/kotlin/org/noiseplanet/noisecapture/shared/signal/WindowAnalysis.kt:279-281 | a non-finite cell contribution is skipped: the accumulated energy is the same with that cell removed |
| ThirdOctave.CellFrequency | shared/src/commonMain/kotlin/org/noiseplanet/noisecapture/shared/signal/WindowAnalysis.kt:274 | cell i is given the frequency (i + 1) / freqByCell, never 0 and positive for a positive sample rate |
| ThirdOctave.CellRange | shared/src/commonMain/kotlin/org/noiseplanet/noisecapture/shared/signal/WindowAnalysis.kt:289-290 | rectangular mode takes cells from max(0, ⌊fMin·c⌋) up to, excluding, min(size, ⌈fMax·c⌉); the range always lies inside the spectrum |
| ThirdOctave.RectangularIsMasked | shared/src/commonMain/kotlin/org/noiseplanet/noisecapture/shared/signal/WindowAnalysis.kt:288-299 | rectangular mode sums exactly the finite energies of the cells in the band's range and nothing outside it |
| ThirdOctave.SharedEdgeCell | shared/src/commonMain/kotlin/org/noiseplanet/noisecapture/shared/signal/WindowAnalysis.kt:289-290 | two bands sharing an edge at a fractional cell position both count the cell holding it; at a whole position they touch without overlap |
| ThirdOctave.CellGainBounds | shared/src/commonMain/kotlin/org/noiseplanet/noisecapture/shared/signal/WindowAnalysis.kt:275-277 | every cell is weighted by a gain in (0, 1] |
| ThirdOctave.CellGainAtCentre | shared/src/commonMain/kotlin/org/noiseplanet/noisecapture/shared/signal/WindowAnalysis.kt:275-277 | the band's own centre frequency passes with gain 1 |
| ThirdOctave.FractionalWeights | shared/src/commonMain/kotlin/org/noiseplanet/noisecapture/shared/signal/WindowAnalysis.kt:273-281 | with positive energies, every cell adds a positive share of its energy that never exceeds it |
| ThirdOctave.ThirdOctaveProcessing | shared/src/commonMain/kotlin/org/noiseplanet/noisecapture/shared/signal/WindowAnalysis.kt:260-302 | the result is the `emptyFrequencyBands` table in the same order with the same edges, each band with the level of its gathered energy; its only faults are those of the table |
| AcousticIndicators.Make | composeApp/src/commonMain/kotlin/org/noiseplanet/noisecapture/audio/AcousticIndicatorsProcessing.kt:25-40 | the window holds ⌊sampleRate · 0.125⌋ samples truncated toward zero; a negative length fails the allocation (sample rates below −7); the 48 kHz configuration is chosen exactly for 48000 |
| AcousticIndicators.CommonWindowLengths | composeApp/src/commonMain/kotlin/org/noiseplanet/noisecapture/audio/AcousticIndicatorsProcessing.kt:11-27 | 44.1 kHz audio gives windows of 5512 samples and 48 kHz audio windows of 6000 |
| AcousticIndicators.ChunksShape | composeApp/src/commonMain/kotlin/org/noiseplanet/noisecapture/audio/AcousticIndicatorsProcessing.kt:44-83 | buffered plus new samples split into (number of samples) div windowLength complete windows and a remainder of (number of samples) mod windowLength samples |
| AcousticIndicators.ChunkAt | composeApp/src/commonMain/kotlin/org/noiseplanet/noisecapture/audio/AcousticIndicatorsProcessing.kt:53-56 | window j is the run of windowLength samples starting at sample j·windowLength |
| AcousticIndicators.Indicators | composeApp/src/commonMain/kotlin/org/noiseplanet/noisecapture/audio/AcousticIndicatorsProcessing.kt:62-80 | a record carries the call's epoch and the channel's nominal frequencies; rms is the square root of the window's mean square; leq − dbGain = 20·log10(rms); laeq − dbGain is the A-weighted level of the window; every third-octave level is raised by 10·log10(10^(dbGain/10) / number of bands) |
| Numerics.MeanSquare | composeApp/src/commonMain/kotlin/org/noiseplanet/noisecapture/audio/AcousticIndicatorsProcessing.kt:62-63 | the mean square of a window is never negative, is zero exactly for a silent window, and n times it is Σx² |
| AcousticIndicators.CopyRun | composeApp/src/commonMain/kotlin/org/noiseplanet/noisecapture/audio/AcousticIndicatorsProcessing.kt:53-56 | the copy loop writes `count` samples from `from` into the buffer at the cursor and leaves the part before the cursor alone |
| AcousticIndicators.FillWindow | composeApp/src/commonMain/kotlin/org/noiseplanet/noisecapture/audio/AcousticIndicatorsProcessing.kt:46-59 | the inner loop takes samples until the buffer is full or the input runs out, and always takes at least one |
| AcousticIndicators.ProcessSamples | composeApp/src/commonMain/kotlin/org/noiseplanet/noisecapture/audio/AcousticIndicatorsProcessing.kt:42-85 | one record per completed window, each with the call's epoch; the new cursor is (cursor₀ + len) mod windowLength and the buffer keeps the remainder; an empty window with input loops forever |
| AcousticIndicators.Streaming | composeApp/src/commonMain/kotlin/org/noiseplanet/noisecapture/audio/AcousticIndicatorsProcessing.kt:42-85 | feeding samples in two calls cuts the same windows as feeding them at once |
| Biquads.Make | composeApp/src/commonMain/kotlin/org/noiseplanet/noisecapture/audio/signal/BiquadFilter.kt:40-61 | the constructor rejects coefficient arrays of different lengths with `IllegalArgumentException`; otherwise both delays start as zeros, one per section |
| Biquads.Reset | composeApp/src/commonMain/kotlin/org/noiseplanet/noisecapture/audio/signal/BiquadFilter.kt:63-66 | `reset` zeroes both delays of every section and keeps every coefficient |
| Biquads.Step | composeApp/src/commonMain/kotlin/org/noiseplanet/noisecapture/audio/signal/BiquadFilter.kt:72-82 | one sample through the cascade keeps one delay pair per section |
| Biquads.StepMoved | composeApp/src/commonMain/kotlin/org/noiseplanet/noisecapture/audio/signal/BiquadFilter.kt:73-81 | after a sample, each section's second delay is its old first delay and its first delay its intermediate value, and `Step` is the only filter state with that description |
| Biquads.RunSection | composeApp/src/commonMain/kotlin/org/noiseplanet/noisecapture/audio/signal/BiquadFilter.kt:74-78 | the body of the inner loop computes the section's intermediate x − d1·a1 − d2·a2 and output w·b0 + d1·b1 + d2·b2 |
| Biquads.Cascade | composeApp/src/commonMain/kotlin/org/noiseplanet/noisecapture/audio/signal/BiquadFilter.kt:73-82 | the inner loop, updating delays in place, passes each section's output to the next and moves every section's delays |
| Biquads.SilenceKeepsRest | composeApp/src/commonMain/kotlin/org/noiseplanet/noisecapture/audio/signal/BiquadFilter.kt:72-82 | a cascade at rest maps silence to silence and stays at rest |
| Biquads.RunNext | composeApp/src/commonMain/kotlin/org/noiseplanet/noisecapture/audio/signal/BiquadFilter.kt:71-84 | running a block grows one `Step` per sample |
| Biquads.FilterThenLeq | composeApp/src/commonMain/kotlin/org/noiseplanet/noisecapture/audio/signal/BiquadFilter.kt:68-86 | the level is 10·log10(Σy²/n) of the cascade's outputs and the filter ends in the state after the block; an empty block is the NaN of 0/0 |
| Biquads.MultiplesStep | composeApp/src/commonMain/kotlin/org/noiseplanet/noisecapture/audio/signal/BiquadFilter.kt:103-106 | sample i adds an output slot exactly when i % factor == 0, and it is then the next slot |
| Biquads.FilterSlice | composeApp/src/commonMain/kotlin/org/noiseplanet/noisecapture/audio/signal/BiquadFilter.kt:88-108 | every sample goes through the cascade; the output of every factor-th sample from the first goes to the next slot, giving ⌈n/factor⌉ outputs; a zero factor and too small an output array fail |
| Biquads.Subsample | composeApp/src/commonMain/kotlin/org/noiseplanet/noisecapture/audio/signal/BiquadFilter.kt:91-107 | for a positive factor, slot k holds the cascade's output for sample k·factor and the slots past ⌈n/factor⌉ are untouched |
| Biquads.SliceSample | composeApp/src/commonMain/kotlin/org/noiseplanet/noisecapture/audio/signal/BiquadFilter.kt:92-106 | one iteration of the `filterSlice` loop keeps the filter and output in step with the samples read |
| Biquads.MultiplesGrow | composeApp/src/commonMain/kotlin/org/noiseplanet/noisecapture/audio/signal/BiquadFilter.kt:103 | more input never selects fewer output slots |
| Biquads.SilenceAtRest | composeApp/src/commonMain/kotlin/org/noiseplanet/noisecapture/audio/signal/BiquadFilter.kt:63-82 | silence fed to a cascade at rest reaches every section as silence |
| DigitalFilters.Make | shared/src/commonMain/kotlin/org/noiseplanet/noisecapture/shared/signal/DigitalFilter.kt:11-15 | the order is the numerator's length and both delay buffers hold that many zeros, with the current slot at 0 |
| DigitalFilters.ClearDelay | shared/src/commonMain/kotlin/org/noiseplanet/noisecapture/shared/signal/DigitalFilter.kt:17-21 | `clearDelay` gives back the filter as freshly constructed from the same coefficients |
| DigitalFilters.IndicesAreSlots | shared/src/commonMain/kotlin/org/noiseplanet/noisecapture/shared/signal/DigitalFilter.kt:35-43 | both index computations, with Kotlin's signed remainder and the fix-up for negatives, find the slot j samples back |
| DigitalFilters.NextIsModular | shared/src/commonMain/kotlin/org/noiseplanet/noisecapture/shared/signal/DigitalFilter.kt:47-48 | the current slot advances by one modulo the order, so it stays in [0, order) |
| DigitalFilters.Accumulate | shared/src/commonMain/kotlin/org/noiseplanet/noisecapture/shared/signal/DigitalFilter.kt:34-44 | the inner loop sums numerator[j]·x[n−j] and subtracts denominator[j]·y[n−j] for j ≥ 1 |
| DigitalFilters.WeighedIsEquation | shared/src/commonMain/kotlin/org/noiseplanet/noisecapture/shared/signal/DigitalFilter.kt:33-44 | with the current input stored, the circular buffers weigh exactly as the difference equation |
| DigitalFilters.ResponseNext | shared/src/commonMain/kotlin/org/noiseplanet/noisecapture/shared/signal/DigitalFilter.kt:30-50 | the response grows one difference-equation output at a time |
| DigitalFilters.FilterSample | shared/src/commonMain/kotlin/org/noiseplanet/noisecapture/shared/signal/DigitalFilter.kt:32-48 | one iteration produces the next difference-equation output and keeps the buffers tracking the block |
| DigitalFilters.Filter | shared/src/commonMain/kotlin/org/noiseplanet/noisecapture/shared/signal/DigitalFilter.kt:30-51 | every input sample yields y[n] = (Σ numerator[i]·x[n−i] − Σ_{i≥1} denominator[i]·y[n−i]) / denominator[0], written at index n; the slot ends at (c + n) mod order; order 0, a short denominator or a short output array is an index error |
| DigitalFilters.SquareSumLoop | shared/src/commonMain/kotlin/org/noiseplanet/noisecapture/shared/signal/DigitalFilter.kt:54-74 | the `filterLeq` loop runs the difference equation over the block and sums the squared outputs |
| DigitalFilters.FilterLeq | shared/src/commonMain/kotlin/org/noiseplanet/noisecapture/shared/signal/DigitalFilter.kt:53-76 | the level is 10·log10(Σy²/n) of the difference-equation outputs; an empty block is the NaN of 0/0; failures as for `filter` |
| Bitmaps.Unsigned | shared/src/commonMain/kotlin/org/noise_planet/noisecapture/shared/ui/SpectrogramBitmap.kt:109-110 | the bit pattern of an `Int` read as an unsigned number below 2^32: the value itself when non-negative, plus 2^32 otherwise |
| Bitmaps.LittleEndianBytes | shared/src/commonMain/kotlin/org/noise_planet/noisecapture/shared/ui/SpectrogramBitmap.kt:109-110 | `toLittleEndianBytes` writes exactly four bytes |
| Bitmaps.ReadWritten | shared/src/commonMain/kotlin/org/noise_planet/noisecapture/shared/ui/SpectrogramBitmap.kt:109-110 | decoding the four little-endian bytes gives the `Int` back |
| Bitmaps.WriteRead | shared/src/commonMain/kotlin/org/noise_planet/noisecapture/shared/ui/SpectrogramBitmap.kt:109-110 | encoding the value of any four bytes gives those bytes back: the encoding is a bijection |
| Bitmaps.ReadPut | shared/src/commonMain/kotlin/org/noise_planet/noisecapture/shared/ui/SpectrogramBitmap.kt:176 | a field written with `copyInto` reads back as the value written |
| Bitmaps.ReadOther | shared/src/commonMain/kotlin/org/noise_planet/noisecapture/shared/ui/SpectrogramBitmap.kt:176 | writing four bytes elsewhere leaves every other field as it was |
| Bitmaps.HeaderLayout | shared/src/commonMain/kotlin/org/noise_planet/noisecapture/shared/ui/SpectrogramBitmap.kt:22-53 | the header is 138 bytes and its fields agree: pixel data at offset 138 (field at 10) after a 124-byte DIB header (field at 14) |
| Bitmaps.ToLong16 | shared/src/commonMain/kotlin/org/noise_planet/noisecapture/shared/ui/SpectrogramBitmap.kt:59 | `toLong(16)` fails only with `NumberFormatException` |
| Bitmaps.ParseColorSpec | shared/src/commonMain/kotlin/org/noise_planet/noisecapture/shared/ui/SpectrogramBitmap.kt:58-67 | "#RRGGBB" parses to the opaque colour with alpha 0xFF and those three bytes; "#AARRGGBB" to the colour with those four bytes |
| Bitmaps.ParseColorLength | shared/src/commonMain/kotlin/org/noise_planet/noisecapture/shared/ui/SpectrogramBitmap.kt:63-65 | any length other than 7 or 9 whose digits parse is rejected with `IllegalArgumentException` |
| Bitmaps.HexRoundTrip | shared/src/commonMain/kotlin/org/noise_planet/noisecapture/shared/ui/SpectrogramBitmap.kt:59 | n hexadecimal digits written for a number below 16^n read back as that number |
| Bitmaps.ParseFormatted | shared/src/commonMain/kotlin/org/noise_planet/noisecapture/shared/ui/SpectrogramBitmap.kt:58-67 | every colour parses back from its "#AARRGGBB" form |
| Bitmaps.RampColor | shared/src/commonMain/kotlin/org/noise_planet/noisecapture/shared/ui/SpectrogramBitmap.kt:84-102 | every entry of the colour ramp parses successfully |
| Bitmaps.ClampToRamp | shared/src/commonMain/kotlin/org/noise_planet/noisecapture/shared/ui/SpectrogramBitmap.kt:171-173 | `min(ramp.size − 1, max(0, i))` is an index of the ramp, the index itself when already inside |
| Spectrograms.Create | composeApp/src/commonMain/kotlin/org/noiseplanet/noisecapture/ui/components/measurement/SpectrogramBitmap.kt:95-114 | the spectrogram keeps the size, scale and sample rate asked for, starts at column 0 and holds at least the 138 header bytes; a negative byte count (`NegativeArraySizeException`) or one too short for the header fails |
| Spectrograms.FillSpec | composeApp/src/commonMain/kotlin/org/noiseplanet/noisecapture/ui/components/measurement/SpectrogramBitmap.kt:100-107 | after the header is copied and the four fields written, the file size, width, height and raw size read back as written, every other header byte is the template's and the pixel bytes are zero |
| Spectrograms.SizesFit | composeApp/src/commonMain/kotlin/org/noiseplanet/noisecapture/ui/components/measurement/SpectrogramBitmap.kt:100-105 | when the byte count fits in an `Int`, the products 4·width·height and width·height·4 do not wrap |
| Spectrograms.CreateSpec | composeApp/src/commonMain/kotlin/org/noiseplanet/noisecapture/ui/components/measurement/SpectrogramBitmap.kt:95-114 | for sizes whose byte count fits in an `Int`, the image is the header plus 4·width·height zero bytes; the file size field equals the array length, and the width, height and raw size fields decode to the size |
| Spectrograms.FreshImagesEqual | composeApp/src/commonMain/kotlin/org/noiseplanet/noisecapture/ui/components/measurement/SpectrogramBitmap.kt:134-142 | `equals` compares only size and bytes: two fresh spectrograms of one size are equal whatever their scale and sample rate, although the records differ when those differ |
| Spectrograms.LinearRangesTile | composeApp/src/commonMain/kotlin/org/noiseplanet/noisecapture/ui/components/measurement/SpectrogramBitmap.kt:179-185 | on the linear axis the pixel rows' cell ranges tile the spectrum: the first starts at 0, each ends where the next starts, the last ends at the spectrum size, none runs backwards |
| Spectrograms.CellsOrdered | composeApp/src/commonMain/kotlin/org/noiseplanet/noisecapture/ui/components/measurement/SpectrogramBitmap.kt:180-184 | truncating the ends of an interval inside [0, S] keeps them ordered and inside [0, S]; limiting the end to S changes nothing |
| Spectrograms.RowCells | composeApp/src/commonMain/kotlin/org/noiseplanet/noisecapture/ui/components/measurement/SpectrogramBitmap.kt:164-184 | pixel row p covers the real interval [p·S/h, (p + 1)·S/h] inside [0, S], and the last row ends exactly at S |
| Spectrograms.LogRangesChain | composeApp/src/commonMain/kotlin/org/noiseplanet/noisecapture/ui/components/measurement/SpectrogramBitmap.kt:168-178 | on the logarithmic axis each row's range ends at most one cell past where the next begins and never past the spectrum, and the starts rise with the frequencies |
| Spectrograms.RowLevel | composeApp/src/commonMain/kotlin/org/noiseplanet/noisecapture/ui/components/measurement/SpectrogramBitmap.kt:186-190 | a row's level is an error (`IndexOutOfBounds`) exactly when a non-empty range starts before the spectrum, undefined (NaN) exactly when the range is empty, and otherwise never negative |
| Spectrograms.ColorIndex | composeApp/src/commonMain/kotlin/org/noiseplanet/noisecapture/ui/components/measurement/SpectrogramBitmap.kt:191-196 | the colour index is always an index of the 17-entry ramp, NaN and infinite quotients included |
| Spectrograms.ColorIndexSpec | composeApp/src/commonMain/kotlin/org/noiseplanet/noisecapture/ui/components/measurement/SpectrogramBitmap.kt:191-196 | with a positive range, levels at or below mindB take the first colour, levels at or above mindB + rangedB the last, and a level between takes the floor of its place times 17 |
| Spectrograms.ColorIndexMonotone | composeApp/src/commonMain/kotlin/org/noiseplanet/noisecapture/ui/components/measurement/SpectrogramBitmap.kt:191-196 | a louder level never takes an earlier colour of the ramp |
| Spectrograms.RowColor | composeApp/src/commonMain/kotlin/org/noiseplanet/noisecapture/ui/components/measurement/SpectrogramBitmap.kt:165-197 | a row whose cells can be read yields an entry of the ramp |
| Spectrograms.LinearReadable | composeApp/src/commonMain/kotlin/org/noiseplanet/noisecapture/ui/components/measurement/SpectrogramBitmap.kt:179-185 | on the linear axis every row's cells can be read |
| Spectrograms.CreateWellFormed | composeApp/src/commonMain/kotlin/org/noiseplanet/noisecapture/ui/components/measurement/SpectrogramBitmap.kt:95-114 | a fresh spectrogram with a positive width whose byte count fits in an `Int` is well formed |
| Spectrograms.PixelAt | composeApp/src/commonMain/kotlin/org/noiseplanet/noisecapture/ui/components/measurement/SpectrogramBitmap.kt:198-201 | row p of the current column is the four bytes at 138 + 4·(width·p + offset mod width), inside the array |
| Spectrograms.PixelsApart | composeApp/src/commonMain/kotlin/org/noiseplanet/noisecapture/ui/components/measurement/SpectrogramBitmap.kt:198-201 | different rows of the column occupy disjoint bytes |
| Spectrograms.PaintRow | composeApp/src/commonMain/kotlin/org/noiseplanet/noisecapture/ui/components/measurement/SpectrogramBitmap.kt:197-201 | painting one row writes its colour's four little-endian bytes at the row's place and leaves every other byte alone |
| Spectrograms.PaintRowSucceeds | composeApp/src/commonMain/kotlin/org/noiseplanet/noisecapture/ui/components/measurement/SpectrogramBitmap.kt:197-201 | in a well-formed spectrogram a row whose cells can be read is painted without error |
| Spectrograms.PaintKeeps | composeApp/src/commonMain/kotlin/org/noiseplanet/noisecapture/ui/components/measurement/SpectrogramBitmap.kt:165-202 | painting a later row leaves every earlier row's colour in place |
| Spectrograms.ProgressStep | composeApp/src/commonMain/kotlin/org/noiseplanet/noisecapture/ui/components/measurement/SpectrogramBitmap.kt:165-202 | after rows [0, p] are painted, those rows hold their colours and no byte outside them has changed |
| Spectrograms.Push | composeApp/src/commonMain/kotlin/org/noiseplanet/noisecapture/ui/components/measurement/SpectrogramBitmap.kt:150-204 | only the bytes of column `offset mod width` change and the column count advances by one (wrapping in `Int`); in a well-formed spectrogram every row holds the colour of its level, and the push cannot fail when every row can be read |
| LegacySpectrograms.CreateAsWritten | shared/src/commonMain/kotlin/org/noise_planet/noisecapture/shared/ui/SpectrogramBitmap.kt:103-107 | as written, the array length is the product 138·4·width·height and only the header template is copied in; when the array can take it, the image keeps its size and starts with the header |
| LegacySpectrograms.CreateAsWrittenMisSized | shared/src/commonMain/kotlin/org/noise_planet/noisecapture/shared/ui/SpectrogramBitmap.kt:104-105 | the product cannot hold an empty image: width 0 gives an empty array and copying the header fails, and a 1 × 1 image gets 552 bytes where 142 are used; the corrected size gives 138 bytes for 0 × 0 |
| LegacySpectrograms.Create | shared/src/commonMain/kotlin/org/noise_planet/noisecapture/shared/ui/SpectrogramBitmap.kt:103-107 | the corrected creation keeps the size asked for |
| LegacySpectrograms.CreateSpec | shared/src/commonMain/kotlin/org/noise_planet/noisecapture/shared/ui/SpectrogramBitmap.kt:103-107 | for sizes whose byte count fits in an `Int`, the corrected array is the header followed by 4·width·height zero bytes, well formed when the width is positive |
| LegacySpectrograms.RowInside | shared/src/commonMain/kotlin/org/noise_planet/noisecapture/shared/ui/SpectrogramBitmap.kt:175 | row r of a well-formed image lies after the header and inside the pixel bytes, and the next row starts right after it |
| LegacySpectrograms.RowsApart | shared/src/commonMain/kotlin/org/noise_planet/noisecapture/shared/ui/SpectrogramBitmap.kt:137 | an earlier row ends before any later row starts |
| LegacySpectrograms.RowOffsetAt | shared/src/commonMain/kotlin/org/noise_planet/noisecapture/shared/ui/SpectrogramBitmap.kt:137 | `bmpHeader.size + row·width·4` in `Int` arithmetic does not wrap in a well-formed image: it is the start of the row |
| LegacySpectrograms.CopyWithin | shared/src/commonMain/kotlin/org/noise_planet/noisecapture/shared/ui/SpectrogramBitmap.kt:138 | `copyInto` within one array succeeds exactly when source and destination ranges lie inside it; then the destination range holds the source bytes and everything else is kept, otherwise `IndexOutOfBounds` |
| LegacySpectrograms.ShiftStep | shared/src/commonMain/kotlin/org/noise_planet/noisecapture/shared/ui/SpectrogramBitmap.kt:136-139 | one row of the intended left shift succeeds: its first width − 1 pixels take the bytes one pixel further right |
| LegacySpectrograms.ShiftFromSpec | shared/src/commonMain/kotlin/org/noise_planet/noisecapture/shared/ui/SpectrogramBitmap.kt:135-139 | the intended scroll of rows [row, height) succeeds; each of those rows then holds its own bytes from one pixel further right, and every other byte is unchanged |
| LegacySpectrograms.ShiftAsWrittenStep | shared/src/commonMain/kotlin/org/noise_planet/noisecapture/shared/ui/SpectrogramBitmap.kt:136-139 | as written, one row of the loop copies the first row's first width − 1 pixels over the row's |
| LegacySpectrograms.ShiftAsWrittenFromSpec | shared/src/commonMain/kotlin/org/noise_planet/noisecapture/shared/ui/SpectrogramBitmap.kt:135-139 | as written, after the loop every row starts with the first row's first width − 1 pixels, and every other byte is unchanged |
| LegacySpectrograms.ShiftAsWrittenCopiesFirstRow | shared/src/commonMain/kotlin/org/noise_planet/noisecapture/shared/ui/SpectrogramBitmap.kt:138 | on a 2 × 2 image with pixels 1, 2 / 3, 4 the loop as written puts the first row's pixel 1 at the start of the second row, where the left shift puts 4 |
| LegacySpectrograms.LegacyRowLevel | shared/src/commonMain/kotlin/org/noise_planet/noisecapture/shared/ui/SpectrogramBitmap.kt:166-170 | the summed level max(0, 10·log10 Σ) fails exactly when a non-empty range starts before the spectrum, is never negative, and is 0 for an empty or backwards range |
| LegacySpectrograms.LegacyLevelOneCell | shared/src/commonMain/kotlin/org/noise_planet/noisecapture/shared/ui/SpectrogramBitmap.kt:166-170 | on a row of one cell the summed level equals the averaged level of the newer push with no gain |
| LegacySpectrograms.LegacyRowColor | shared/src/commonMain/kotlin/org/noise_planet/noisecapture/shared/ui/SpectrogramBitmap.kt:149-174 | a row whose cells can be read takes an entry of the 17-colour ramp |
| LegacySpectrograms.LegacyReadsAsNewer | shared/src/commonMain/kotlin/org/noise_planet/noisecapture/shared/ui/SpectrogramBitmap.kt:149-169 | a row's colour can be computed exactly when the newer push can compute it: the two pick the same cells |
| LegacySpectrograms.LegacyLinearReadable | shared/src/commonMain/kotlin/org/noise_planet/noisecapture/shared/ui/SpectrogramBitmap.kt:161-165 | on the linear axis every row's cells can be read |
| LegacySpectrograms.LegacyPixelAt | shared/src/commonMain/kotlin/org/noise_planet/noisecapture/shared/ui/SpectrogramBitmap.kt:175 | `bmpHeader.size + (pixel·width + width − 1)·4` is the last pixel of row p, inside the array |
| LegacySpectrograms.PaintRowWith | shared/src/commonMain/kotlin/org/noise_planet/noisecapture/shared/ui/SpectrogramBitmap.kt:174-176 | a row is painted only when its colour can be computed, and the array keeps its length |
| LegacySpectrograms.PaintRowWithSpec | shared/src/commonMain/kotlin/org/noise_planet/noisecapture/shared/ui/SpectrogramBitmap.kt:174-176 | a painted row's last pixel reads back as its colour and no other byte changes; a row with a colour fails only when its pixel lies outside the array |
| LegacySpectrograms.PaintFromSucceeds | shared/src/commonMain/kotlin/org/noise_planet/noisecapture/shared/ui/SpectrogramBitmap.kt:149-177 | when every pixel is inside the array, painting rows [p, height) succeeds exactly when each of them has a colour |
| LegacySpectrograms.PaintFromSpec | shared/src/commonMain/kotlin/org/noise_planet/noisecapture/shared/ui/SpectrogramBitmap.kt:149-177 | a successful paint of rows [p, height) writes each row's colour into its last pixel and changes nothing else |
| LegacySpectrograms.LegacyColorsSpec | shared/src/commonMain/kotlin/org/noise_planet/noisecapture/shared/ui/SpectrogramBitmap.kt:171-174 | row p has a colour exactly when its ramp index can be computed, and the colour is that ramp entry |
| LegacySpectrograms.LegacyPushPaints | shared/src/commonMain/kotlin/org/noise_planet/noisecapture/shared/ui/SpectrogramBitmap.kt:131-178 | a push on a well-formed image succeeds exactly when every row has a colour, and then the first row has been spread over the start of every row and the last pixels painted with those colours |
| LegacySpectrograms.LegacyPushSpec | shared/src/commonMain/kotlin/org/noise_planet/noisecapture/shared/ui/SpectrogramBitmap.kt:131-178 | a push on a well-formed image succeeds exactly when every row can be read; then every row starts with the first row's first width − 1 pixels (the scroll loop as written), its last pixel holds the ramp colour of its level, and the header and bytes past the image are unchanged |
| MeasurementScreen.RoundHalfEven | composeApp/src/commonMain/kotlin/org/noiseplanet/noisecapture/ui/features/measurement/MeasurementScreen.kt:99 | kotlin.math `round` gives an integer within one half of its argument, and on a tie the even one |
| MeasurementScreen.RoundNearest | composeApp/src/commonMain/kotlin/org/noiseplanet/noisecapture/ui/features/measurement/MeasurementScreen.kt:99 | an integer closer than one half to the value is its rounded value |
| MeasurementScreen.TimeAxisLabelReadsBack | composeApp/src/commonMain/kotlin/org/noiseplanet/noisecapture/ui/features/measurement/MeasurementScreen.kt:98-100 | the time label is "+", the rounded seconds saturated to `Int`, then "s"; the number reads back, and is within one half of the seconds whenever it fits in an `Int` |
| MeasurementScreen.NoiseLevelAxisLabelReadsBack | composeApp/src/commonMain/kotlin/org/noiseplanet/noisecapture/ui/features/measurement/MeasurementScreen.kt:102-104 | the level label is the rounded level saturated to `Int` followed by " dB"; the number reads back, and is within one half of the level whenever it fits in an `Int` |
| MeasurementScreen.FormatFrequencyAsWrittenCollides | composeApp/src/commonMain/kotlin/org/noiseplanet/noisecapture/ui/features/measurement/MeasurementScreen.kt:637-648 | as written, 1005 Hz and 1500 Hz both read "1.5 kHz": the remainder is printed without the zeros that place it in the thousandths |
| MeasurementScreen.FormatFrequencyAgrees | composeApp/src/commonMain/kotlin/org/noiseplanet/noisecapture/ui/features/measurement/MeasurementScreen.kt:637-648 | the corrected format agrees with the code as written below 1000 Hz, on whole kilohertz, and whenever the remainder has three digits |
| MeasurementScreen.ThousandthsReadBack | composeApp/src/commonMain/kotlin/org/noiseplanet/noisecapture/ui/features/measurement/MeasurementScreen.kt:639-641 | a remainder in (0, 1000) padded to three digits and trimmed of trailing zeros keeps one to three digits whose value in thousandths is the remainder |
| MeasurementScreen.FormatFrequencyReadsBack | composeApp/src/commonMain/kotlin/org/noiseplanet/noisecapture/ui/features/measurement/MeasurementScreen.kt:637-648 | every label of the corrected format reads back as the frequency it was made from: "<n> Hz", "<k> kHz" or "<k>.<d> kHz" |
| MeasurementScreen.FormatFrequencyInjective | composeApp/src/commonMain/kotlin/org/noiseplanet/noisecapture/ui/features/measurement/MeasurementScreen.kt:637-648 | with the corrected format, different frequencies get different labels |
| MeasurementScreen.AddStrip | composeApp/src/commonMain/kotlin/org/noiseplanet/noisecapture/ui/features/measurement/MeasurementScreen.kt:467-478 | a finished strip is appended to the cache, and at most the oldest strip is dropped |
| MeasurementScreen.AddStripSpec | composeApp/src/commonMain/kotlin/org/noiseplanet/noisecapture/ui/features/measurement/MeasurementScreen.kt:467-478 | the cache never holds more than one strip beyond the canvas width; the oldest strip is dropped exactly when the old strips already reach past the canvas; the new strip comes last, after the newest of the old ones in order |
| MeasurementScreen.FinishStrip | composeApp/src/commonMain/kotlin/org/noiseplanet/noisecapture/ui/features/measurement/MeasurementScreen.kt:467-486 | the value returned is the offset of the strip that is current afterwards, and the canvas width is kept |
| MeasurementScreen.FinishStripSpec | composeApp/src/commonMain/kotlin/org/noiseplanet/noisecapture/ui/features/measurement/MeasurementScreen.kt:467-486 | after a push the strips stay valid; a strip that reached 32 columns is cached and replaced by a blank strip of the same size at offset 0; it fails only when that blank strip cannot be allocated |
| MeasurementScreen.ProcessSpectrum | composeApp/src/commonMain/kotlin/org/noiseplanet/noisecapture/ui/features/measurement/MeasurementScreen.kt:463-487 | the spectrum is pushed into the current strip and the strip is cached when full; the strips stay valid, the returned offset is the current strip's, and a well-formed strip whose rows can be read fails only when the blank strip cannot be allocated |
| MapView.ZoomLevelToScale | composeApp/src/commonMain/kotlin/org/noiseplanet/noisecapture/ui/components/map/MapViewModel.kt:372-374 | the scale of every zoom level is positive |
| MapView.ScaleOfLevel | composeApp/src/commonMain/kotlin/org/noiseplanet/noisecapture/ui/components/map/MapViewModel.kt:372-374 | the scale of level z is 1 / 2^(20 − z) on every level of the map |
| MapView.ZoomLevelToScaleSpec | composeApp/src/commonMain/kotlin/org/noiseplanet/noisecapture/ui/components/map/MapViewModel.kt:372-374 | the deepest level has scale 1 and each level up halves it |
| MapView.ScaleToZoomLevelRoundTrip | composeApp/src/commonMain/kotlin/org/noiseplanet/noisecapture/ui/components/map/MapViewModel.kt:383-389 | reading the level back from the scale of any level 0..20 gives that level, given a `log2` exact on powers of two |
| MapView.ZoomIn | composeApp/src/commonMain/kotlin/org/noiseplanet/noisecapture/ui/components/map/MapViewModel.kt:335-339 | zooming in keeps a positive scale and stops following the user |
| MapView.ZoomOut | composeApp/src/commonMain/kotlin/org/noiseplanet/noisecapture/ui/components/map/MapViewModel.kt:341-345 | zooming out keeps a positive scale and stops following the user |
| MapView.ZoomOutUndoesZoomIn | composeApp/src/commonMain/kotlin/org/noiseplanet/noisecapture/ui/components/map/MapViewModel.kt:335-345 | on the map's levels, zooming in doubles the scale and zooming out brings it back |
| MapView.TileSizePx | composeApp/src/commonMain/kotlin/org/noiseplanet/noisecapture/ui/components/map/MapViewModel.kt:173-177 | the tile size is 350, 400 or 600 pixels |
| MapView.TotalMapSizeSpec | composeApp/src/commonMain/kotlin/org/noiseplanet/noisecapture/ui/components/map/MapViewModel.kt:183 | the whole map is the tile size times 2^20 pixels, with no `Int` wrap-around for any tile size |
| MapView.MinOf | composeApp/src/commonMain/kotlin/org/noiseplanet/noisecapture/ui/components/map/MapViewModel.kt:462-463 | `minOf` of a non-empty list is one of its values and at most each of them |
| MapView.MaxOf | composeApp/src/commonMain/kotlin/org/noiseplanet/noisecapture/ui/components/map/MapViewModel.kt:466-467 | `maxOf` of a non-empty list is one of its values and at least each of them |
| MapView.EnsureMinimumSizeSpec | composeApp/src/commonMain/kotlin/org/noiseplanet/noisecapture/ui/components/map/MapViewModel.kt:471-480 | after the minimum-size step each side is at least `MIN_BBOX_SIZE`, the centre is kept, a long enough side is unchanged and a short one becomes exactly `MIN_BBOX_SIZE` |
| MapView.PathBoundingBoxSpec | composeApp/src/commonMain/kotlin/org/noiseplanet/noisecapture/ui/components/map/MapViewModel.kt:459-483 | with the top edge at the northernmost point, a path's box exists exactly when the path is non-empty, is at least `MIN_BBOX_SIZE` on each side and holds every point of the path |
| MapView.PathBoundingBoxAsWrittenCollapses | composeApp/src/commonMain/kotlin/org/noiseplanet/noisecapture/ui/components/map/MapViewModel.kt:460-468 | as written, the top edge is projected from the smallest latitude, so every box is exactly `MIN_BBOX_SIZE` high and a path spanning more than that leaves a point outside |
| PathBuilder.PutEntrySpec | composeApp/src/commonMain/kotlin/org/noiseplanet/noisecapture/ui/components/map/SoundLevelPathBuilder.kt:105 | `map + (k to v)` keeps keys distinct: a new key is appended, an existing key keeps its place and takes the new value |
| PathBuilder.PutAllAppends | composeApp/src/commonMain/kotlin/org/noiseplanet/noisecapture/ui/components/map/SoundLevelPathBuilder.kt:154 | when every new timestamp is later than the ones before, adding the pairs to the map appends them, in time order |
| PathBuilder.LocationEntriesInOrder | composeApp/src/commonMain/kotlin/org/noiseplanet/noisecapture/ui/components/map/SoundLevelPathBuilder.kt:101-108 | fragments whose points come in time order fold into all their points in that order |
| PathBuilder.LaeqEntriesInOrder | composeApp/src/commonMain/kotlin/org/noiseplanet/noisecapture/ui/components/map/SoundLevelPathBuilder.kt:151-155 | Leq fragments whose values come in time order fold into all their values in that order |
| PathBuilder.FilterValuesSpec | composeApp/src/commonMain/kotlin/org/noiseplanet/noisecapture/ui/components/map/SoundLevelPathBuilder.kt:156-158 | the filter keeps entries in their order, keeps only accepted values, and keeps every accepted entry |
| PathBuilder.KeepFarSpec | composeApp/src/commonMain/kotlin/org/noiseplanet/noisecapture/ui/components/map/SoundLevelPathBuilder.kt:116-136 | after the first location, the kept locations are a subsequence in which each is at least the threshold away from the one kept before it |
| PathBuilder.DistanceFilterSpec | composeApp/src/commonMain/kotlin/org/noiseplanet/noisecapture/ui/components/map/SoundLevelPathBuilder.kt:111-137 | the distance filter always keeps the first location, keeps the others in order, and each kept location is at least 2 m from the previous kept one |
| PathBuilder.KeepFarKeepsFar | composeApp/src/commonMain/kotlin/org/noiseplanet/noisecapture/ui/components/map/SoundLevelPathBuilder.kt:127-135 | locations all at least the threshold from each other are all kept |
| PathBuilder.KeepFarDropsNear | composeApp/src/commonMain/kotlin/org/noiseplanet/noisecapture/ui/components/map/SoundLevelPathBuilder.kt:127-130 | locations all within the threshold of the last kept one are all dropped |
| PathBuilder.DistanceFilterExtremes | composeApp/src/commonMain/kotlin/org/noiseplanet/noisecapture/ui/components/map/SoundLevelPathBuilder.kt:111-137 | the filter drops nothing when no two locations are near, and everything but the first when all are near the first |
| PathBuilder.SortedSequencesInOrder | composeApp/src/commonMain/kotlin/org/noiseplanet/noisecapture/ui/components/map/SoundLevelPathBuilder.kt:97-161 | fragments in time order give both the location and the LAeq sequence in time order |
| PathBuilder.GatherWindow | composeApp/src/commonMain/kotlin/org/noiseplanet/noisecapture/ui/components/map/SoundLevelPathBuilder.kt:61-70 | the inner loop consumes exactly the levels before the current time from the cursor on and gathers those at or after the previous time |
| PathBuilder.WindowOfConsumed | composeApp/src/commonMain/kotlin/org/noiseplanet/noisecapture/ui/components/map/SoundLevelPathBuilder.kt:63-70 | with levels in time order, the levels gathered from the cursor on are the whole window [previous time, current time) |
| PathBuilder.WindowSplit | composeApp/src/commonMain/kotlin/org/noiseplanet/noisecapture/ui/components/map/SoundLevelPathBuilder.kt:57-82 | with levels in time order, the window of [lo, hi) is the window of [lo, mid) followed by that of [mid, hi) |
| PathBuilder.AllWindowsTile | composeApp/src/commonMain/kotlin/org/noiseplanet/noisecapture/ui/components/map/SoundLevelPathBuilder.kt:57-82 | the windows between consecutive locations together are the window from the first location to the last |
| PathBuilder.EachLevelUsedOnce | composeApp/src/commonMain/kotlin/org/noiseplanet/noisecapture/ui/components/map/SoundLevelPathBuilder.kt:57-82 | with both sequences in time order, the windows together hold no more levels than there are: no level is averaged into two points |
| PathBuilder.ResampledSpec | composeApp/src/commonMain/kotlin/org/noiseplanet/noisecapture/ui/components/map/SoundLevelPathBuilder.kt:57-83 | the path has at most one point per location after the first, and each point sits at such a location with the average of its window's levels |
| PathBuilder.PathFromSequences | composeApp/src/commonMain/kotlin/org/noiseplanet/noisecapture/ui/components/map/SoundLevelPathBuilder.kt:33-84 | a single location gives two copies of one point averaging every level; otherwise the path has at most one point per location after the first, and with both sequences in time order it is the reference path of window averages |
| PathBuilder.PathForMeasurement | composeApp/src/commonMain/kotlin/org/noiseplanet/noisecapture/ui/components/map/SoundLevelPathBuilder.kt:33-84 | with exactly one kept location the path is two copies of one point at that location averaging every kept level; otherwise it has at most one point per kept location after the first, and from fragments in time order it is the reference path of window averages between consecutive kept locations |
| Fragments.Minimum | composeApp/src/commonMain/kotlin/org/noiseplanet/noisecapture/model/dao/SequenceFragment.kt:58-59 | `minOrNull` is undefined exactly for no timestamps, and otherwise is one of them and at most each |
| Fragments.Maximum | composeApp/src/commonMain/kotlin/org/noiseplanet/noisecapture/model/dao/SequenceFragment.kt:64-65 | `maxOrNull` is undefined exactly for no timestamps, and otherwise is one of them and at least each |
| Fragments.DurationSpec | composeApp/src/commonMain/kotlin/org/noiseplanet/noisecapture/model/dao/SequenceFragment.kt:58-71 | the corrected duration is defined exactly when there are timestamps, every timestamp lies between the start and the end, and the duration is the non-negative spread when that fits in a `Long` |
| Fragments.DurationAsWrittenNegative | composeApp/src/commonMain/kotlin/org/noiseplanet/noisecapture/model/dao/SequenceFragment.kt:70-71 | as written, a fragment with timestamps 1000 and 4000 lasts −3000 ms; the corrected duration is 3000 ms |
| Fragments.DurationAsWrittenSpec | composeApp/src/commonMain/kotlin/org/noiseplanet/noisecapture/model/dao/SequenceFragment.kt:70-71 | as written, the duration is never positive while the spread fits in a `Long`, and is exactly the corrected duration negated |
| Fragments.NewLeqFragment | composeApp/src/commonMain/kotlin/org/noiseplanet/noisecapture/model/dao/LeqSequenceFragment.kt:21-31 | a fresh Leq fragment has no timestamps and its level lists are aligned |
| Fragments.PushLeqSpec | composeApp/src/commonMain/kotlin/org/noiseplanet/noisecapture/model/dao/LeqSequenceFragment.kt:33-49 | with the C-weighted level going to its own list, a push keeps the lists aligned, the fragment's identity and every earlier entry, and the new last entry reads back as the pushed record |
| Fragments.PushLeqAsWrittenSpec | composeApp/src/commonMain/kotlin/org/noiseplanet/noisecapture/model/dao/LeqSequenceFragment.kt:33-49 | as written, a push keeps the lists aligned, the fragment's identity and every earlier entry, and the new last entry reads back with the unweighted level in place of the C-weighted one |
| Fragments.PushLeqAsWrittenLosesLceq | composeApp/src/commonMain/kotlin/org/noiseplanet/noisecapture/model/dao/LeqSequenceFragment.kt:37 | as written, a record whose C-weighted level differs from its unweighted one does not read back: the C-weighted list receives `lzeq` |
| Fragments.PushAllLeqBands | composeApp/src/commonMain/kotlin/org/noiseplanet/noisecapture/model/dao/LeqSequenceFragment.kt:39-48 | after a run of pushes a band's list is its old list followed by exactly the levels the records gave that band, in order, and a band is present exactly when it was or some record has it |
| Fragments.NewLocationFragment | composeApp/src/commonMain/kotlin/org/noiseplanet/noisecapture/model/dao/LocationSequenceFragment.kt:21-39 | a fresh location fragment has no timestamps and its eleven lists are aligned |
| Fragments.PushLocationSpec | composeApp/src/commonMain/kotlin/org/noiseplanet/noisecapture/model/dao/LocationSequenceFragment.kt:41-54 | a push keeps the eleven lists aligned, the fragment's identity and every earlier record, and the new last record reads back as the pushed one |
| Fragments.PushAllLocationsReadsBack | composeApp/src/commonMain/kotlin/org/noiseplanet/noisecapture/model/dao/LocationSequenceFragment.kt:41-54 | a run of pushes reads back as the earlier records followed by exactly that run, in order |
| MeasurementService.Snapshot | composeApp/src/commonMain/kotlin/org/noiseplanet/noisecapture/services/measurement/DefaultMeasurementService.kt:183-201 | the saved measurement keeps the uuid, start and fragment ids, ends now, and lasts now − start in `Long` arithmetic (exactly that when it does not overflow) |
| MeasurementService.Initial | composeApp/src/commonMain/kotlin/org/noiseplanet/noisecapture/services/measurement/DefaultMeasurementService.kt:52-62 | the service before any measurement keeps its fragments filed |
| MeasurementService.FileFragment | composeApp/src/commonMain/kotlin/org/noiseplanet/noisecapture/services/measurement/DefaultMeasurementService.kt:163-172 | storing a pending fragment and appending its id makes it the measurement's last listed fragment, with index equal to its position |
| MeasurementService.OpenKeepsTracked | composeApp/src/commonMain/kotlin/org/noiseplanet/noisecapture/services/measurement/DefaultMeasurementService.kt:95-111 | opening a measurement when no fragment is pending makes it the ongoing one and keeps every stored fragment filed |
| MeasurementService.PushLeqRecordSpec | composeApp/src/commonMain/kotlin/org/noiseplanet/noisecapture/services/measurement/DefaultMeasurementService.kt:113-127 | a Leq push does nothing without an ongoing measurement; otherwise only the current fragment changes, gaining the record as its last entry with its unweighted level also in the C-weighted list (`push` as written), and a new fragment is created with index equal to the number of fragments already listed |
| MeasurementService.PushLocationRecordSpec | composeApp/src/commonMain/kotlin/org/noiseplanet/noisecapture/services/measurement/DefaultMeasurementService.kt:129-143 | a location push does nothing without an ongoing measurement; otherwise only the current fragment changes, gaining the record as its last entry, and a new fragment is created with index equal to the number of fragments already listed |
| MeasurementService.StoreLocationKeepsTracked | composeApp/src/commonMain/kotlin/org/noiseplanet/noisecapture/services/measurement/DefaultMeasurementService.kt:165-168 | storing the current location fragment appends its id to the measurement and changes neither the Leq storage nor the measurements |
| MeasurementService.StoreLeqKeepsTracked | composeApp/src/commonMain/kotlin/org/noiseplanet/noisecapture/services/measurement/DefaultMeasurementService.kt:169-172 | storing the current Leq fragment appends its id to the measurement and changes neither the location storage nor the measurements |
| MeasurementService.FragmentEndSpec | composeApp/src/commonMain/kotlin/org/noiseplanet/noisecapture/services/measurement/DefaultMeasurementService.kt:163-178 | a fragment end files both current fragments as the measurement's next ones, saves the measurement with them, and leaves no fragment current |
| MeasurementService.SavedLeqSequenceInOrder | composeApp/src/commonMain/kotlin/org/noiseplanet/noisecapture/services/measurement/DefaultMeasurementService.kt:78-84 | once saved, the measurement's Leq sequence reads back every filed fragment in order, the k-th having index k and belonging to the measurement |
| MeasurementService.FragmentEndReadsBack | composeApp/src/commonMain/kotlin/org/noiseplanet/noisecapture/services/measurement/DefaultMeasurementService.kt:163-178 | after a fragment end, the saved Leq sequence is every fragment filed so far, in order, ending with the one that was current |
| MeasurementService.SetRecordedAudioUrlKeepsTracked | composeApp/src/commonMain/kotlin/org/noiseplanet/noisecapture/services/measurement/DefaultMeasurementService.kt:145-147 | recording the audio URL sets the ongoing measurement's URL and keeps every fragment filed |
| Storage.EmptyStore | composeApp/src/commonMain/kotlin/org/noiseplanet/noisecapture/services/storage/kstore/KStoreStorageService.kt:45-68 | a store with an empty index and no records is consistent |
| Storage.RemoveFirst | composeApp/src/commonMain/kotlin/org/noiseplanet/noisecapture/services/storage/kstore/KStoreStorageService.kt:134 | `minus` leaves a list without the element unchanged, and otherwise removes one element and adds none |
| Storage.RemoveFirstSpec | composeApp/src/commonMain/kotlin/org/noiseplanet/noisecapture/services/storage/kstore/KStoreStorageService.kt:130-135 | on an index without duplicates, `minus` removes exactly that id and keeps the index free of duplicates |
| Storage.FileNameInjective | composeApp/src/commonMain/kotlin/org/noiseplanet/noisecapture/services/storage/kstore/KStoreStorageService.kt:205-207 | within one prefix, different ids get different file names |
| Storage.SetReads | composeApp/src/commonMain/kotlin/org/noiseplanet/noisecapture/services/storage/kstore/KStoreStorageService.kt:119-128 | a record set reads back as set, and every other record is unchanged, whatever the index holds |
| Storage.SetSpec | composeApp/src/commonMain/kotlin/org/noiseplanet/noisecapture/services/storage/kstore/KStoreStorageService.kt:119-128 | `set` keeps the store consistent: the record reads back, the index gains the id only when it was not listed, and every other record is unchanged |
| Storage.DeleteSpec | composeApp/src/commonMain/kotlin/org/noiseplanet/noisecapture/services/storage/kstore/KStoreStorageService.kt:130-139 | `delete` keeps the store consistent: the record is gone, the index loses exactly that id if it was listed, and every other record is unchanged |
| Storage.DeleteUndoesSet | composeApp/src/commonMain/kotlin/org/noiseplanet/noisecapture/services/storage/kstore/KStoreStorageService.kt:119-139 | deleting a record just added gives back the store as it was |
| Storage.GetAllSpec | composeApp/src/commonMain/kotlin/org/noiseplanet/noisecapture/services/storage/kstore/KStoreStorageService.kt:58-64 | when every listed id has a record, `getAll` returns one record per id, in index order |
| Storage.GetAllConsistent | composeApp/src/commonMain/kotlin/org/noiseplanet/noisecapture/services/storage/kstore/KStoreStorageService.kt:58-64 | in a consistent store `getAll` returns every stored record exactly once, in index order |
| Storage.MigrateSpec | composeApp/src/commonMain/kotlin/org/noiseplanet/noisecapture/services/storage/kstore/KStoreStorageService.kt:75-87 | the base migration deletes the record, keeps the store consistent and returns nothing |
| Measurements.DeleteAllSpec | composeApp/src/commonMain/kotlin/org/noiseplanet/noisecapture/services/storage/MeasurementStorageService.kt:66-72 | deleting a list of ids one by one keeps the store consistent, removes each listed record and no other |
| Measurements.DeleteMeasurementSpec | composeApp/src/commonMain/kotlin/org/noiseplanet/noisecapture/services/storage/MeasurementStorageService.kt:62-76 | the cascading delete removes the measurement and every fragment it lists and keeps every other record; an unknown measurement changes nothing |
| Measurements.DeletedMeasurementHasNoSequence | composeApp/src/commonMain/kotlin/org/noiseplanet/noisecapture/services/storage/MeasurementStorageService.kt:62-76 | after the cascading delete no Leq or location fragment can be read back for the measurement |
| Measurements.MigrateSpec | composeApp/src/commonMain/kotlin/org/noiseplanet/noisecapture/services/storage/MeasurementStorageService.kt:32-55 | the corrected migration removes the measurement and every Leq and location fragment the stored data lists, and returns nothing |
| Measurements.MigrateAsWrittenOrphansLocations | composeApp/src/commonMain/kotlin/org/noiseplanet/noisecapture/services/storage/MeasurementStorageService.kt:45-48 | as written, the location fragment ids are deleted from the Leq store, so every location fragment of the dropped measurement stays stored with no measurement left to reach it |
| Measurements.MigrateAsWrittenKeepsFragment | composeApp/src/commonMain/kotlin/org/noiseplanet/noisecapture/services/storage/MeasurementStorageService.kt:45-48 | a measurement with one location fragment: the migration as written keeps the fragment, the corrected one removes it |
| Measurements.LeqSequenceForSpec | composeApp/src/commonMain/kotlin/org/noiseplanet/noisecapture/services/measurement/DefaultMeasurementService.kt:78-84 | when every listed fragment is stored, a measurement's Leq sequence holds one fragment per listed id, in list order |
| Measurements.RecordsOfSkips | composeApp/src/commonMain/kotlin/org/noiseplanet/noisecapture/services/measurement/DefaultMeasurementService.kt:78-92 | `mapNotNull` over the ids skips ids with no record and never invents a fragment |
| Statistics.Init | composeApp/src/commonMain/kotlin/org/noiseplanet/noisecapture/services/statistics/DefaultUserStatisticsService.kt:33-51 | a stored count equal to the number of listed measurements leaves the statistics as they are; otherwise the duration becomes the `Long`-wrapped sum of the durations `getAll` reads back; afterwards a consistent store's count is the number of listed measurements; other users' statistics are unchanged |
| Statistics.RemovedUndoesAdded | composeApp/src/commonMain/kotlin/org/noiseplanet/noisecapture/services/statistics/DefaultUserStatisticsService.kt:65-91 | removing a measurement undoes adding it, for every count and duration, `Int` and `Long` wrap-around included |
| Statistics.RemoveUndoesAdd | composeApp/src/commonMain/kotlin/org/noiseplanet/noisecapture/services/statistics/DefaultUserStatisticsService.kt:65-91 | adding then removing the same measurement reads back the statistics read before |
| Statistics.TotalDurationSpec | composeApp/src/commonMain/kotlin/org/noiseplanet/noisecapture/services/statistics/DefaultUserStatisticsService.kt:99-102 | the reduced durations are the exact sum wrapped into a `Long`, and the exact sum when it fits |
| Statistics.AddedAllIsRecalculated | composeApp/src/commonMain/kotlin/org/noiseplanet/noisecapture/services/statistics/DefaultUserStatisticsService.kt:65-112 | adding measurements one by one to the default statistics gives what `recalculate` computes from all of them at once |
| RootCoordinator.Distinct | composeApp/src/commonMain/kotlin/org/noiseplanet/noisecapture/ui/navigation/RootCoordinatorViewModel.kt:59-62 | the keys of `associateWith` hold exactly the route's permissions, each once |
| RootCoordinator.FirstEligible | composeApp/src/commonMain/kotlin/org/noiseplanet/noisecapture/ui/navigation/RootCoordinatorViewModel.kt:68-76 | `firstOrNull` finds nothing exactly when no permission qualifies, and otherwise the first that is not granted and is required or not yet prompted |
| RootCoordinator.PromptFor | composeApp/src/commonMain/kotlin/org/noiseplanet/noisecapture/ui/navigation/RootCoordinatorViewModel.kt:51-82 | without a current route there is no prompt; a prompt that differs from the one replayed before is a permission of the current route |
| RootCoordinator.FirstEligibleOfDistinct | composeApp/src/commonMain/kotlin/org/noiseplanet/noisecapture/ui/navigation/RootCoordinatorViewModel.kt:59-68 | dropping repeated permissions does not change which one is found first |
| RootCoordinator.PromptForSpec | composeApp/src/commonMain/kotlin/org/noiseplanet/noisecapture/ui/navigation/RootCoordinatorViewModel.kt:51-82 | a route without permissions emits nothing, so the previous prompt is kept; otherwise a prompt is shown exactly when some required or optional permission of the route is not granted and is required or not yet prompted; it is the first such one, required permissions before optional ones, marked required exactly when it is |
| RootCoordinator.RequiredFirst | composeApp/src/commonMain/kotlin/org/noiseplanet/noisecapture/ui/navigation/RootCoordinatorViewModel.kt:55-79 | while a required permission of the route is not granted, the prompt asks for a required permission |
| RootCoordinator.SkipNeverSuppressesRequired | composeApp/src/commonMain/kotlin/org/noiseplanet/noisecapture/ui/navigation/RootCoordinatorViewModel.kt:145-148 | skipping a permission the route requires leaves the prompt unchanged |
| RootCoordinator.SkipSuppressesOptional | composeApp/src/commonMain/kotlin/org/noiseplanet/noisecapture/ui/navigation/RootCoordinatorViewModel.kt:51-82 | skipping the optional permission being asked for moves the prompt past it; on a route without permissions the replayed prompt stays |
| RootCoordinator.PromptUndoesSkip | composeApp/src/commonMain/kotlin/org/noiseplanet/noisecapture/ui/navigation/RootCoordinatorViewModel.kt:145-159 | re-asking right after skipping a permission not prompted before restores the view model |
| RootCoordinator.PromptMakesEligible | composeApp/src/commonMain/kotlin/org/noiseplanet/noisecapture/ui/navigation/RootCoordinatorViewModel.kt:154-159 | after re-asking, a permission skipped at most once is no longer recorded as prompted and qualifies again exactly when it is not granted |
| RootCoordinator.TwoSkipsNeedTwoPrompts | composeApp/src/commonMain/kotlin/org/noiseplanet/noisecapture/ui/navigation/RootCoordinatorViewModel.kt:146-156 | `remove` forgets one record only: after two skips one re-ask still leaves the permission recorded as prompted |
| RootCoordinator.ToggleAudioSourceForScreen | composeApp/src/commonMain/kotlin/org/noiseplanet/noisecapture/ui/navigation/RootCoordinatorViewModel.kt:101-114 | while recording nothing is sent to the audio source; otherwise it is started exactly when the route uses it and stopped when it does not |
| RootCoordinator.SetCurrentRoute | composeApp/src/commonMain/kotlin/org/noiseplanet/noisecapture/ui/navigation/RootCoordinatorViewModel.kt:123-130 | the route becomes current and prompts are kept; the permission states are refreshed exactly when the route changes, and the audio source is touched only then and only when not recording |
| RootCoordinator.SetCurrentRouteIdempotent | composeApp/src/commonMain/kotlin/org/noiseplanet/noisecapture/ui/navigation/RootCoordinatorViewModel.kt:123-130 | setting the same route a second time does nothing |
| AudioSource.SetAudioSessionActiveAsWritten | composeApp/src/iosMain/kotlin/org/noiseplanet/noisecapture/audio/IOSAudioSource.kt:249-264 | as written, the session is activated whatever the argument; a platform error is an `IllegalStateException` |
| AudioSource.SetAudioSessionActive | composeApp/src/iosMain/kotlin/org/noiseplanet/noisecapture/audio/IOSAudioSource.kt:249-264 | corrected: the session ends up in the state asked for; a platform error is an `IllegalStateException` |
| AudioSource.Setup | composeApp/src/iosMain/kotlin/org/noiseplanet/noisecapture/audio/IOSAudioSource.kt:93-111 | only an uninitialised source is set up; a failure leaves it uninitialised and sends that state again; otherwise the session is active, an engine is held, interruptions are listened to and the source is ready |
| AudioSource.Start | composeApp/src/iosMain/kotlin/org/noiseplanet/noisecapture/audio/IOSAudioSource.kt:113-135 | a ready or paused source starts its engine and runs, or fails before changing state; other states are left alone |
| AudioSource.Pause | composeApp/src/iosMain/kotlin/org/noiseplanet/noisecapture/audio/IOSAudioSource.kt:137-155 | a running source stops its engine and is paused, sending `Paused`; other states are left alone |
| AudioSource.ReleaseAsWritten | composeApp/src/iosMain/kotlin/org/noiseplanet/noisecapture/audio/IOSAudioSource.kt:157-172 | as written, a successful release leaves the source uninitialised with its session still active |
| AudioSource.Release | composeApp/src/iosMain/kotlin/org/noiseplanet/noisecapture/audio/IOSAudioSource.kt:157-172 | corrected: an uninitialised source is left alone; otherwise it fails exactly when the session call fails, and on success the engine is stopped and dropped, the session deactivated, interruptions no longer listened to and `Uninitialized` sent |
| AudioSource.InterruptionRoundTrip | composeApp/src/iosMain/kotlin/org/noiseplanet/noisecapture/audio/IOSAudioSource.kt:272-301 | an interruption that begins and then ends asking to resume brings a running source back to exactly where it was, having sent `Paused` then `Running`; one that ends without asking leaves it paused |
| AudioSource.InterruptionFailsOnlyOnResume | composeApp/src/iosMain/kotlin/org/noiseplanet/noisecapture/audio/IOSAudioSource.kt:272-301 | handling an interruption fails exactly when it asks to resume a ready or paused source and starting the engine fails |
| AudioSource.NewSourceValid | composeApp/src/iosMain/kotlin/org/noiseplanet/noisecapture/audio/IOSAudioSource.kt:84-88 | a new source is valid: uninitialised, with nothing sent |
| AudioSource.OperationsKeepValid | composeApp/src/iosMain/kotlin/org/noiseplanet/noisecapture/audio/IOSAudioSource.kt:93-172 | every operation keeps the source valid: the last state sent is the current one, and the engine runs exactly while the source is running |
| AudioSource.Transitions | composeApp/src/iosMain/kotlin/org/noiseplanet/noisecapture/audio/IOSAudioSource.kt:93-172 | the state machine: set-up goes from uninitialised to ready, start from ready or paused to running, pause from running to paused, release to uninitialised |
| AudioSource.SentOnlyOnAssignment | composeApp/src/iosMain/kotlin/org/noiseplanet/noisecapture/audio/IOSAudioSource.kt:93-172 | an operation sends exactly the state it assigns and nothing else |
| AudioSource.ReleaseIdempotent | composeApp/src/iosMain/kotlin/org/noiseplanet/noisecapture/audio/IOSAudioSource.kt:157-172 | releasing twice is releasing once |
| AudioSource.StartUndoesPause | composeApp/src/iosMain/kotlin/org/noiseplanet/noisecapture/audio/IOSAudioSource.kt:113-155 | pausing and starting again brings a running source back to running |
| AudioSource.ReleaseAsWrittenLeavesSessionActive | composeApp/src/iosMain/kotlin/org/noiseplanet/noisecapture/audio/IOSAudioSource.kt:157-172 | as written, a successful release leaves the session active; the corrected release deactivates it |
| AudioSource.ReleaseAsWrittenOtherwiseAgrees | composeApp/src/iosMain/kotlin/org/noiseplanet/noisecapture/audio/IOSAudioSource.kt:157-172 | apart from the session flag, the release as written and the corrected one agree |
| Tiles.LastRowSpec | composeApp/src/commonMain/kotlin/org/noiseplanet/noisecapture/ui/components/map/RemoteTileStreamProvider.kt:48-54 | at zoom levels 0 to 30 the last row index is 2^z − 1 |
| Tiles.TrueRowInvolution | composeApp/src/commonMain/kotlin/org/noiseplanet/noisecapture/ui/components/map/RemoteTileStreamProvider.kt:48-54 | flipping the row twice gives it back, for every row and zoom level, `Int` wrap-around included |
| Tiles.TrueRowInRange | composeApp/src/commonMain/kotlin/org/noiseplanet/noisecapture/ui/components/map/RemoteTileStreamProvider.kt:48-54 | for servers that count rows from the bottom, a row of the grid maps to the row counted from the other end, also in the grid; otherwise the row is kept |
| Tiles.TileUrlInjective | composeApp/src/commonMain/kotlin/org/noiseplanet/noisecapture/ui/components/map/RemoteTileStreamProvider.kt:56 | on one server, different tiles have different addresses: zoom level, column and row can be read back from the address |
| Tiles.TileStreamFlipsRows | composeApp/src/commonMain/kotlin/org/noiseplanet/noisecapture/ui/components/map/RemoteTileStreamProvider.kt:44-67 | on a server counting rows from the bottom, fetching row r of the grid returns what a top-down server gives for row 2^z − 1 − r, whatever the servers answer |
| Tiles.TileStreamOwnAddress | composeApp/src/commonMain/kotlin/org/noiseplanet/noisecapture/ui/components/map/RemoteTileStreamProvider.kt:44-67 | what the server answers for one tile never changes what another tile of the same server fetches |

## Left out

- Floating-point behaviour: rounding, NaN, infinities and the difference between `Float` and
  `Double`. Every number is a real, and a division that would give an infinity or NaN is
  excluded by a precondition or returns a failure.
- Sine, cosine, `log10`, `pow`, `sqrt`, `exp`: parameters with the laws each proof needs. So the
  test vectors that depend on exact transcendental values are not reproduced. Examples are the
  Bluestein test vector of length 12 and the third-octave levels of a sine.
- The FFT butterflies are modelled with their arithmetic, but only structural, silent-signal,
  DC-bin and additivity facts are proved about them. That the transform equals the discrete Fourier
  sum, and that `realIFFT(realFFT(x))` recovers x, need the trigonometric identities, which are
  not modelled. The round trip is shown only on the two-sample case.
- The Web Mercator projection and the equirectangular distance (`GeoUtil`): parameters. The
  projection has the monotonicity its uses need.
- Coroutines, flows, jobs and channels: every service is a value that each operation returns
  anew. The state channel of the iOS audio source, which drops its oldest value, is modelled as
  the sequence of values sent.
- The fragment timer of the measurement service: the caller calls the fragment-end
  operation. Cancelling that timer job when the measurement closes is left out.
- File I/O, JSON encoding and the KStore backends: a store is a map of records plus its index
  list. Which records a migration produces is a parameter.
- The HTTP client of the tile provider and its response body: a parameter. Only the status
  check and the URL are modelled.
- The microphone sample channel, `processBuffer`, the audio engine's tap and
  `getMicrophoneLocation` of the iOS source: platform I/O.
- The platform permission lists and the permission states: parameters. The OS polling that
  refreshes them (`refreshPermissionStates`) is left out.
- The `PermissionState` and `AudioSourceState` enum files are not part of this model. Their
  values are taken from the way the core uses them.
- Compose drawing: canvases, legends, axis label layout, themes and screens. Only the
  formatters and the strip cache behind the measurement screen are modelled.
- `Measurement.laeqMetrics` and `Measurement.summary`: the measurement saved when recording
  ends does not set them, so the model leaves them out.
- The statistics record type is not part of this model. Its default is taken as zero
  measurements and zero duration, and its storage id is a parameter.
- `LeqSequenceFragment` has no `index` constructor parameter, although the measurement service
  passes one (`index = leqsSequenceIds.size`). The model gives Leq fragments an index, as the
  service expects.
- Closing the ongoing measurement keeps it in the service's state, as the code does.
- Kotlin bytes are signed. The model keeps their unsigned bit pattern, 0 to 255, which is what
  the BMP encoding and decoding rely on.
- ChirpZ.Make: requires a positive window length. For zero or negative lengths the
  constructor takes paths through empty and negative-size arrays that are not modelled. It also
  requires the trigonometric parameter to lie on the unit circle.
- Complex division by zero: the model returns `None` where IEEE arithmetic gives infinities or
  NaN.
- DigitalFilters.Filter: requires `denominator[0] != 0` when the denominator is not empty,
  because the source then divides by zero and yields infinities or NaN. DigitalFilters.FilterLeq
  has the same precondition.
- FrequencyBands.BandIndexByFrequency: the search carries a fuel bound. Without one it never
  ends for a frequency on a band edge, which FrequencyBands.OnEdgeNeverFound shows. Once
  the fuel is used up the result is `None`.
- FrequencyBands.GetBands: requires a non-zero band division, which the source would turn into
  an infinite exponent.
- SpectrogramProcessing.ReconstructOriginalSignal: when k + k·windowHop passes Int.MAX_VALUE
  but wraps to a size that is not negative, the contract says only that any failure is an index
  error. The loops still run as written with the wrapped size and wrapped positions. For
  example, four windows a hop of 2^30 apart get a sum of four samples, and the third window's
  start wraps to −2^31 (SpectrogramProcessing.OverlapSizeWraps).
- SpectrogramProcessing.ReconstructRoundTrip: the round trip through `reconstructOriginalSignal`
  itself is promised only while k + k·windowSize is an Int. Beyond that the source wraps too.
- SpectrogramProcessing.Push: requires a non-empty window when there are samples to push. With
  window size 0 the countdown starts at 0, so the source completes a window before copying any
  sample, and processing that window throws `IllegalArgumentException` (`realFFTFloat` of an
  empty array; SpectrogramProcessing.ProcessWindowFloat returns that failure). Push returns the
  windows, not their spectra, so it does not carry that failure. SpectrogramProcessing.PushSamples
  has the same precondition.
- Bitmaps.ToLong16: only ASCII hexadecimal digits are read. Kotlin's `toLong(16)` also accepts
  other Unicode decimal digits and full-width Latin letters, as in "#ＦＦ0000"; the colour
  literals the core parses use none of them.
- Measurements.Migrate: the stored JSON is reduced to its two id lists, with a missing key read
  as no list. An element of the wrong JSON type, on which `jsonObject` or `jsonArray` throws
  `IllegalArgumentException`, is not modelled.
- SpectrogramProcessing.ProcessWindowFloat: requires `vRef` to be non-zero for a non-empty
  window, so window sizes that are multiples of 65536, whose `Int` square wraps to 0, are
  excluded; the source divides by zero there and every level is infinite. A negative `vRef`
  (sizes 46341 to 65535) is kept; the source's `log10` of a negative ratio is NaN, and the
  model leaves that value to the `log10` parameter. Single precision is not modelled:
  `realFFTFloat` is RealFft and `BluesteinFloat` is the chirp-z transform on reals.
- AudioSource.Setup: on a failure the session and engine flags are modelled as unchanged. In
  the source, the session may already be active when the engine setup fails.
- AudioSource.Start: on a platform error no source is returned. AudioSource.Release works the
  same way, although the source has already stopped and dropped its engine at that point.

## Findings

| source | as written | input that shows it | evidently intended | confidence | as-written member | corrected member |
|---|---|---|---|---|---|---|
| composeApp/src/commonMain/kotlin/org/noiseplanet/noisecapture/audio/signal/bluestein/Bluestein.kt:26-29 | `Double.times(Complex)` computes (d·re − d·im, d·im + d·re), which multiplies by d·(1 + i) | 1.0 times 1 + 0i gives 1 + i | scaling: (d·re, d·im) | not executed | ComplexNumbers.RealTimesAsWrittenRotates, ComplexNumbers.RealTimesAsWrittenExample | ComplexNumbers.RealTimes |
| composeApp/src/commonMain/kotlin/org/noiseplanet/noisecapture/audio/signal/fft.kt:41 | `fft` checks `n <= riArray.size`, although it reads 2n doubles of interleaved pairs | `fft(2, DoubleArray(2))` passes the guard and then indexes past the array | the guard `2 * n <= riArray.size` | not executed | FourierTransform.FftGuardAdmitsShortArray | FourierTransform.FftCheckedAgrees |
| composeApp/src/commonMain/kotlin/org/noiseplanet/noisecapture/audio/signal/window/SpectrogramDataProcessing.kt:146-152 | each level of `processWindowFloat` squares only the imaginary part of its bin | the DC bin of a real FFT has imaginary part 0, so its level is 10·log10(0) for every signal | the squared magnitude, re² + im² | not executed | SpectrogramProcessing.DcLevelAsWritten, SpectrogramProcessing.ProcessWindowFloatEnds | SpectrogramProcessing.DcLevel |
| shared/src/commonMain/kotlin/org/noise_planet/noisecapture/shared/ui/SpectrogramBitmap.kt:104 | `createSpectrogram` allocates header size · 4 · width · height bytes, a product | width 0 gives an empty array, and writing the header then fails with an index out of bounds; 1 × 1 gives 552 bytes instead of 142 | header size + 4 · width · height | not executed | LegacySpectrograms.CreateAsWrittenMisSized | LegacySpectrograms.CreateSpec |
| shared/src/commonMain/kotlin/org/noise_planet/noisecapture/shared/ui/SpectrogramBitmap.kt:138 | the row shift copies from the start of the pixel area for every row, so later rows receive pixels of the first row | on the 2 × 2 image with pixels 1, 2 / 3, 4 the second row starts with 1 after the shift, where a left shift puts 4 | each row shifted left by one pixel within itself | not executed | LegacySpectrograms.ShiftAsWrittenCopiesFirstRow | LegacySpectrograms.ShiftFromSpec |
| composeApp/src/commonMain/kotlin/org/noiseplanet/noisecapture/ui/features/measurement/MeasurementScreen.kt:637-648 | `formatFrequency` prints the thousandths with trailing zeros trimmed but without their leading zeros | 1005 Hz and 1500 Hz both read "1.5 kHz" | the thousandths padded to three digits before trimming, "1.005 kHz" | not executed | MeasurementScreen.FormatFrequencyAsWrittenCollides | MeasurementScreen.FormatFrequencyInjective |
| composeApp/src/commonMain/kotlin/org/noiseplanet/noisecapture/model/dao/SequenceFragment.kt:70-71 | `duration` is start minus end | timestamps [1000, 4000] give −3000 | end minus start | not executed | Fragments.DurationAsWrittenNegative | Fragments.DurationSpec |
| composeApp/src/commonMain/kotlin/org/noiseplanet/noisecapture/model/dao/LeqSequenceFragment.kt:37 | `push` appends the record's `lzeq` to the `lceq` list | any record whose lceq differs from its lzeq | append `lceq` | not executed | Fragments.PushLeqAsWrittenLosesLceq | Fragments.PushLeqSpec |
| composeApp/src/commonMain/kotlin/org/noiseplanet/noisecapture/services/storage/MeasurementStorageService.kt:45-48 | the migration deletes the location fragment ids through the Leq fragment store | a measurement with one location fragment: that fragment stays stored | delete them through the location fragment store | not executed | Measurements.MigrateAsWrittenOrphansLocations | Measurements.MigrateSpec |
| composeApp/src/commonMain/kotlin/org/noiseplanet/noisecapture/ui/components/map/MapViewModel.kt:460-468 | the top edge of a path's box comes from the minimum latitude and the bottom from the maximum, so the box is inverted and is then squeezed to the minimum height | any path spanning more than `MIN_BBOX_SIZE` in projected latitude leaves points outside its box | top from the maximum latitude, bottom from the minimum | not executed | MapView.PathBoundingBoxAsWrittenCollapses | MapView.PathBoundingBoxSpec |
| composeApp/src/iosMain/kotlin/org/noiseplanet/noisecapture/audio/IOSAudioSource.kt:249-255 | `setAudioSessionActive` passes `active = true` whatever its argument | releasing a running source leaves the audio session active | pass the argument through | not executed | AudioSource.ReleaseAsWrittenLeavesSessionActive | AudioSource.Release |
| composeApp/src/commonMain/kotlin/org/noiseplanet/noisecapture/audio/signal/BluesteinFloat.kt:117-123 | for a real input, `BluesteinFloat.fft` reads the real part of sample i's chirp factor at `chirpOffset + index`, a double index, instead of `chirpOffset + 2·index` | three samples 0, 1, 0: sample 1 is multiplied by (sin 0, sin t) instead of (cos t, sin t), t = −1/6 turn | the chirp factor of pair n − 1 + i, as for complex input | not executed | ChirpZ.RealChirpAsWrittenExample, ChirpZ.RealChirpAsWrittenMisreads | ChirpZ.RealTransform, ChirpZ.RealPreChirpEmbeds |
