/** The short-time Fourier transform front end of SpectrogramDataProcessing.kt (and of its
    twin `WindowAnalysis` in the shared module): a circular buffer of `windowSize` samples
    that hands out one window every `windowHop` samples, oldest sample first, and the
    overlap-add that puts windows back together. */
module SpectrogramProcessing {
  import opened Wrappers
  import opened Numerics
  import opened Radix2
  import opened FourierTransform
  import ChirpZ

  /** A window handed to the spectrum analysis: its epoch in milliseconds and its samples. */
  datatype Window = Window(epoch: Int64, samples: seq<real>)

  /** The processor: its parameters, the Hann coefficients when the window is applied, the
      chirp-z transform for a window size that is not a power of two, the circular buffer
      with its cursor, and the number of samples still missing before the next window. */
  datatype Processor = Processor(
    sampleRate: Int32,
    windowSize: Int32,
    windowHop: Int32,
    hann: Option<seq<real>>,
    bluestein: Option<ChirpZ.Bluestein>,
    buffer: seq<real>,
    cursor: int,
    untilWindow: int)

  /** The sizes every operation relies on; the countdown may have reached zero. */
  predicate Shaped(p: Processor) {
    && p.windowSize >= 0 && p.windowHop > 0
    && |p.buffer| == p.windowSize
    && (p.hann.Some? ==> |p.hann.value| == p.windowSize)
    && (p.windowSize > 0 ==> 0 <= p.cursor < p.windowSize)
    && (p.windowSize == 0 ==> p.cursor == 0)
  }

  /** Between two calls: the cursor lies inside the buffer and, for a non-empty window, at
      least one sample is missing before the next window. */
  predicate Valid(p: Processor) {
    && Shaped(p)
    && (p.windowSize > 0 ==> p.untilWindow >= 1)
    && (p.windowSize == 0 ==> p.untilWindow == 0)
  }

  /** A processor as the constructor leaves it: an empty buffer of zeros and a full
      countdown. */
  predicate Fresh(p: Processor) {
    Valid(p) && p.windowSize > 0 && p.cursor == 0 && p.buffer == Silence(p.windowSize)
    && p.untilWindow == p.windowSize
  }

  /** Hann coefficient i of a window of n samples: 0.5·(1 − cos(2πi/(n − 1))). A window of one
      sample divides 0 by 0 in the source; the model uses the coefficient of turn 0 there. */
  function HannCoefficient(m: Transcendentals, n: int, i: int): real {
    if n > 1 then 0.5 * (1.0 - m.cosTurns((i as real) / ((n - 1) as real)))
    else 0.5 * (1.0 - m.cosTurns(0.0))
  }

  /** Whether the Bluestein transform replaces the radix-2 one for windows of n samples:
      `nextPowerOfTwo(n)` differs from n. */
  predicate NeedsChirp(n: Int32) {
    NextPowerOfTwo(n) != n
  }

  predicate UsesBluestein(p: Processor) {
    NeedsChirp(p.windowSize)
  }

  /** The chirp-z transform is present exactly for a window size that is not a power of two,
      and then it is built for that size. No operation changes it. */
  predicate ChirpReady(p: Processor) {
    && (p.bluestein.Some? <==> NeedsChirp(p.windowSize))
    && (p.bluestein.Some? ==> ChirpZ.Valid(p.bluestein.value) && p.bluestein.value.windowLength == p.windowSize)
  }

  /** The constructor, with the property initialisers in their order: the buffer allocation
      rejects a negative size, then the chirp-z transform is built for a size that is not a
      power of two (its arrays no longer fit an `Int` above 2^28 samples), and only then does
      `require` check the hop. */
  function Make(sampleRate: Int32, windowSize: Int32, windowHop: Int32, applyHannWindow: bool, m: Transcendentals): (r: Result<Processor>)
    requires UnitCircle(m)
    ensures windowSize < 0 ==> r == Failure(NegativeArraySize)
    ensures windowSize >= 0 && NeedsChirp(windowSize) && windowSize > 0x1000_0000 ==>
      r.Failure? && (r.error == NegativeArraySize || r.error == IndexOutOfBounds)
    ensures windowSize >= 0 && (!NeedsChirp(windowSize) || windowSize <= 0x1000_0000) && windowHop <= 0 ==>
      r == Failure(IllegalArgument)
    ensures r.Success? <==> windowSize >= 0 && (!NeedsChirp(windowSize) || windowSize <= 0x1000_0000) && windowHop > 0
    ensures r.Success? ==> (Valid(r.value) && ChirpReady(r.value) && r.value.cursor == 0
      && r.value.untilWindow == windowSize && r.value.buffer == Silence(windowSize)
      && r.value.sampleRate == sampleRate && r.value.windowSize == windowSize
      && r.value.windowHop == windowHop && (r.value.hann.Some? <==> applyHannWindow)
      && (r.value.bluestein.Some? ==> r.value.bluestein == Some(ChirpZ.Make(windowSize, m).value)))
  {
    if windowSize < 0 then Failure(NegativeArraySize)
    else
      var bluestein :- ChirpFor(windowSize, m);
      if windowHop <= 0 then Failure(IllegalArgument)
      else
        var hann := if applyHannWindow
          then Some(seq(windowSize, i => HannCoefficient(m, windowSize, i)))
          else None;
        Success(Processor(sampleRate, windowSize, windowHop, hann, bluestein, Silence(windowSize), 0, windowSize))
  }

  /** The `bluestein` initialiser: a chirp-z transform exactly for the sizes that need one,
      failing as its constructor does. */
  function ChirpFor(windowSize: Int32, m: Transcendentals): (r: Result<Option<ChirpZ.Bluestein>>)
    requires UnitCircle(m) && windowSize >= 0
    ensures r.Success? <==> !NeedsChirp(windowSize) || windowSize <= 0x1000_0000
    ensures r.Failure? ==> r.error == NegativeArraySize || r.error == IndexOutOfBounds
    ensures r.Success? ==> (r.value.Some? <==> NeedsChirp(windowSize))
    ensures r.Success? && r.value.Some? ==>
      ChirpZ.Valid(r.value.value) && r.value.value.windowLength == windowSize
      && r.value == Some(ChirpZ.Make(windowSize, m).value)
  {
    if NeedsChirp(windowSize) then
      NextPowerOfTwoSpec(windowSize);
      var b :- ChirpZ.Make(windowSize, m);
      Success(Some(b))
    else Success(None)
  }

  /** Bluestein is used exactly for sizes that are not powers of two, except at the two ends
      of the `Int` range: size 0, and `Int.MAX_VALUE`, which `nextPowerOfTwo` saturates to
      itself. */
  lemma UsesBluesteinIff(p: Processor)
    requires Valid(p)
    ensures 0 < p.windowSize < INT_MAX ==> (UsesBluestein(p) <==> !IsPowerOfTwo(p.windowSize))
    ensures p.windowSize == 0 || p.windowSize == INT_MAX ==> !UsesBluestein(p)
  {
    if 0 < p.windowSize < INT_MAX {
      NextPowerOfTwoFixedPoint(p.windowSize);
    }
    NextPowerOfTwoSpec(p.windowSize);
  }

  /** The buffer read oldest first: from the cursor to the end, then from the start. */
  function Rotated(buffer: seq<real>, cursor: int): (w: seq<real>)
    requires 0 <= cursor <= |buffer|
    ensures |w| == |buffer|
  {
    buffer[cursor..] + buffer[..cursor]
  }

  /** The samples multiplied by the Hann coefficients, when they are applied. */
  function Windowed(hann: Option<seq<real>>, w: seq<real>): (r: seq<real>)
    requires hann.Some? ==> |hann.value| == |w|
    ensures |r| == |w|
  {
    match hann
    case None => w
    case Some(h) => seq(|w|, i requires 0 <= i < |w| => w[i] * h[i])
  }

  /** The epoch of a window completed with `remaining` input samples still unread:
      `(epoch - (remaining / sampleRate) * 1000.0).toLong()`. A zero sample rate divides by
      zero in floating point, which gives −∞ (`Long.MIN_VALUE`) or NaN (0). */
  function WindowEpoch(epoch: Int64, remaining: nat, sampleRate: Int32): Int64 {
    if sampleRate == 0 then (if remaining == 0 then 0 else LONG_MIN)
    else SatInt64(Trunc(epoch as real - ((remaining as real) / (sampleRate as real)) * 1000.0))
  }

  /** The window a processor holds: its buffer rotated so that the oldest sample comes first. */
  function Emit(q: Processor, epoch: Int64, remaining: nat): Window
    requires Shaped(q)
  {
    Window(WindowEpoch(epoch, remaining, q.sampleRate), Windowed(q.hann, Rotated(q.buffer, q.cursor)))
  }

  /** Storing one sample: it goes under the cursor, the cursor wraps at the end of the
      buffer, and the countdown drops by one. */
  function Advance(p: Processor, s: real): (q: Processor)
    requires Shaped(p) && p.windowSize > 0
    ensures Shaped(q)
  {
    var c := if p.cursor + 1 == p.windowSize then 0 else p.cursor + 1;
    p.(buffer := p.buffer[p.cursor := s], cursor := c, untilWindow := p.untilWindow - 1)
  }

  /** One sample of `pushSamples`: when the countdown reaches zero the window is emitted and
      the countdown restarts at `windowHop`. */
  function Step(p: Processor, epoch: Int64, s: real, remaining: nat): (r: (Processor, Option<Window>))
    requires Valid(p) && p.windowSize > 0
    ensures Valid(r.0)
  {
    var q := Advance(p, s);
    if q.untilWindow == 0 then (q.(untilWindow := p.windowHop), Some(Emit(q, epoch, remaining)))
    else (q, None)
  }

  /** `pushSamples` from sample k on, one sample at a time: the final state and the windows
      emitted, in order. */
  function PushFrom(p: Processor, epoch: Int64, samples: seq<real>, k: nat): (r: (Processor, seq<Window>))
    requires Valid(p) && k <= |samples| && (p.windowSize > 0 || k == |samples|)
    ensures Valid(r.0)
    decreases |samples| - k
  {
    if k == |samples| then (p, [])
    else
      var (q, w) := Step(p, epoch, samples[k], |samples| - k - 1);
      var (fin, rest) := PushFrom(q, epoch, samples, k + 1);
      (fin, (if w.Some? then [w.value] else []) + rest)
  }

  /** The buffer with `run` written from position `at` on. */
  function Overwrite(buffer: seq<real>, at: nat, run: seq<real>): (r: seq<real>)
    requires at + |run| <= |buffer|
    ensures |r| == |buffer|
    ensures forall i :: 0 <= i < |r| ==> r[i] == if at <= i < at + |run| then run[i - at] else buffer[i]
  {
    buffer[..at] + run + buffer[at + |run|..]
  }

  /** A run of c samples copied into the buffer at once, without crossing its end. */
  function Fill(p: Processor, samples: seq<real>, k: nat, c: nat): (q: Processor)
    requires Shaped(p) && p.windowSize > 0 && k + c <= |samples| && p.cursor + c <= p.windowSize
    ensures Shaped(q)
  {
    var cur := p.cursor + c;
    p.(buffer := Overwrite(p.buffer, p.cursor, samples[k..k + c]),
       cursor := if cur == p.windowSize then 0 else cur,
       untilWindow := p.untilWindow - c)
  }

  /** Copying a run is copying its first sample, then the rest. */
  lemma FillStep(p: Processor, samples: seq<real>, k: nat, c: nat)
    requires Shaped(p) && p.windowSize > 0 && k + c <= |samples| && p.cursor + c <= p.windowSize
    requires c >= 1
    ensures Fill(p, samples, k, c) == Fill(Advance(p, samples[k]), samples, k + 1, c - 1)
  {
    var a := Advance(p, samples[k]);
    var x := Fill(p, samples, k, c).buffer;
    var y := Fill(a, samples, k + 1, c - 1).buffer;
    assert c > 1 ==> a.cursor == p.cursor + 1;
    assert forall i | 0 <= i < |x| :: x[i] == y[i];
    assert x == y;
  }

  /** One sample that does not end the countdown. */
  lemma QuietStep(p: Processor, epoch: Int64, samples: seq<real>, k: nat)
    requires Valid(p) && p.windowSize > 0 && k < |samples| && p.untilWindow >= 2
    ensures Valid(Advance(p, samples[k]))
    ensures PushFrom(p, epoch, samples, k) == PushFrom(Advance(p, samples[k]), epoch, samples, k + 1)
  {
    var r := PushFrom(Advance(p, samples[k]), epoch, samples, k + 1);
    assert [] + r.1 == r.1;
  }

  /** One sample that ends the countdown: the window is emitted and the countdown restarts. */
  lemma EmitStep(p: Processor, epoch: Int64, samples: seq<real>, k: nat)
    requires Valid(p) && p.windowSize > 0 && k < |samples| && p.untilWindow == 1
    ensures var a := Advance(p, samples[k]);
      var a' := a.(untilWindow := p.windowHop);
      Valid(a') &&
      PushFrom(p, epoch, samples, k).0 == PushFrom(a', epoch, samples, k + 1).0 &&
      PushFrom(p, epoch, samples, k).1 == [Emit(a, epoch, |samples| - (k + 1))] + PushFrom(a', epoch, samples, k + 1).1
  {
  }

  /** A run that stops before the end of the countdown emits nothing. */
  lemma {:induction false} FillQuiet(p: Processor, epoch: Int64, samples: seq<real>, k: nat, c: nat)
    requires Valid(p) && p.windowSize > 0 && k + c <= |samples|
    requires 1 <= c < p.untilWindow && p.cursor + c <= p.windowSize
    ensures Valid(Fill(p, samples, k, c))
    ensures PushFrom(p, epoch, samples, k) == PushFrom(Fill(p, samples, k, c), epoch, samples, k + c)
    decreases c
  {
    var a := Advance(p, samples[k]);
    FillStep(p, samples, k, c);
    QuietStep(p, epoch, samples, k);
    if c > 1 {
      FillQuiet(a, epoch, samples, k + 1, c - 1);
    } else {
      assert Fill(a, samples, k + 1, 0).buffer == a.buffer;
    }
  }

  /** A run that ends the countdown emits the buffer it leaves behind. */
  lemma {:induction false} FillEmit(p: Processor, epoch: Int64, samples: seq<real>, k: nat, c: nat)
    requires Valid(p) && p.windowSize > 0 && k + c <= |samples|
    requires c == p.untilWindow && p.cursor + c <= p.windowSize
    ensures var q := Fill(p, samples, k, c);
      var q' := q.(untilWindow := p.windowHop);
      Valid(q') &&
      PushFrom(p, epoch, samples, k).0 == PushFrom(q', epoch, samples, k + c).0 &&
      PushFrom(p, epoch, samples, k).1 == [Emit(q, epoch, |samples| - (k + c))] + PushFrom(q', epoch, samples, k + c).1
    decreases c
  {
    if c > 1 {
      var a := Advance(p, samples[k]);
      FillStep(p, samples, k, c);
      QuietStep(p, epoch, samples, k);
      assert a.windowHop == p.windowHop && a.untilWindow == c - 1;
      FillEmit(a, epoch, samples, k + 1, c - 1);
    } else {
      FillEmitOne(p, epoch, samples, k);
    }
  }

  /** A run of one sample that ends the countdown. */
  lemma FillEmitOne(p: Processor, epoch: Int64, samples: seq<real>, k: nat)
    requires Valid(p) && p.windowSize > 0 && k < |samples| && p.untilWindow == 1 && p.cursor + 1 <= p.windowSize
    ensures var q := Fill(p, samples, k, 1);
      var q' := q.(untilWindow := p.windowHop);
      Valid(q') &&
      PushFrom(p, epoch, samples, k).0 == PushFrom(q', epoch, samples, k + 1).0 &&
      PushFrom(p, epoch, samples, k).1 == [Emit(q, epoch, |samples| - (k + 1))] + PushFrom(q', epoch, samples, k + 1).1
  {
    var a := Advance(p, samples[k]);
    FillStep(p, samples, k, 1);
    assert Fill(a, samples, k + 1, 0).buffer == a.buffer;
    assert Fill(p, samples, k, 1) == a;
    EmitStep(p, epoch, samples, k);
  }

  /** `pushSamples`: the windows completed by the new samples, in order, and the new state.
      A processor with an empty window never consumes a sample: the source loops forever
      on a non-empty input, so the model asks for an empty one. */
  function Push(p: Processor, epoch: Int64, samples: seq<real>): (r: (Processor, seq<Window>))
    requires Valid(p) && (p.windowSize > 0 || |samples| == 0)
    ensures Valid(r.0)
  {
    PushFrom(p, epoch, samples, 0)
  }

  /** Having read k samples into q and emitted `windows`, the rest of the per-sample
      semantics from q yields what pushing all samples into p yields. */
  predicate Accounts(p: Processor, epoch: Int64, samples: seq<real>, q: Processor, windows: seq<Window>, k: nat)
    requires Valid(p) && (p.windowSize > 0 || |samples| == 0)
  {
    && Valid(q) && k <= |samples| && (q.windowSize > 0 || k == |samples|)
    && q.windowSize == p.windowSize && q.windowHop == p.windowHop
    && PushFrom(q, epoch, samples, k).0 == Push(p, epoch, samples).0
    && windows + PushFrom(q, epoch, samples, k).1 == Push(p, epoch, samples).1
  }

  /** What the inner loop keeps: while the countdown runs the state accounts for the input
      read so far; once it reaches zero, the state with the window emitted does. */
  predicate Pending(p: Processor, epoch: Int64, samples: seq<real>, q: Processor, windows: seq<Window>, k: nat)
    requires Valid(p) && (p.windowSize > 0 || |samples| == 0)
    requires Shaped(q) && k <= |samples|
  {
    if q.untilWindow > 0 then Accounts(p, epoch, samples, q, windows, k)
    else Accounts(p, epoch, samples, q.(untilWindow := q.windowHop), windows + [Emit(q, epoch, |samples| - k)], k)
  }

  /** Copying one run keeps the account. */
  lemma FillAccounts(p: Processor, epoch: Int64, samples: seq<real>, q: Processor, windows: seq<Window>, k: nat, c: nat)
    requires Valid(p) && (p.windowSize > 0 || |samples| == 0)
    requires Accounts(p, epoch, samples, q, windows, k) && q.windowSize > 0
    requires k + c <= |samples| && 1 <= c <= q.untilWindow && q.cursor + c <= q.windowSize
    ensures Pending(p, epoch, samples, Fill(q, samples, k, c), windows, k + c)
  {
    if c < q.untilWindow {
      FillQuiet(q, epoch, samples, k, c);
    } else {
      FillEmit(q, epoch, samples, k, c);
      var q' := Fill(q, samples, k, c).(untilWindow := q.windowHop);
      var rest := PushFrom(q', epoch, samples, k + c).1;
      assert windows + ([Emit(Fill(q, samples, k, c), epoch, |samples| - (k + c))] + rest)
          == (windows + [Emit(Fill(q, samples, k, c), epoch, |samples| - (k + c))]) + rest;
    }
  }

  /** The inner loop of `pushSamples`: runs bounded by the end of the circular buffer until
      `toFetch` samples are stored. */
  method FetchRuns(p: Processor, epoch: Int64, samples: seq<real>, q0: Processor, windows: seq<Window>, k0: nat, toFetch0: nat)
    returns (q: Processor, k: nat)
    requires Valid(p) && (p.windowSize > 0 || |samples| == 0)
    requires Accounts(p, epoch, samples, q0, windows, k0)
    requires 1 <= toFetch0 <= q0.untilWindow && k0 + toFetch0 <= |samples|
    ensures Shaped(q) && q.untilWindow >= 0 && k == k0 + toFetch0 && q.windowSize == p.windowSize && q.windowHop == p.windowHop
    ensures Pending(p, epoch, samples, q, windows, k)
  {
    q, k := q0, k0;
    var toFetch := toFetch0;
    while toFetch > 0
      invariant Shaped(q) && q.windowSize == p.windowSize && q.windowHop == p.windowHop
      invariant 0 <= toFetch && k + toFetch == k0 + toFetch0 && toFetch <= q.untilWindow && k <= |samples|
      invariant toFetch < toFetch0 ==> Pending(p, epoch, samples, q, windows, k)
      invariant toFetch == toFetch0 ==> q == q0 && k == k0
      invariant toFetch > 0 ==> Accounts(p, epoch, samples, q, windows, k)
      decreases toFetch
    {
      var copySize := Min(q.windowSize - q.cursor, toFetch);
      FillAccounts(p, epoch, samples, q, windows, k, copySize);
      q := Fill(q, samples, k, copySize);
      k := k + copySize;
      toFetch := toFetch - copySize;
    }
  }

  /** The loop of `pushSamples` as written: runs of samples bounded by the countdown and by
      the end of the circular buffer. It computes the per-sample semantics. */
  method PushSamples(p: Processor, epoch: Int64, samples: seq<real>) returns (q: Processor, windows: seq<Window>)
    requires Valid(p) && (p.windowSize > 0 || |samples| == 0)
    ensures (q, windows) == Push(p, epoch, samples)
  {
    q := p;
    windows := [];
    var processed: nat := 0;
    assert [] + PushFrom(p, epoch, samples, 0).1 == Push(p, epoch, samples).1;
    while processed < |samples|
      invariant Accounts(p, epoch, samples, q, windows, processed)
      decreases |samples| - processed
    {
      var toFetch := Min(|samples| - processed, q.untilWindow);
      q, processed := FetchRuns(p, epoch, samples, q, windows, processed, toFetch);
      assert Pending(p, epoch, samples, q, windows, processed);
      if q.untilWindow == 0 {
        windows := windows + [Emit(q, epoch, |samples| - processed)];
        q := q.(untilWindow := q.windowHop);
      }
    }
    assert windows + [] == windows;
  }

  /** Windows completed by `len` more samples when `until` are missing for the next one and
      later ones follow every `hop` samples. */
  function WindowCount(len: int, until: int, hop: int): nat
    requires hop > 0
  {
    if len < until || len < 0 then 0 else (len - until) / hop + 1
  }

  lemma CountStep(len: int, hop: int)
    requires hop > 0 && len >= 1
    ensures WindowCount(len, 1, hop) == 1 + WindowCount(len - 1, hop, hop)
  {
    if len - 1 >= hop {
      var a := len - 1 - hop;
      DivModUnique(a + hop, hop, a / hop + 1, a % hop);
    }
  }

  /** The number of windows pushing emits. */
  lemma {:induction false} PushFromCount(p: Processor, epoch: Int64, samples: seq<real>, k: nat)
    requires Valid(p) && p.windowSize > 0 && k <= |samples|
    ensures |PushFrom(p, epoch, samples, k).1| == WindowCount(|samples| - k, p.untilWindow, p.windowHop)
    decreases |samples| - k
  {
    if k < |samples| {
      var (q, w) := Step(p, epoch, samples[k], |samples| - k - 1);
      PushFromCount(q, epoch, samples, k + 1);
      if p.untilWindow == 1 {
        CountStep(|samples| - k, p.windowHop);
      }
    }
  }

  /** A fresh processor emits its first window once `windowSize` samples have arrived and one
      more every `windowHop` samples after that. */
  lemma FreshWindowCount(sampleRate: Int32, windowSize: Int32, windowHop: Int32, applyHannWindow: bool, m: Transcendentals, epoch: Int64, samples: seq<real>)
    requires UnitCircle(m) && 0 < windowSize <= 0x1000_0000 && windowHop > 0
    ensures var p := Make(sampleRate, windowSize, windowHop, applyHannWindow, m).value;
      |Push(p, epoch, samples).1| ==
        if |samples| < windowSize then 0 else (|samples| - windowSize) / windowHop + 1
  {
    var p := Make(sampleRate, windowSize, windowHop, applyHannWindow, m).value;
    PushFromCount(p, epoch, samples, 0);
  }

  /** Thirteen samples through windows of 5 with a hop of 2 give 5 windows. */
  lemma ThirteenSamplesFiveWindows(m: Transcendentals, samples: seq<real>)
    requires UnitCircle(m) && |samples| == 13
    ensures var p := Make(44100, 5, 2, true, m).value;
      |Push(p, 0, samples).1| == 5
  {
    FreshWindowCount(44100, 5, 2, true, m, 0, samples);
  }

  /** What sample i of the rotated buffer holds after k samples: the zero the buffer starts
      with while fewer than `windowSize` samples have arrived, then sample k − W + i. */
  function RecentAt(samples: seq<real>, k: nat, w: nat, i: nat): real
    requires k <= |samples| && i < w
  {
    if k + i < w then 0.0 else samples[k + i - w]
  }

  function Recent(samples: seq<real>, k: nat, w: nat): (r: seq<real>)
    requires k <= |samples|
    ensures |r| == w
  {
    seq(w, i requires 0 <= i < w => RecentAt(samples, k, w, i))
  }

  /** Samples still missing before the next window after k samples into a fresh processor. */
  function UntilAt(k: nat, w: nat, hop: nat): int
    requires hop > 0
  {
    if k < w then w - k else hop - (k - w) % hop
  }

  /** The state of a processor that started as `p0` and has read `samples[..k]`. */
  predicate Tracks(p: Processor, p0: Processor, samples: seq<real>, k: nat) {
    && Valid(p) && k <= |samples| && p.windowSize > 0
    && p.sampleRate == p0.sampleRate && p.windowSize == p0.windowSize
    && p.windowHop == p0.windowHop && p.hann == p0.hann
    && Rotated(p.buffer, p.cursor) == Recent(samples, k, p.windowSize)
    && p.untilWindow == UntilAt(k, p.windowSize, p.windowHop)
  }

  /** Storing a sample drops the oldest one from the rotated view and appends the new one. */
  lemma RotatedAdvance(p: Processor, s: real)
    requires Shaped(p) && p.windowSize > 0
    ensures Rotated(Advance(p, s).buffer, Advance(p, s).cursor) == Rotated(p.buffer, p.cursor)[1..] + [s]
  {
    var q := Advance(p, s);
    var x := Rotated(q.buffer, q.cursor);
    var y := Rotated(p.buffer, p.cursor)[1..] + [s];
    assert forall i | 0 <= i < |x| :: x[i] == y[i];
  }

  lemma RecentAdvance(samples: seq<real>, k: nat, w: nat)
    requires k < |samples| && w > 0
    ensures Recent(samples, k + 1, w) == Recent(samples, k, w)[1..] + [samples[k]]
  {
    var x := Recent(samples, k + 1, w);
    var y := Recent(samples, k, w)[1..] + [samples[k]];
    assert forall i | 0 <= i < w :: x[i] == y[i];
  }

  /** Once a window has filled, the rotated view is the last `w` samples read. */
  lemma RecentIsSlice(samples: seq<real>, k: nat, w: nat)
    requires w <= k <= |samples|
    ensures Recent(samples, k, w) == samples[k - w..k]
  {
  }

  /** The countdown arithmetic: it runs down by one per sample and restarts at `hop`. */
  lemma UntilStep(k: nat, w: nat, hop: nat)
    requires w > 0 && hop > 0
    ensures UntilAt(k, w, hop) >= 1
    ensures UntilAt(k, w, hop) > 1 ==> UntilAt(k + 1, w, hop) == UntilAt(k, w, hop) - 1
    ensures UntilAt(k, w, hop) == 1 ==> UntilAt(k + 1, w, hop) == hop
  {
    if k >= w {
      var q, r := (k - w) / hop, (k - w) % hop;
      if r + 1 < hop {
        DivModUnique(k + 1 - w, hop, q, r + 1);
      } else {
        DivModUnique(k + 1 - w, hop, q + 1, 0);
      }
    } else if k + 1 == w {
      DivModUnique(0, hop, 0, 0);
    }
  }

  /** The first sample of the next window to complete after k samples. */
  function NextStart(k: nat, w: nat, hop: nat): int
    requires hop > 0
  {
    k + UntilAt(k, w, hop) - w
  }

  /** One sample read by a tracked processor keeps it tracked. */
  lemma TracksStep(p: Processor, p0: Processor, epoch: Int64, samples: seq<real>, k: nat)
    requires Tracks(p, p0, samples, k) && k < |samples|
    ensures Tracks(Step(p, epoch, samples[k], |samples| - k - 1).0, p0, samples, k + 1)
  {
    RotatedAdvance(p, samples[k]);
    RecentAdvance(samples, k, p.windowSize);
    UntilStep(k, p.windowSize, p.windowHop);
  }

  /** The window of the stream starting at sample `start`: windowed, stamped with the epoch of
      the sample that completes it. */
  function WindowAt(p0: Processor, epoch: Int64, samples: seq<real>, start: nat): Window
    requires Shaped(p0) && start + p0.windowSize <= |samples|
  {
    Window(WindowEpoch(epoch, |samples| - (start + p0.windowSize), p0.sampleRate),
           Windowed(p0.hann, samples[start..start + p0.windowSize]))
  }

  /** `out` lists the windows starting at `start`, `start + hop`, and so on. */
  predicate WindowsFrom(out: seq<Window>, p0: Processor, epoch: Int64, samples: seq<real>, start: int)
    requires Shaped(p0)
    decreases |out|
  {
    |out| == 0 ||
    (start >= 0 && start + p0.windowSize <= |samples| && out[0] == WindowAt(p0, epoch, samples, start)
     && WindowsFrom(out[1..], p0, epoch, samples, start + p0.windowHop))
  }

  /** Element i of such a list starts at `start + i·hop`. */
  lemma {:induction false} WindowsFromAt(out: seq<Window>, p0: Processor, epoch: Int64, samples: seq<real>, start: int, i: nat)
    requires Shaped(p0) && WindowsFrom(out, p0, epoch, samples, start) && i < |out|
    ensures start + i * p0.windowHop >= 0 && start + i * p0.windowHop + p0.windowSize <= |samples|
    ensures out[i] == WindowAt(p0, epoch, samples, start + i * p0.windowHop)
    decreases i
  {
    if i > 0 {
      WindowsFromAt(out[1..], p0, epoch, samples, start + p0.windowHop, i - 1);
      assert start + p0.windowHop + (i - 1) * p0.windowHop == start + i * p0.windowHop;
    }
  }

  /** The sample that ends the countdown completes the window starting at `NextStart`. */
  lemma EmittedWindow(p: Processor, p0: Processor, epoch: Int64, samples: seq<real>, k: nat)
    requires Tracks(p, p0, samples, k) && Shaped(p0) && k < |samples| && p.untilWindow == 1
    ensures NextStart(k, p0.windowSize, p0.windowHop) == k + 1 - p0.windowSize >= 0
    ensures Step(p, epoch, samples[k], |samples| - k - 1).1 == Some(WindowAt(p0, epoch, samples, k + 1 - p0.windowSize))
  {
    var w := p.windowSize;
    UntilStep(k, w, p.windowHop);
    RotatedAdvance(p, samples[k]);
    RecentAdvance(samples, k, w);
    RecentIsSlice(samples, k + 1, w);
  }

  lemma {:induction false} TrackedWindows(p: Processor, p0: Processor, epoch: Int64, samples: seq<real>, k: nat)
    requires Tracks(p, p0, samples, k) && Shaped(p0)
    ensures WindowsFrom(PushFrom(p, epoch, samples, k).1, p0, epoch, samples, NextStart(k, p0.windowSize, p0.windowHop))
    decreases |samples| - k
  {
    if k < |samples| {
      var (q, e) := Step(p, epoch, samples[k], |samples| - k - 1);
      TracksStep(p, p0, epoch, samples, k);
      TrackedWindows(q, p0, epoch, samples, k + 1);
      UntilStep(k, p0.windowSize, p0.windowHop);
      var rest := PushFrom(q, epoch, samples, k + 1).1;
      if e.Some? {
        EmittedWindow(p, p0, epoch, samples, k);
        var out := [e.value] + rest;
        assert PushFrom(p, epoch, samples, k).1 == out;
        assert out[1..] == rest;
      } else {
        assert PushFrom(p, epoch, samples, k).1 == [] + rest;
        assert [] + rest == rest;
      }
    }
  }

  /** Window j emitted by a fresh processor holds samples j·hop up to j·hop + windowSize,
      oldest first, multiplied by the Hann window when it is applied. */
  lemma FreshWindows(p0: Processor, epoch: Int64, samples: seq<real>)
    requires Fresh(p0)
    ensures var out := Push(p0, epoch, samples).1;
      forall j :: 0 <= j < |out| ==>
        j * p0.windowHop + p0.windowSize <= |samples| && out[j] == WindowAt(p0, epoch, samples, j * p0.windowHop)
  {
    assert Rotated(p0.buffer, 0) == Recent(samples, 0, p0.windowSize);
    TrackedWindows(p0, p0, epoch, samples, 0);
    var out := Push(p0, epoch, samples).1;
    forall j | 0 <= j < |out|
      ensures j * p0.windowHop + p0.windowSize <= |samples| && out[j] == WindowAt(p0, epoch, samples, j * p0.windowHop)
    {
      WindowsFromAt(out, p0, epoch, samples, 0, j);
    }
  }

  /** `reconstructOriginalSignal` reads sample j of window i when j < windowSize and
      i·hop + j lies inside the sum; the read fails when the window is shorter. */
  predicate Fits(w: seq<real>, offset: int, size: int, count: int) {
    |w| >= count || offset + |w| >= size
  }

  /** The sum with `w` added from position `offset` on, `count` samples at most. */
  function Layer(sum: seq<real>, w: seq<real>, offset: nat, count: nat): (r: seq<real>)
    requires Fits(w, offset, |sum|, count)
    ensures |r| == |sum|
  {
    seq(|sum|, t requires 0 <= t < |sum| =>
      if offset <= t < offset + count then sum[t] + w[t - offset] else sum[t])
  }

  /** The first i windows laid out every `hop` samples and added together. */
  function Stack(windows: seq<Window>, w: nat, hop: nat, size: nat, i: nat): (r: seq<real>)
    requires i <= |windows|
    requires forall i' :: 0 <= i' < i ==> Fits(windows[i'].samples, i' * hop, size, w)
    ensures |r| == size
  {
    if i == 0 then Silence(size)
    else Layer(Stack(windows, w, hop, size, i - 1), windows[i - 1].samples, (i - 1) * hop, w)
  }

  /** Overlap-add of the windows into |windows|·(hop + 1) samples, in exact arithmetic; a
      window too short for a read the loop makes is an index error. */
  function OverlapAdd(windows: seq<Window>, w: nat, hop: nat): (r: Result<seq<real>>)
    ensures r.Failure? <==> exists i :: 0 <= i < |windows| && !Fits(windows[i].samples, i * hop, |windows| + |windows| * hop, w)
    ensures r.Failure? ==> r.error == IndexOutOfBounds
    ensures r.Success? ==> |r.value| == |windows| + |windows| * hop
  {
    var size := |windows| + |windows| * hop;
    if exists i :: 0 <= i < |windows| && !Fits(windows[i].samples, i * hop, size, w) then Failure(IndexOutOfBounds)
    else Success(Stack(windows, w, hop, size, |windows|))
  }

  /** Every size and write position `reconstructOriginalSignal` computes for k windows is an
      `Int`: the k + k·hop samples of the sum, and i·hop + j for every window i and j < w. */
  predicate IntExact(k: int, w: int, hop: int) {
    SizeFits(k, hop) && (k == 0 || (k - 1) * hop + w <= INT_MAX + 1)
  }

  /** The sum's size k + k·hop, for k windows, is an `Int`. */
  predicate SizeFits(k: int, hop: int) {
    k + k * hop <= INT_MAX
  }

  /** `processedWindows.size + processedWindows.size * windowHop`, an `Int` expression. */
  function OverlapSize(k: nat, hop: nat): (size: Int32)
    ensures SizeFits(k, hop) ==> size == k + k * hop
  {
    ExactSize(k, hop);
    Wrap32(k + Wrap32(k * hop))
  }

  /** The nested loops of `reconstructOriginalSignal`, as written: the size of the sum and the
      write positions are `Int` expressions and wrap. A negative size is a negative array
      size; where nothing wraps the result is the exact overlap-add; where only the write
      positions leave the `Int` range, the wrapped negative position fails the array read. */
  method ReconstructOriginalSignal(p: Processor, windows: seq<Window>) returns (r: Result<seq<real>>)
    requires Valid(p)
    ensures r.Failure? ==> r.error == NegativeArraySize || r.error == IndexOutOfBounds
    ensures r == Failure(NegativeArraySize) <==> OverlapSize(|windows|, p.windowHop) < 0
    ensures IntExact(|windows|, p.windowSize, p.windowHop) ==> r == OverlapAdd(windows, p.windowSize, p.windowHop)
    ensures SizeFits(|windows|, p.windowHop) && !IntExact(|windows|, p.windowSize, p.windowHop) ==>
      r == Failure(IndexOutOfBounds)
  {
    var k, w, hop := |windows|, p.windowSize as nat, p.windowHop as nat;
    var size := OverlapSize(k, hop);
    if size < 0 {
      return Failure(NegativeArraySize);
    }
    r := AddWindows(windows, w, hop, size);
  }

  /** Two windows a hop of 2^30 apart ask for a negative array; four wrap to a sum of four
      samples, too short for the third window, whose start i·hop wraps to −2^31. */
  lemma OverlapSizeWraps()
    ensures OverlapSize(2, 0x4000_0000) == -0x7FFF_FFFE
    ensures OverlapSize(4, 0x4000_0000) == 4 && Wrap32(2 * 0x4000_0000) == INT_MIN
    ensures !Within(Wrap32(2 * 0x4000_0000), 2)
  {
  }

  /** The outer loop of `reconstructOriginalSignal`: each window in turn is added into a sum
      of `size` zeros from its `Int` start i·hop on. */
  method AddWindows(windows: seq<Window>, w: nat, hop: nat, size: nat) returns (r: Result<seq<real>>)
    requires w <= INT_MAX
    ensures r.Failure? ==> r.error == IndexOutOfBounds
    ensures IntExact(|windows|, w, hop) && size == |windows| + |windows| * hop ==> r == OverlapAdd(windows, w, hop)
    ensures SizeFits(|windows|, hop) && !IntExact(|windows|, w, hop) ==> r.Failure?
  {
    var k := |windows|;
    var exact := IntExact(k, w, hop) && size == k + k * hop;
    var sum := Silence(size);
    var i := 0;
    while i < k
      invariant 0 <= i <= k && |sum| == size
      invariant 0 < i == k && w > 0 ==> Within(Wrap32((k - 1) * hop), w)
      invariant exact ==>
        (forall i' :: 0 <= i' < i ==> Fits(windows[i'].samples, i' * hop, size, w)) && sum == Stack(windows, w, hop, size, i)
    {
      if exact {
        ExactBase(k, w, hop, i);
      }
      var added := AddWindow(sum, windows[i].samples, Wrap32(i * hop), w);
      if added.Failure? {
        return Failure(IndexOutOfBounds);
      }
      sum := added.value;
      i := i + 1;
    }
    if k > 0 && SizeFits(k, hop) {
      LastBase(k, hop);
    }
    return Success(sum);
  }

  /** Where k + k·hop is an `Int`, so are k·hop and the sum's size. */
  lemma ExactSize(k: nat, hop: nat)
    ensures SizeFits(k, hop) ==> Wrap32(k + Wrap32(k * hop)) == k + k * hop
  {
  }

  /** Where every position is an `Int`, window i starts at the exact i·hop and its w
      positions stay inside the `Int` range. */
  lemma ExactBase(k: nat, w: nat, hop: nat, i: nat)
    requires IntExact(k, w, hop) && i < k
    ensures Wrap32(i * hop) == i * hop && Within(i * hop, w)
  {
    var start, last := i * hop, (k - 1) * hop;
    assert k * hop == last + hop;
    if i < k - 1 {
      MulStep(i, k - 1, hop);
    }
    assert 0 <= start <= last;
  }

  /** The start of the last window is exact when the size is. */
  lemma LastBase(k: nat, hop: nat)
    requires k > 0 && SizeFits(k, hop)
    ensures Wrap32((k - 1) * hop) == (k - 1) * hop && (k - 1) * hop + hop <= INT_MAX
  {
    MulStep(k - 1, k, hop);
  }

  /** Positions base … base + count − 1 are all `Int`s: `base + j` does not wrap. */
  predicate Within(base: int, count: int) {
    0 <= base && base + count <= INT_MAX + 1
  }

  /** The inner loop of `reconstructOriginalSignal`: sample j of the window is added at the
      `Int` position base + j for every j below `count` that lands inside the sum; reading
      past the end of the window, or at a position that wrapped negative, is an index error. */
  method AddWindow(sum: seq<real>, s: seq<real>, base: Int32, count: nat) returns (r: Result<seq<real>>)
    requires count <= INT_MAX
    ensures r.Failure? ==> r.error == IndexOutOfBounds
    ensures r.Success? ==> |r.value| == |sum|
    ensures Within(base, count) ==> (r.Failure? <==> !Fits(s, base, |sum|, count))
    ensures Within(base, count) && r.Success? ==> r.value == Layer(sum, s, base, count)
    ensures count > 0 && !Within(base, count) ==> r.Failure?
  {
    var acc := sum;
    var j := 0;
    while j < count
      invariant 0 <= j <= count && |acc| == |sum|
      invariant j > 0 ==> Within(base, j)
      invariant Within(base, j) ==> Fits(s, base, |sum|, j) && acc == Layer(sum, s, base, j)
    {
      if base + j == INT_MAX + 1 {
        WrapHigh(base + j);
      }
      var to := Wrap32(base + j);
      if to < |acc| {
        if to < 0 || j >= |s| {
          return Failure(IndexOutOfBounds);
        }
        LayerStep(sum, s, base, j);
        acc := acc[to := acc[to] + s[j]];
      } else {
        LayerStep(sum, s, base, j);
      }
      j := j + 1;
    }
    return Success(acc);
  }

  /** Adding one more sample of `w` to the layer: position offset + j changes, when it lies
      inside the sum, and nothing else does. */
  lemma LayerStep(sum: seq<real>, w: seq<real>, offset: nat, j: nat)
    requires Fits(w, offset, |sum|, j) && (offset + j < |sum| ==> j < |w|)
    ensures Fits(w, offset, |sum|, j + 1)
    ensures var l := Layer(sum, w, offset, j);
      Layer(sum, w, offset, j + 1) == if offset + j < |sum| then l[offset + j := l[offset + j] + w[j]] else l
  {
  }

  lemma MulStep(a: nat, b: nat, h: nat)
    requires a < b
    ensures a * h + h <= b * h
  {
    var d := b - a;
    assert b * h == a * h + d * h;
    MulAtLeast(d, h);
  }

  /** With t = q·hop + r and r < hop, t lies in the first `count` samples of block i exactly
      when q is i and r is below `count`. */
  lemma InBlock(t: nat, q: nat, r: nat, hop: nat, i: nat, count: nat)
    requires t == q * hop + r && r < hop && count <= hop
    ensures i * hop <= t < i * hop + count <==> q == i && r < count
  {
    if q < i {
      MulStep(q, i, hop);
    } else if q > i {
      MulStep(i, q, hop);
    }
  }

  /** Where windows do not overlap (hop ≥ windowSize), sample q·hop + r of the sum is sample r
      of window q, or zero in the gaps. */
  lemma {:induction false} StackDisjoint(windows: seq<Window>, w: nat, hop: nat, size: nat, i: nat, t: nat, q: nat, r: nat)
    requires hop >= w && i <= |windows| && t < size
    requires t == q * hop + r && r < hop
    requires forall i' :: 0 <= i' < |windows| ==> |windows[i'].samples| >= w
    ensures Stack(windows, w, hop, size, i)[t] ==
      if q < i && r < w then windows[q].samples[r] else 0.0
  {
    if i > 0 {
      StackDisjoint(windows, w, hop, size, i - 1, t, q, r);
      InBlock(t, q, r, hop, i - 1, w);
    }
  }

  /** Overlap-add of windows that tile the input without gaps, each as long as the hop. */
  lemma TiledStack(out: seq<Window>, samples: seq<real>, w: nat, t: nat, q: nat, rem: nat)
    requires w > 0 && |out| * w <= |samples| && t < |out| + |out| * w && t == q * w + rem && rem < w
    requires forall j :: 0 <= j < |out| ==> j * w + w <= |samples| && out[j].samples == samples[j * w..j * w + w]
    requires forall j :: 0 <= j < |out| ==> |out[j].samples| == w
    ensures Stack(out, w, w, |out| + |out| * w, |out|)[t] == (samples[..|out| * w] + Silence(|out|))[t]
  {
    var n := |out|;
    StackDisjoint(out, w, w, n + n * w, n, t, q, rem);
    if q < n {
      MulStep(q, n, w);
      TiledInside(out[q].samples, samples, n, w, t, q, rem);
    } else {
      TiledGap(samples, n, w, t, q, rem);
    }
  }

  lemma TileLengths(out: seq<Window>, samples: seq<real>, w: nat)
    requires forall j :: 0 <= j < |out| ==> j * w + w <= |samples| && out[j].samples == samples[j * w..j * w + w]
    ensures forall j :: 0 <= j < |out| ==> |out[j].samples| == w
  {
    forall j | 0 <= j < |out|
      ensures |out[j].samples| == w
    {
      assert out[j].samples == samples[j * w..j * w + w];
    }
  }

  lemma TiledInside(window: seq<real>, samples: seq<real>, n: nat, w: nat, t: nat, q: nat, rem: nat)
    requires n * w <= |samples| && t == q * w + rem && rem < w && q * w + w <= n * w
    requires window == samples[q * w..q * w + w]
    ensures (samples[..n * w] + Silence(n))[t] == window[rem]
  {
  }

  lemma TiledGap(samples: seq<real>, n: nat, w: nat, t: nat, q: nat, rem: nat)
    requires n * w <= |samples| && t < n + n * w && t == q * w + rem && rem < w && q >= n
    ensures (samples[..n * w] + Silence(n))[t] == 0.0
  {
    if q > n {
      MulStep(n, q, w);
    }
    assert n * w <= t;
  }

  lemma TiledFits(out: seq<Window>, samples: seq<real>, w: nat)
    requires forall j :: 0 <= j < |out| ==> j * w + w <= |samples| && out[j].samples == samples[j * w..j * w + w]
    ensures forall i :: 0 <= i < |out| ==> Fits(out[i].samples, i * w, |out| + |out| * w, w)
  {
    TileLengths(out, samples, w);
  }

  lemma TiledStackAll(out: seq<Window>, samples: seq<real>, w: nat)
    requires w > 0 && |out| * w <= |samples|
    requires forall j :: 0 <= j < |out| ==> j * w + w <= |samples| && out[j].samples == samples[j * w..j * w + w]
    requires forall j :: 0 <= j < |out| ==> |out[j].samples| == w
    ensures Stack(out, w, w, |out| + |out| * w, |out|) == samples[..|out| * w] + Silence(|out|)
  {
    var n := |out|;
    var st := Stack(out, w, w, n + n * w, n);
    var wanted := samples[..n * w] + Silence(n);
    assert |st| == |wanted|;
    forall t | 0 <= t < n + n * w
      ensures st[t] == wanted[t]
    {
      var q, rem := DivModParts(t, w);
      TiledStack(out, samples, w, t, q, rem);
    }
  }

  /** t split into whole blocks of w and a remainder. */
  lemma DivModParts(t: nat, w: nat) returns (q: nat, rem: nat)
    requires w > 0
    ensures t == q * w + rem && rem < w
  {
    q, rem := t / w, t % w;
  }

  /** Windows that tile the input overlap-add back to it, followed by one zero per window. */
  lemma TiledOverlapAdd(out: seq<Window>, samples: seq<real>, w: nat)
    requires w > 0 && |out| * w <= |samples|
    requires forall j :: 0 <= j < |out| ==> j * w + w <= |samples| && out[j].samples == samples[j * w..j * w + w]
    ensures OverlapAdd(out, w, w) == Success(samples[..|out| * w] + Silence(|out|))
  {
    TileLengths(out, samples, w);
    TiledFits(out, samples, w);
    TiledStackAll(out, samples, w);
  }

  /** With no Hann window and a hop equal to the window size, a fresh processor emits windows
      that tile the input. */
  lemma FreshTiles(p0: Processor, epoch: Int64, samples: seq<real>)
    requires Fresh(p0) && p0.hann == None && p0.windowHop == p0.windowSize
    ensures var out := Push(p0, epoch, samples).1;
      var w := p0.windowSize as nat;
      |out| * w <= |samples| &&
      forall j :: 0 <= j < |out| ==> j * w + w <= |samples| && out[j].samples == samples[j * w..j * w + w]
  {
    var w: nat := p0.windowSize as nat;
    var out := Push(p0, epoch, samples).1;
    var n := |out|;
    FreshWindows(p0, epoch, samples);
    if n > 0 {
      assert (n - 1) * w + w <= |samples|;
      assert n * w == (n - 1) * w + w;
    }
  }

  /** With no Hann window and a hop equal to the window size, overlap-add of the windows a
      fresh processor emits gives the input back, followed by one zero per window. */
  lemma ReconstructRoundTrip(p0: Processor, epoch: Int64, samples: seq<real>)
    requires Fresh(p0) && p0.hann == None && p0.windowHop == p0.windowSize
    ensures var out := Push(p0, epoch, samples).1;
      |out| * p0.windowSize <= |samples| &&
      OverlapAdd(out, p0.windowSize, p0.windowHop) == Success(samples[..|out| * p0.windowSize] + Silence(|out|))
    ensures var out := Push(p0, epoch, samples).1;
      |out| + |out| * p0.windowSize <= INT_MAX ==> IntExact(|out|, p0.windowSize, p0.windowHop)
  {
    var out := Push(p0, epoch, samples).1;
    FreshTiles(p0, epoch, samples);
    TiledOverlapAdd(out, samples, p0.windowSize as nat);
    if |out| > 0 {
      assert (|out| - 1) * p0.windowSize + p0.windowSize == |out| * p0.windowSize;
    }
  }

  /** `windowCorrectionFactor` for the Hann window (0.375) or none (1.0), and the reference
      `vRef = windowSize * windowSize / 2.0 · factor` the levels are relative to. The square
      is an `Int` product: it is exact up to a size of 46340, wraps to a negative value from
      46341 to 65535, and to zero at every multiple of 65536. */
  function VRef(p: Processor): (v: real)
    ensures 0 < p.windowSize <= 46340 ==> v > 0.0
    ensures 46340 < p.windowSize < 65536 ==> v < 0.0
    ensures p.windowSize % 65536 == 0 ==> v == 0.0
  {
    var factor := if p.hann.Some? then 0.375 else 1.0;
    SquareWraps(p.windowSize);
    ((Wrap32(p.windowSize * p.windowSize) as real) / 2.0) * factor
  }

  /** Where the `Int` square of a size is positive, negative or zero. */
  lemma SquareWraps(n: Int32)
    ensures 0 < n <= 46340 ==> 0 < Wrap32(n * n) == n * n
    ensures 46340 < n < 65536 ==> Wrap32(n * n) < 0
    ensures n % 65536 == 0 ==> Wrap32(n * n) == 0
  {
    if 0 < n <= 46340 {
      SquareBelow(n, 46340);
    } else if 46340 < n < 65536 {
      SquareBelow(n, 65535);
      SquareAbove(n, 46341);
      WrapHigh(n * n);
    }
    if n % 65536 == 0 {
      var k := n / 65536;
      assert n * n == (k * k) * 0x1_0000_0000;
      WrapMultiple(k * k);
    }
  }

  lemma SquareBelow(n: int, b: nat)
    requires 0 <= n <= b
    ensures n * n <= b * b
  {
    assert n * n <= b * n;
  }

  lemma SquareAbove(n: int, b: nat)
    requires b <= n
    ensures b * b <= n * n
  {
    assert b * b <= b * n;
  }

  lemma WrapHigh(x: int)
    requires 0x8000_0000 <= x < 0x1_0000_0000
    ensures Wrap32(x) == x - 0x1_0000_0000
  {
  }

  lemma WrapMultiple(j: int)
    ensures Wrap32(j * 0x1_0000_0000) == 0
  {
    assert (j * 0x1_0000_0000 - INT_MIN) % 0x1_0000_0000 == -INT_MIN;
  }

  /** A power in decibels relative to `vRef`: 10·log10(power / vRef). */
  function Level(power: real, vRef: real, m: Transcendentals): real
    requires vRef != 0.0
  {
    10.0 * m.log10(power / vRef)
  }

  /** Power of bin i of an interleaved spectrum as `processWindowFloat` computes it: the square
      of the imaginary part alone. */
  function BinPowerAsWritten(fr: seq<real>, i: nat): real
    requires 2 * i + 1 < |fr|
  {
    Square(fr[2 * i + 1])
  }

  /** The power of bin i: the squared modulus of the complex value. */
  function BinPower(fr: seq<real>, i: nat): real
    requires 2 * i + 1 < |fr|
  {
    Square(fr[2 * i]) + Square(fr[2 * i + 1])
  }

  /** `processWindowFloat` as written, given the spectrum of the window: one level in decibels
      per complex bin. */
  function LevelsAsWritten(p: Processor, fr: seq<real>, m: Transcendentals): (r: seq<real>)
    requires VRef(p) != 0.0
    ensures |r| == |fr| / 2
    ensures forall i :: 0 <= i < |r| ==> r[i] == Level(BinPowerAsWritten(fr, i), VRef(p), m)
  {
    seq(|fr| / 2, i requires 0 <= i < |fr| / 2 => Level(BinPowerAsWritten(fr, i), VRef(p), m))
  }

  /** The levels with the power of each bin taken from both parts. */
  function Levels(p: Processor, fr: seq<real>, m: Transcendentals): (r: seq<real>)
    requires VRef(p) != 0.0
    ensures |r| == |fr| / 2
    ensures forall i :: 0 <= i < |r| ==> r[i] == Level(BinPower(fr, i), VRef(p), m)
  {
    seq(|fr| / 2, i requires 0 <= i < |fr| / 2 => Level(BinPower(fr, i), VRef(p), m))
  }

  /** The two agree on a bin whose real part is zero; as written, changing the real part of a
      bin (to any a) never changes its level. */
  lemma LevelsAgreeOnImaginaryBins(p: Processor, fr: seq<real>, m: Transcendentals, i: nat, a: real)
    requires VRef(p) != 0.0 && i < |fr| / 2
    ensures fr[2 * i] == 0.0 ==> LevelsAsWritten(p, fr, m)[i] == Levels(p, fr, m)[i]
    ensures LevelsAsWritten(p, fr[2 * i := a], m)[i] == LevelsAsWritten(p, fr, m)[i]
  {
    assert BinPowerAsWritten(fr[2 * i := a], i) == BinPowerAsWritten(fr, i);
  }

  /** On the output of `realFFT` the imaginary part of the DC bin is always zero, so the DC
      level as written is log10(0) whatever the signal. */
  lemma DcLevelAsWritten(p: Processor, x: seq<real>, m: Transcendentals, fr: seq<real>)
    requires VRef(p) != 0.0 && |x| <= INT_MAX && RealFft(x, m) == Success(fr)
    ensures LevelsAsWritten(p, fr, m)[0] == Level(0.0, VRef(p), m)
  {
    assert BinPowerAsWritten(fr, 0) == 0.0;
  }

  /** The DC level of a spectrum whose DC bin is real. */
  lemma RealDcLevel(p: Processor, fr: seq<real>, m: Transcendentals, dc: real)
    requires VRef(p) != 0.0 && |fr| >= 2 && fr[0] == dc && fr[1] == 0.0
    ensures Levels(p, fr, m)[0] == Level(Square(dc), VRef(p), m)
  {
    assert BinPower(fr, 0) == Square(dc);
  }

  /** With the squared modulus, the DC level is that of the sum of the samples. */
  lemma DcLevel(p: Processor, x: seq<real>, m: Transcendentals, fr: seq<real>)
    requires VRef(p) != 0.0 && |x| <= INT_MAX && RealFft(x, m) == Success(fr)
    ensures Levels(p, fr, m)[0] == Level(Square(Sum(x)), VRef(p), m)
  {
    assert fr[0] == Sum(x) && fr[1] == 0.0 by {
      RealFftDcNyquist(x, m);
    }
    RealDcLevel(p, fr, m, Sum(x));
  }

  /** The spectrum `processWindowFloat` takes the levels of: `bluestein?.fft(samples)` when
      the processor holds a chirp-z transform, `realFFTFloat(samples)` otherwise (the same
      algorithm as `realFFT`, in single precision). */
  function Spectrum(p: Processor, x: seq<real>, m: Transcendentals): (r: Result<seq<real>>)
    requires ChirpReady(p) && p.windowSize >= 0 && |x| == p.windowSize
    ensures p.bluestein.Some? ==> r == ChirpZ.FloatTransform(p.bluestein.value, x, m)
    ensures p.bluestein.None? ==> r == RealFft(x, m)
  {
    match p.bluestein
    case Some(b) => ChirpZ.FloatTransform(b, x, m)
    case None => RealFft(x, m)
  }

  /** `processWindowFloat` as written: a window whose size is not the window size is
      rejected; otherwise one level per complex bin of the spectrum, taken from the square of
      the bin's imaginary part alone. The radix-2 path fails for sizes that are not powers of
      two other than the chirp-z ones, i.e. for 0 and 1; the chirp-z path returns n real
      values, so its levels are read from the real parts of its odd bins. */
  function ProcessWindowFloat(p: Processor, window: Window, m: Transcendentals): (r: Result<seq<real>>)
    requires ChirpReady(p) && p.windowSize >= 0 && (VRef(p) == 0.0 ==> p.windowSize == 0)
    ensures |window.samples| != p.windowSize ==> r == Failure(IllegalArgument)
    ensures r.Failure? ==> r.error == IllegalArgument
    ensures p.bluestein.Some? ==> (r.Success? <==> |window.samples| == p.windowSize)
    ensures p.bluestein.None? ==>
      (r.Success? <==> |window.samples| == p.windowSize && IsPowerOfTwo(p.windowSize) && p.windowSize != 1)
    ensures r.Success? && p.bluestein.None? ==> |r.value| == p.windowSize / 2 + 1
    ensures r.Success? && p.bluestein.Some? ==> |r.value| == p.windowSize / 2
  {
    if |window.samples| != p.windowSize then Failure(IllegalArgument)
    else
      var fr :- Spectrum(p, window.samples, m);
      assert p.windowSize != 0;
      Success(LevelsAsWritten(p, fr, m))
  }

  /** On the radix-2 path the first and the last level, those of the DC and Nyquist bins,
      are log10(0) whatever the samples: `realFFT` leaves the imaginary parts of both bins
      zero. With the squared modulus the first would be the level of the squared sum. */
  lemma ProcessWindowFloatEnds(p: Processor, window: Window, m: Transcendentals)
    requires ChirpReady(p) && p.windowSize >= 0 && (VRef(p) == 0.0 ==> p.windowSize == 0)
    requires p.bluestein.None? && ProcessWindowFloat(p, window, m).Success?
    ensures var r := ProcessWindowFloat(p, window, m).value;
      && r[0] == Level(0.0, VRef(p), m)
      && r[|r| - 1] == Level(0.0, VRef(p), m)
      && Levels(p, RealFft(window.samples, m).value, m)[0] == Level(Square(Sum(window.samples)), VRef(p), m)
  {
    var x := window.samples;
    var fr := RadixSpectrum(p, window, m);
    var r := ProcessWindowFloat(p, window, m).value;
    DcLevelAsWritten(p, x, m, fr);
    NyquistLevelAsWritten(p, x, m, fr);
    assert |r| - 1 == |x| / 2;
    DcLevel(p, x, m, fr);
  }

  /** On the radix-2 path the levels are those of `realFFT` of the samples. */
  lemma RadixSpectrum(p: Processor, window: Window, m: Transcendentals) returns (fr: seq<real>)
    requires ChirpReady(p) && p.windowSize >= 0 && (VRef(p) == 0.0 ==> p.windowSize == 0)
    requires p.bluestein.None? && ProcessWindowFloat(p, window, m).Success?
    ensures VRef(p) != 0.0 && |window.samples| <= INT_MAX && RealFft(window.samples, m) == Success(fr)
    ensures ProcessWindowFloat(p, window, m).value == LevelsAsWritten(p, fr, m)
  {
    fr := RealFft(window.samples, m).value;
    assert Spectrum(p, window.samples, m) == Success(fr);
  }

  /** Likewise the imaginary part of the Nyquist bin of `realFFT` is zero, so its level as
      written is log10(0). */
  lemma NyquistLevelAsWritten(p: Processor, x: seq<real>, m: Transcendentals, fr: seq<real>)
    requires VRef(p) != 0.0 && |x| <= INT_MAX && RealFft(x, m) == Success(fr)
    ensures |LevelsAsWritten(p, fr, m)| == |x| / 2 + 1
    ensures LevelsAsWritten(p, fr, m)[|x| / 2] == Level(0.0, VRef(p), m)
  {
    EvenPowerOfTwo(|x|);
    var k := |x| / 2;
    assert |fr| / 2 - 1 == k && 2 * k + 1 == |x| + 1;
    assert BinPowerAsWritten(fr, k) == 0.0;
  }

  lemma EvenPowerOfTwo(n: Int32)
    requires IsPowerOfTwo(n) && n != 1
    ensures n % 2 == 0
  {
    IsPowerOfTwoIsPow2(n);
  }

  /** On the chirp-z path, level i is that of the real part of bin 2i + 1 of the real-input
      transform as written. */
  lemma ProcessWindowFloatChirp(p: Processor, window: Window, m: Transcendentals, i: nat)
    requires ChirpReady(p) && p.windowSize >= 0 && (VRef(p) == 0.0 ==> p.windowSize == 0)
    requires p.bluestein.Some? && ProcessWindowFloat(p, window, m).Success?
    requires i < |ProcessWindowFloat(p, window, m).value|
    ensures var b := p.bluestein.value;
      var y := ChirpZ.Convolved(b, ChirpZ.RealPreChirpAsWritten(b, window.samples), m);
      ProcessWindowFloat(p, window, m).value[i] == Level(Square(y[2 * i + 1].re), VRef(p), m)
  {
  }

  /** The zero-phase input buffer of `processWindowDouble`, filled by the two loops as
      written: the second half of the window first, the first half at the end of the buffer,
      zeros between. */
  method ZeroPhaseFill(window: seq<real>, fftSize: nat) returns (buf: seq<real>)
    requires |window| <= fftSize
    ensures buf == Rotated(window + Silence(fftSize - |window|), |window| / 2)
  {
    var w := |window|;
    var start := w / 2;
    buf := Silence(fftSize);
    var i := start;
    while i < w
      invariant start <= i <= w && |buf| == fftSize
      invariant forall t :: 0 <= t < fftSize ==> buf[t] == if t < i - start then window[start + t] else 0.0
    {
      buf := buf[i - start := window[i]];
      i := i + 1;
    }
    var offset := fftSize - start;
    i := 0;
    while i < start
      invariant 0 <= i <= start && |buf| == fftSize
      invariant forall t :: 0 <= t < fftSize ==> (buf[t] ==
        if t < w - start then window[start + t]
        else if offset <= t < offset + i then window[t - offset]
        else 0.0)
    {
      buf := buf[i + offset := window[i]];
      i := i + 1;
    }
    var wanted := Rotated(window + Silence(fftSize - w), start);
    assert forall t | 0 <= t < fftSize :: buf[t] == wanted[t];
  }

  /** `processWindowDouble`: the zero-phase buffer of the next power of two at least the
      window size, through `realFFT`. A window shorter than the window size fails on its
      first missing sample. */
  method ProcessWindowDouble(p: Processor, window: Window, m: Transcendentals) returns (r: Result<seq<real>>)
    requires Valid(p) && p.windowSize <= 0x4000_0000
    ensures |window.samples| < p.windowSize ==> r == Failure(IndexOutOfBounds)
    ensures |window.samples| >= p.windowSize ==>
      var w := window.samples[..p.windowSize];
      r == RealFft(Rotated(w + Silence(NextPowerOfTwo(p.windowSize) - |w|), |w| / 2), m)
  {
    if |window.samples| < p.windowSize {
      return Failure(IndexOutOfBounds);
    }
    var fftSize := NextPowerOfTwo(p.windowSize);
    FftSizeFits(p.windowSize);
    var buf := ZeroPhaseFill(window.samples[..p.windowSize], fftSize);
    r := RealFft(buf, m);
  }

  /** The buffer of `processWindowDouble` holds the whole window. */
  lemma FftSizeFits(n: Int32)
    requires 0 <= n <= 0x4000_0000
    ensures n <= NextPowerOfTwo(n)
  {
    NextPowerOfTwoSpec(n);
  }
}
