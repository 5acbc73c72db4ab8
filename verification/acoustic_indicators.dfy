/** AcousticIndicatorsProcessing.kt: incoming audio is cut into consecutive windows of 125 ms,
    and each complete window yields one record of sound levels. A window may span several
    calls; the samples of an unfinished window wait in a buffer for the next call. */
module AcousticIndicators {
  import opened Wrappers
  import opened Numerics
  import opened Radix2

  /** `WINDOW_TIME`, in seconds. */
  const WindowTime: real := 0.125

  /** `ANDROID_GAIN` = −(−22.35 − 90) = 112.35 dB: the level a full-scale sample stands for,
      following the audio input sensitivity of the Android 12 compatibility definition. */
  const AndroidGain: real := -(-22.35 - 90.0)

  /** The filter-bank configuration the spectrum channel loads: the 48 kHz one, or the 44.1 kHz
      one for any other rate. */
  datatype ChannelConfig = Config48000 | Config44100

  /** `SpectrumChannel`: its A-weighted level, third-octave levels and nominal frequencies
      are computed by code that is not part of this model, so they are supplied as functions of
      the window. */
  datatype SpectrumChannel = SpectrumChannel(
    weightA: seq<real> -> real,
    thirdOctave: seq<real> -> seq<real>,
    nominalFrequencies: seq<real>)

  /** `AudioSamples`: a chunk of samples and the epoch it was captured at. */
  datatype AudioSamples = AudioSamples(epoch: Int64, samples: seq<real>)

  /** `AcousticIndicatorsData`. */
  datatype AcousticIndicatorsData = AcousticIndicatorsData(
    epoch: Int64,
    leq: real,
    laeq: real,
    rms: real,
    thirdOctave: seq<real>,
    nominalFrequencies: seq<real>)

  /** The processor state: its settings, the window buffer and how much of it is filled. */
  datatype Accumulator = Accumulator(
    sampleRate: Int32,
    dbGain: real,
    config: ChannelConfig,
    windowLength: nat,
    windowData: seq<real>,
    cursor: nat)

  /** The buffer has the window's length and the cursor stays before its end. */
  predicate Valid(a: Accumulator) {
    && |a.windowData| == a.windowLength
    && (a.windowLength > 0 ==> a.cursor < a.windowLength)
    && (a.windowLength == 0 ==> a.cursor == 0)
  }

  /** The constructor: the window holds ⌊sampleRate · 0.125⌋ samples (truncated toward zero,
      as `toInt` does), and a negative length fails the buffer allocation. */
  function Make(sampleRate: Int32, dbGain: real): (r: Result<Accumulator>)
    ensures r.Success? <==> sampleRate > -8
    ensures r.Failure? ==> r.error == NegativeArraySize
    ensures r.Success? ==> Valid(r.value) && r.value.cursor == 0 && r.value.dbGain == dbGain
    ensures r.Success? ==> r.value.windowLength == if sampleRate >= 0 then sampleRate / 8 else 0
    ensures r.Success? ==> (r.value.config == Config48000 <==> sampleRate == 48000)
  {
    var windowLength := SatInt32(Trunc(sampleRate as real * WindowTime));
    if windowLength < 0 then Failure(NegativeArraySize)
    else
      var config := if sampleRate == 48000 then Config48000 else Config44100;
      Success(Accumulator(sampleRate, dbGain, config, windowLength, seq(windowLength, _ => 0.0), 0))
  }

  /** 44.1 kHz audio gives windows of 5512 samples, 48 kHz audio windows of 6000. */
  lemma CommonWindowLengths()
    ensures Make(44100, AndroidGain).value.windowLength == 5512
    ensures Make(48000, AndroidGain).value.windowLength == 6000
  {
  }

  // ---------------------------------------------------------------------------------------
  // The stream of samples cut into windows

  /** The samples a call works through: those already buffered, then the new ones. */
  function Pending(a: Accumulator, samples: seq<real>): seq<real>
    requires Valid(a)
  {
    a.windowData[..a.cursor] + samples
  }

  /** The complete windows of w samples at the front of p, in order. */
  function Chunks(p: seq<real>, w: nat): (r: seq<seq<real>>)
    requires w > 0
    ensures forall j :: 0 <= j < |r| ==> |r[j]| == w
    decreases |p|
  {
    if |p| < w then [] else [p[..w]] + Chunks(p[w..], w)
  }

  /** What is left of p after its complete windows. */
  function Rest(p: seq<real>, w: nat): seq<real>
    requires w > 0
    decreases |p|
  {
    if |p| < w then p else Rest(p[w..], w)
  }

  /** p is its windows followed by a remainder shorter than a window; so there are |p| div w
      windows and |p| mod w samples left over. */
  lemma {:induction false} ChunksShape(p: seq<real>, w: nat)
    requires w > 0
    ensures |Chunks(p, w)| * w + |Rest(p, w)| == |p| && |Rest(p, w)| < w
    ensures Rest(p, w) == p[|p| - |Rest(p, w)|..]
    ensures |Chunks(p, w)| == |p| / w && |Rest(p, w)| == |p| % w
    decreases |p|
  {
    if |p| >= w {
      ChunksShape(p[w..], w);
      assert |Chunks(p, w)| * w == (|Chunks(p[w..], w)| + 1) * w == |Chunks(p[w..], w)| * w + w;
    }
    DivModUnique(|p|, w, |Chunks(p, w)|, |Rest(p, w)|);
  }

  /** Window j is the run of w samples starting at sample j·w. */
  lemma {:induction false} ChunkAt(p: seq<real>, w: nat, j: nat)
    requires w > 0 && j < |Chunks(p, w)|
    ensures j * w + w <= |p| && Chunks(p, w)[j] == p[j * w..j * w + w]
    decreases j
  {
    if j > 0 {
      ChunkAt(p[w..], w, j - 1);
      assert j * w == (j - 1) * w + w;
    }
  }

  /** Cutting a stream whose front is whole windows: the front's windows, then the rest's. */
  lemma {:induction false} ChunksAppend(p: seq<real>, q: seq<real>, w: nat)
    requires w > 0 && Rest(p, w) == []
    ensures Chunks(p + q, w) == Chunks(p, w) + Chunks(q, w)
    ensures Rest(p + q, w) == Rest(q, w)
    decreases |p|
  {
    if |p| >= w {
      assert (p + q)[..w] == p[..w];
      assert (p + q)[w..] == p[w..] + q;
      ChunksAppend(p[w..], q, w);
    } else {
      assert p == [];
      assert p + q == q;
    }
  }

  /** The front of p up to its remainder is whole windows, the same windows as p's. */
  lemma {:induction false} WholePrefix(p: seq<real>, w: nat)
    requires w > 0
    ensures |Rest(p, w)| <= |p|
    ensures var base := |p| - |Rest(p, w)|;
            && p == p[..base] + Rest(p, w)
            && Rest(p[..base], w) == []
            && Chunks(p[..base], w) == Chunks(p, w)
    decreases |p|
  {
    if |p| >= w {
      WholePrefix(p[w..], w);
      assert p == p[..w] + p[w..];
      WholePrefixStep(p[..w], p[w..], w);
    } else {
      assert p[..0] == [];
    }
  }

  /** The step of `WholePrefix`: one window a in front of a stream q whose whole windows are
      known. */
  lemma WholePrefixStep(a: seq<real>, q: seq<real>, w: nat)
    requires 0 < w == |a| && |Rest(q, w)| <= |q|
    requires var mid := q[..|q| - |Rest(q, w)|];
      && q == mid + Rest(q, w)
      && Rest(mid, w) == []
      && Chunks(mid, w) == Chunks(q, w)
    ensures |Rest(a + q, w)| <= |a + q|
    ensures var p := a + q;
            var base := |p| - |Rest(p, w)|;
            && p == p[..base] + Rest(p, w)
            && Rest(p[..base], w) == []
            && Chunks(p[..base], w) == Chunks(p, w)
  {
    var p := a + q;
    var rest := Rest(q, w);
    var mid := q[..|q| - |rest|];
    assert p[..w] == a && p[w..] == q;
    assert Rest(p, w) == rest;
    assert Chunks(p, w) == [a] + Chunks(q, w);
    var front := a + mid;
    assert p[..|p| - |rest|] == front;
    assert front[..w] == a && front[w..] == mid;
    assert Rest(front, w) == Rest(mid, w);
    assert Chunks(front, w) == [a] + Chunks(mid, w);
  }

  /** A stream shorter than a window has no window and is all remainder. */
  lemma ShortStream(p: seq<real>, w: nat)
    requires w > 0 && |p| < w
    ensures Chunks(p, w) == [] && Rest(p, w) == p
  {
  }

  // ---------------------------------------------------------------------------------------
  // One record

  /** The record of a complete window: rms = sqrt(Σx² / n), leq = dbGain + 20·log10(rms),
      laeq = dbGain + the A-weighted level, and every third-octave level shifted by
      10·log10(10^(dbGain/10) / bands). The record carries the epoch of the call. */
  function Indicators(a: Accumulator, ch: SpectrumChannel, m: Transcendentals, epoch: Int64, window: seq<real>)
    : (r: AcousticIndicatorsData)
    requires |window| > 0
    ensures r.epoch == epoch && r.nominalFrequencies == ch.nominalFrequencies
    ensures r.rms == m.sqrt(MeanSquare(window))
    ensures r.leq - a.dbGain == 20.0 * m.log10(r.rms)
    ensures r.laeq - a.dbGain == ch.weightA(window)
    ensures |r.thirdOctave| == |ch.thirdOctave(window)|
    ensures var bands := ch.thirdOctave(window);
      forall i :: 0 <= i < |bands| ==>
        r.thirdOctave[i] == bands[i] + 10.0 * m.log10(Exp10(m, a.dbGain / 10.0) / |bands| as real)
  {
    var rms := m.sqrt(SumOfSquares(window) / |window| as real);
    var leq := a.dbGain + 20.0 * m.log10(rms);
    var laeq := a.dbGain + ch.weightA(window);
    var thirdOctave := ch.thirdOctave(window);
    var thirdOctaveGain :=
      if |thirdOctave| == 0 then 0.0 else 10.0 * m.log10(Exp10(m, a.dbGain / 10.0) / |thirdOctave| as real);
    AcousticIndicatorsData(epoch, leq, laeq, rms, Shift(thirdOctave, thirdOctaveGain), ch.nominalFrequencies)
  }

  /** Every level raised by the same gain. */
  function Shift(levels: seq<real>, gain: real): (r: seq<real>)
    ensures |r| == |levels| && forall i :: 0 <= i < |r| ==> r[i] == levels[i] + gain
  {
    seq(|levels|, i requires 0 <= i < |levels| => levels[i] + gain)
  }

  // ---------------------------------------------------------------------------------------
  // processSamples

  /** The settings of a stay those of b. */
  predicate SameSettings(a: Accumulator, b: Accumulator) {
    a.sampleRate == b.sampleRate && a.dbGain == b.dbGain && a.config == b.config && a.windowLength == b.windowLength
  }

  /** The copy loop `windowData[i + cursor] = samples[i + from]` for i < count. */
  method CopyRun(data: seq<real>, cursor: nat, samples: seq<real>, from: nat, count: nat) returns (out: seq<real>)
    requires cursor + count <= |data| && from + count <= |samples|
    ensures |out| == |data|
    ensures out[..cursor + count] == data[..cursor] + samples[from..from + count]
  {
    out := data;
    var i := 0;
    while i < count
      invariant 0 <= i <= count && |out| == |data|
      invariant out[..cursor] == data[..cursor]
      invariant out[cursor..cursor + i] == samples[from..from + i]
    {
      out := out[i + cursor := samples[i + from]];
      assert out[cursor..cursor + i + 1] == out[cursor..cursor + i] + [samples[from + i]];
      assert samples[from..from + i + 1] == samples[from..from + i] + [samples[from + i]];
      i := i + 1;
    }
    assert out[..cursor + count] == out[..cursor] + out[cursor..cursor + count];
  }

  /** What the loop of `processSamples` has established: the samples taken so far, up to
      `base + cursor`, are complete windows, each turned into its record, and then the partial
      window in the buffer. */
  ghost predicate Accounts(a: Accumulator, ch: SpectrumChannel, m: Transcendentals, epoch: Int64, p: seq<real>,
                           data: seq<real>, cursor: nat, base: nat, records: seq<AcousticIndicatorsData>)
    requires a.windowLength > 0
  {
    var w := a.windowLength;
    && |data| == w && cursor <= w && base + cursor <= |p|
    && Rest(p[..base], w) == []
    && |records| == |Chunks(p[..base], w)|
    && (forall j :: 0 <= j < |records| ==> records[j] == Indicators(a, ch, m, epoch, Chunks(p[..base], w)[j]))
    && data[..cursor] == p[base..base + cursor]
  }

  /** A full buffer becomes one more record. */
  lemma EmitAccounts(a: Accumulator, ch: SpectrumChannel, m: Transcendentals, epoch: Int64, p: seq<real>,
                     data: seq<real>, base: nat, records: seq<AcousticIndicatorsData>)
    requires a.windowLength > 0
    requires Accounts(a, ch, m, epoch, p, data, a.windowLength, base, records)
    ensures Accounts(a, ch, m, epoch, p, data, 0, base + a.windowLength,
                     records + [Indicators(a, ch, m, epoch, data)])
  {
    var w := a.windowLength;
    assert p[..base + w] == p[..base] + data;
    ChunksAppend(p[..base], data, w);
    assert data[w..] == [];
    assert Chunks(data, w) == [data[..w]] + Chunks(data[w..], w);
    assert data[..w] == data;
  }

  /** The loop is done: the records are those of all complete windows of the stream, and the
      buffer holds what is left. */
  lemma FinishAccounts(a: Accumulator, ch: SpectrumChannel, m: Transcendentals, epoch: Int64, p: seq<real>,
                       data: seq<real>, cursor: nat, base: nat, records: seq<AcousticIndicatorsData>)
    requires a.windowLength > 0 && cursor < a.windowLength && base + cursor == |p|
    requires Accounts(a, ch, m, epoch, p, data, cursor, base, records)
    ensures |records| == |Chunks(p, a.windowLength)|
    ensures forall j :: 0 <= j < |records| ==> records[j] == Indicators(a, ch, m, epoch, Chunks(p, a.windowLength)[j])
    ensures data[..cursor] == Rest(p, a.windowLength)
    ensures cursor == |p| % a.windowLength && |records| == |p| / a.windowLength
  {
    var w := a.windowLength;
    ChunksShape(p, w);
    assert p == p[..base] + p[base..];
    ChunksAppend(p[..base], p[base..], w);
    ShortStream(p[base..], w);
    assert Chunks(p[..base], w) + [] == Chunks(p[..base], w);
  }

  /** `processSamples`, with its two nested loops as written. With an empty window and samples
      to take, the outer loop never advances (it emits records forever); the model reports
      `Diverges`. Otherwise one record per complete window of the buffered and new samples, each
      with the call's epoch; the buffer keeps the remainder. */
  method ProcessSamples(a: Accumulator, samples: AudioSamples, ch: SpectrumChannel, m: Transcendentals)
    returns (r: Result<(Accumulator, seq<AcousticIndicatorsData>)>)
    requires Valid(a)
    ensures r.Failure? <==> a.windowLength == 0 && |samples.samples| > 0
    ensures r.Failure? ==> r.error == Diverges
    ensures r.Success? ==> Valid(r.value.0) && SameSettings(a, r.value.0)
    ensures r.Success? && a.windowLength == 0 ==> r.value == (a, [])
    ensures r.Success? && a.windowLength > 0 ==>
              var p := Pending(a, samples.samples);
              && r.value.0.cursor == |p| % a.windowLength
              && |r.value.1| == |p| / a.windowLength
              && r.value.0.windowData[..r.value.0.cursor] == Rest(p, a.windowLength)
    ensures r.Success? && a.windowLength > 0 ==>
              var p := Pending(a, samples.samples);
              |r.value.1| == |Chunks(p, a.windowLength)| &&
              forall j :: 0 <= j < |r.value.1| ==>
                r.value.1[j] == Indicators(a, ch, m, samples.epoch, Chunks(p, a.windowLength)[j])
  {
    var s := samples.samples;
    if a.windowLength == 0 {
      if |s| > 0 {
        return Failure(Diverges);
      }
      return Success((a, []));
    }
    var w := a.windowLength;
    ghost var p := Pending(a, s);
    var data := a.windowData;
    var cursor: nat := a.cursor;
    var samplesProcessed: nat := 0;
    var records: seq<AcousticIndicatorsData> := [];
    ghost var base: nat := 0;
    assert p[..0] == [];
    assert p[a.cursor..] == s;
    while samplesProcessed < |s|
      invariant 0 <= samplesProcessed <= |s| && cursor < w
      invariant base + cursor == a.cursor + samplesProcessed
      invariant Accounts(a, ch, m, samples.epoch, p, data, cursor, base, records)
      decreases |s| - samplesProcessed
    {
      data, cursor, samplesProcessed := FillWindow(a, ch, m, samples.epoch, p, s, data, cursor, samplesProcessed, base, records);
      if cursor == w {
        EmitAccounts(a, ch, m, samples.epoch, p, data, base, records);
        records := records + [Indicators(a, ch, m, samples.epoch, data)];
        base := base + w;
        cursor := 0;
      }
    }
    FinishAccounts(a, ch, m, samples.epoch, p, data, cursor, base, records);
    r := Success((a.(windowData := data, cursor := cursor), records));
  }

  /** The inner loop of `processSamples`: copy samples into the buffer until it is full or the
      samples run out. */
  method FillWindow(a: Accumulator, ch: SpectrumChannel, m: Transcendentals, epoch: Int64, ghost p: seq<real>,
                    s: seq<real>, data: seq<real>, cursor: nat, processed: nat,
                    ghost base: nat, ghost records: seq<AcousticIndicatorsData>)
    returns (data': seq<real>, cursor': nat, processed': nat)
    requires a.windowLength > 0 && |p| == a.cursor + |s| && p[a.cursor..] == s
    requires processed < |s| && cursor < a.windowLength && base + cursor == a.cursor + processed
    requires Accounts(a, ch, m, epoch, p, data, cursor, base, records)
    ensures processed < processed' <= |s| && cursor' <= a.windowLength
    ensures cursor' == a.windowLength || processed' == |s|
    ensures base + cursor' == a.cursor + processed'
    ensures Accounts(a, ch, m, epoch, p, data', cursor', base, records)
  {
    var w := a.windowLength;
    data', cursor', processed' := data, cursor, processed;
    while cursor' < w && processed' < |s|
      invariant processed <= processed' <= |s| && cursor' <= w
      invariant base + cursor' == a.cursor + processed'
      invariant processed' == processed ==> cursor' < w
      invariant Accounts(a, ch, m, epoch, p, data', cursor', base, records)
      decreases |s| - processed'
    {
      var remainingToProcess := Min(w - cursor', |s| - processed');
      var filled := CopyRun(data', cursor', s, processed', remainingToProcess);
      SuffixSlice(p, s, a.cursor, processed', remainingToProcess);
      SliceSplit(p, base, base + cursor', base + cursor' + remainingToProcess);
      data' := filled;
      cursor' := cursor' + remainingToProcess;
      processed' := processed' + remainingToProcess;
    }
  }

  lemma SuffixSlice(p: seq<real>, s: seq<real>, offset: nat, i: nat, n: nat)
    requires offset <= |p| && p[offset..] == s && i + n <= |s|
    ensures p[offset + i..offset + i + n] == s[i..i + n]
  {
    var left, right := p[offset + i..offset + i + n], s[i..i + n];
    forall k | 0 <= k < n
      ensures left[k] == right[k]
    {
      assert p[offset..][i + k] == p[offset + i + k];
    }
  }

  lemma SliceSplit(p: seq<real>, a: nat, b: nat, c: nat)
    requires a <= b <= c <= |p|
    ensures p[a..c] == p[a..b] + p[b..c]
  {
  }

  /** Feeding samples in two calls cuts the same windows as feeding them at once: the windows
      of the first call, then those of the second from the state the first leaves. */
  lemma Streaming(a: Accumulator, b: Accumulator, s1: seq<real>, s2: seq<real>)
    requires Valid(a) && Valid(b) && SameSettings(a, b) && a.windowLength > 0
    requires b.cursor == |Pending(a, s1)| % a.windowLength
    requires b.windowData[..b.cursor] == Rest(Pending(a, s1), a.windowLength)
    ensures Chunks(Pending(a, s1 + s2), a.windowLength)
         == Chunks(Pending(a, s1), a.windowLength) + Chunks(Pending(b, s2), a.windowLength)
  {
    var w := a.windowLength;
    var p1 := Pending(a, s1);
    WholePrefix(p1, w);
    var base := |p1| - |Rest(p1, w)|;
    assert Pending(a, s1 + s2) == p1[..base] + (Rest(p1, w) + s2);
    ChunksAppend(p1[..base], Rest(p1, w) + s2, w);
  }
}
