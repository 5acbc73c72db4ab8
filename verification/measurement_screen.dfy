/** The logic of the measurement screen: the axis and frequency labels, and the cache of
    finished 32-pixel spectrogram strips. */
module MeasurementScreen {
  import opened Wrappers
  import opened Numerics
  import opened Decimal
  import opened Bitmaps
  import opened Spectrograms

  /** kotlin.math `round`: the nearest integer, ties going to the even one. */
  function RoundHalfEven(x: real): (r: int)
    ensures -0.5 <= x - r as real <= 0.5
    ensures x - r as real == 0.5 || r as real - x == 0.5 ==> r % 2 == 0
  {
    var f := x.Floor;
    var d := x - f as real;
    if d < 0.5 then f
    else if d > 0.5 then f + 1
    else if f % 2 == 0 then f
    else f + 1
  }

  /** An integer closer than one half to x is the rounded value. */
  lemma RoundNearest(x: real, n: int)
    requires -0.5 < x - n as real < 0.5
    ensures RoundHalfEven(x) == n
  {
  }

  /** `round(x).toInt()`: the rounded value saturated to the Int range. */
  function RoundToInt(x: real): Int32 {
    SatInt32(RoundHalfEven(x))
  }

  /** `timeAxisFormater`: a plus sign, the rounded seconds, then "s". */
  function TimeAxisLabel(seconds: real): string {
    "+" + IntToString(RoundToInt(seconds)) + "s"
  }

  /** `noiseLevelAxisFormater`: the rounded level, then " dB". */
  function NoiseLevelAxisLabel(level: real): string {
    IntToString(RoundToInt(level)) + " dB"
  }

  /** The time label reads back as the seconds rounded to the nearest integer (ties to even)
      whenever that integer is an Int. */
  lemma TimeAxisLabelReadsBack(seconds: real)
    ensures var caption := TimeAxisLabel(seconds);
      && |caption| >= 3 && caption[0] == '+' && caption[|caption| - 1] == 's'
      && ParseInt(caption[1..|caption| - 1]) == Some(RoundToInt(seconds))
    ensures INT_MIN <= RoundHalfEven(seconds) <= INT_MAX ==>
      -0.5 <= seconds - RoundToInt(seconds) as real <= 0.5
  {
    var caption := TimeAxisLabel(seconds);
    assert caption[1..|caption| - 1] == IntToString(RoundToInt(seconds));
    ParseIntToString(RoundToInt(seconds));
  }

  /** The level label reads back as the level rounded to the nearest integer (ties to even)
      whenever that integer is an Int. */
  lemma NoiseLevelAxisLabelReadsBack(level: real)
    ensures var caption := NoiseLevelAxisLabel(level);
      && |caption| >= 4 && caption[|caption| - 3..] == " dB"
      && ParseInt(caption[..|caption| - 3]) == Some(RoundToInt(level))
    ensures INT_MIN <= RoundHalfEven(level) <= INT_MAX ==>
      -0.5 <= level - RoundToInt(level) as real <= 0.5
  {
    var caption := NoiseLevelAxisLabel(level);
    assert caption[..|caption| - 3] == IntToString(RoundToInt(level));
    ParseIntToString(RoundToInt(level));
  }

  /** `formatFrequency` as written: at 1000 Hz and above, the kilohertz, then a point and the
      remainder's digits with trailing zeros trimmed when the remainder is not zero. The
      remainder is printed without its leading zeros. */
  function FormatFrequencyAsWritten(frequency: Int32): string {
    if frequency >= 1000 then
      if Rem(frequency, 1000) > 0 then
        var subKilo := TrimEnd(IntToString(Rem(frequency, 1000)), '0');
        IntToString(frequency / 1000) + "." + subKilo + " kHz"
      else
        IntToString(frequency / 1000) + " kHz"
    else
      IntToString(frequency) + " Hz"
  }

  /** 1005 Hz and 1500 Hz both read "1.5 kHz": the remainder 5 loses the zeros that place it
      in the thousandths. */
  lemma FormatFrequencyAsWrittenCollides()
    ensures FormatFrequencyAsWritten(1005) == FormatFrequencyAsWritten(1500) == "1.5 kHz"
  {
    assert Rem(1005, 1000) == 5 && Rem(1500, 1000) == 500;
    assert IntToString(5) == "5" && IntToString(1) == "1";
    assert IntToString(500) == "500";
    assert TrimEnd("500", '0') == "5";
  }

  /** `formatFrequency` with the remainder padded to three digits before trailing zeros are
      trimmed, so that 1005 Hz reads "1.005 kHz". */
  function FormatFrequency(frequency: Int32): string {
    if frequency >= 1000 then
      if Rem(frequency, 1000) > 0 then
        var subKilo := TrimEnd(PadStart(IntToString(Rem(frequency, 1000)), 3), '0');
        IntToString(frequency / 1000) + "." + subKilo + " kHz"
      else
        IntToString(frequency / 1000) + " kHz"
    else
      IntToString(frequency) + " Hz"
  }

  /** The two agree below 1000 Hz, on whole kilohertz, and whenever the remainder has three
      digits. */
  lemma FormatFrequencyAgrees(frequency: Int32)
    requires frequency < 1000 || Rem(frequency, 1000) == 0 || Rem(frequency, 1000) >= 100
    ensures FormatFrequencyAsWritten(frequency) == FormatFrequency(frequency)
  {
    if frequency >= 1000 && Rem(frequency, 1000) > 0 {
      var r := Rem(frequency, 1000);
      assert r < 1000;
      NatToStringLength(r / 10, 2);
      assert |IntToString(r)| == 3;
    }
  }

  /** The first position of c in s, or |s| when there is none. */
  function IndexOf(s: string, c: char): (k: nat)
    ensures k <= |s| && (k < |s| ==> s[k] == c)
    ensures forall i :: 0 <= i < k ==> s[i] != c
  {
    if s == [] then 0 else if s[0] == c then 0 else 1 + IndexOf(s[1..], c)
  }

  /** Reads "<n> Hz", "<k> kHz" or "<k>.<d> kHz" (one to three decimals) back into hertz. */
  function ParseFrequencyLabel(caption: string): Option<int> {
    if |caption| >= 5 && caption[|caption| - 4..] == " kHz" then ParseKilo(caption[..|caption| - 4])
    else if |caption| >= 4 && caption[|caption| - 3..] == " Hz" then ParseInt(caption[..|caption| - 3])
    else None
  }

  /** Reads "<k>" or "<k>.<d>" kilohertz back into hertz. */
  function ParseKilo(text: string): Option<int> {
    var point := IndexOf(text, '.');
    var kilo :- ParseInt(text[..point]);
    if point == |text| then Some(kilo * 1000)
    else ParseThousandths(kilo, text[point + 1..])
  }

  function ParseThousandths(kilo: int, decimals: string): Option<int> {
    if 1 <= |decimals| <= 3 && AllDigits(decimals) && kilo >= 0 then
      Some(kilo * 1000 + DigitsValue(decimals) * Pow10(3 - |decimals|))
    else None
  }

  /** A remainder in (0, 1000) written with three digits and its trailing zeros trimmed keeps
      one to three decimals, whose value scaled to thousandths is the remainder. */
  lemma ThousandthsReadBack(r: int)
    requires 0 < r < 1000
    ensures var decimals := TrimEnd(PadStart(IntToString(r), 3), '0');
      && 1 <= |decimals| <= 3 && AllDigits(decimals)
      && DigitsValue(decimals) * Pow10(3 - |decimals|) == r
  {
    var digits := NatToString(r);
    NatToStringLength(r, 3);
    var padded := PadStart(digits, 3);
    PadStartValue(digits, 3);
    DigitsValueOfNatToString(r);
    TrimZerosValue(padded);
    var decimals := TrimEnd(padded, '0');
    if decimals == [] {
      assert DigitsValue(decimals) == 0;
    }
  }

  /** Reading a label back gives the frequency it was made from. */
  lemma FormatFrequencyReadsBack(frequency: Int32)
    ensures ParseFrequencyLabel(FormatFrequency(frequency)) == Some(frequency)
  {
    var caption := FormatFrequency(frequency);
    if frequency >= 1000 {
      var kilo, r := KiloSplit(frequency);
      if r > 0 {
        assert caption == IntToString(kilo) + "." + TrimEnd(PadStart(IntToString(r), 3), '0') + " kHz";
        DecimalKiloReadsBack(kilo, r);
      } else {
        assert caption == IntToString(kilo) + " kHz";
        WholeKiloReadsBack(kilo);
      }
    } else {
      assert caption == IntToString(frequency) + " Hz";
      HertzReadsBack(frequency);
    }
  }

  /** Kilohertz and the hertz left over, as Int division and remainder give them. */
  lemma KiloSplit(frequency: int) returns (kilo: int, r: int)
    requires frequency >= 1000
    ensures kilo == frequency / 1000 && r == Rem(frequency, 1000)
    ensures kilo >= 1 && 0 <= r < 1000 && frequency == kilo * 1000 + r
  {
    kilo, r := frequency / 1000, Rem(frequency, 1000);
  }

  lemma HertzReadsBack(frequency: int)
    ensures ParseFrequencyLabel(IntToString(frequency) + " Hz") == Some(frequency)
  {
    var text := IntToString(frequency);
    var caption := text + " Hz";
    assert caption[|caption| - 3..] == " Hz";
    assert caption[|caption| - 4..] != " kHz" by {
      assert caption[|caption| - 4..][1] == ' ';
    }
    assert caption[..|caption| - 3] == text;
    ParseIntToString(frequency);
  }

  lemma WholeKiloReadsBack(kilo: int)
    requires kilo >= 1
    ensures ParseFrequencyLabel(IntToString(kilo) + " kHz") == Some(kilo * 1000)
  {
    var whole := IntToString(kilo);
    var caption := whole + " kHz";
    assert caption[|caption| - 4..] == " kHz";
    assert caption[..|caption| - 4] == whole;
    NoPointInInt(kilo);
    IndexOfAbsent(whole, '.');
    assert whole[..|whole|] == whole;
    ParseIntToString(kilo);
  }

  lemma DecimalKiloReadsBack(kilo: int, r: int)
    requires kilo >= 1 && 0 < r < 1000
    ensures var decimals := TrimEnd(PadStart(IntToString(r), 3), '0');
      ParseFrequencyLabel(IntToString(kilo) + "." + decimals + " kHz") == Some(kilo * 1000 + r)
  {
    DecimalKiloCaption(kilo, TrimEnd(PadStart(IntToString(r), 3), '0'));
    ThousandthsOfRemainder(kilo, r);
  }

  /** A kilohertz caption with decimals reads back as its decimals scaled to thousandths. */
  lemma DecimalKiloCaption(kilo: int, decimals: string)
    requires kilo >= 1
    ensures ParseFrequencyLabel(IntToString(kilo) + "." + decimals + " kHz") == ParseThousandths(kilo, decimals)
  {
    var text := IntToString(kilo) + "." + decimals;
    var caption := text + " kHz";
    assert caption[|caption| - 4..] == " kHz";
    assert caption[..|caption| - 4] == text;
    DecimalKiloText(kilo, decimals);
  }

  lemma ThousandthsOfRemainder(kilo: int, r: int)
    requires kilo >= 1 && 0 < r < 1000
    ensures ParseThousandths(kilo, TrimEnd(PadStart(IntToString(r), 3), '0')) == Some(kilo * 1000 + r)
  {
    ThousandthsReadBack(r);
  }

  lemma DecimalKiloText(kilo: int, decimals: string)
    requires kilo >= 1
    ensures ParseKilo(IntToString(kilo) + "." + decimals) == ParseThousandths(kilo, decimals)
  {
    var whole := IntToString(kilo);
    var text := whole + "." + decimals;
    NoPointInInt(kilo);
    IndexOfFirst(whole, '.', decimals);
    assert text[..|whole|] == whole && text[|whole| + 1..] == decimals;
    ParseIntToString(kilo);
  }

  /** A printed integer holds no point. */
  lemma NoPointInInt(k: int)
    ensures forall i :: 0 <= i < |IntToString(k)| ==> IntToString(k)[i] != '.'
  {
    var s := IntToString(k);
    forall i | 0 <= i < |s|
      ensures s[i] != '.'
    {
      if k < 0 && i > 0 {
        assert s[i] == NatToString(-k)[i - 1];
      }
    }
  }

  lemma {:induction false} IndexOfAbsent(s: string, c: char)
    requires forall i :: 0 <= i < |s| ==> s[i] != c
    ensures IndexOf(s, c) == |s|
  {
    if s != [] {
      IndexOfAbsent(s[1..], c);
    }
  }

  lemma {:induction false} IndexOfFirst(a: string, c: char, b: string)
    requires forall i :: 0 <= i < |a| ==> a[i] != c
    ensures IndexOf(a + [c] + b, c) == |a|
  {
    if a != [] {
      assert (a + [c] + b)[1..] == a[1..] + [c] + b;
      IndexOfFirst(a[1..], c, b);
    }
  }

  /** Different frequencies get different labels. */
  lemma FormatFrequencyInjective(f: Int32, g: Int32)
    requires FormatFrequency(f) == FormatFrequency(g)
    ensures f == g
  {
    FormatFrequencyReadsBack(f);
    FormatFrequencyReadsBack(g);
  }

  /** `SPECTROGRAM_STRIP_WIDTH`: the columns of one spectrogram strip. */
  const STRIP_WIDTH: int := 32

  /** `SpectrogramViewModel`: the strip being painted, the images of finished strips (oldest
      first), and the width of the canvas they are drawn on. */
  datatype StripCache = StripCache(current: SpectrogramData, cached: seq<seq<Byte>>, canvasWidth: real)

  /** The strips kept are never more than one beyond what the canvas shows. */
  predicate CacheFits(cached: seq<seq<Byte>>, canvasWidth: real) {
    ((|cached| - 1) * STRIP_WIDTH) as real <= canvasWidth
  }

  /** The current strip has room left, and the cache fits the canvas. */
  predicate StripsValid(v: StripCache) {
    0 <= v.current.offset < STRIP_WIDTH && CacheFits(v.cached, v.canvasWidth)
  }

  /** A finished strip goes to the end of the cache; the oldest one is dropped when the cache
      then holds more than one strip beyond the canvas width. */
  function AddStrip(cached: seq<seq<Byte>>, strip: seq<Byte>, canvasWidth: real): (r: seq<seq<Byte>>)
    ensures r == cached + [strip] || r == (cached + [strip])[1..]
  {
    var all := cached + [strip];
    if ((|all| - 1) * STRIP_WIDTH) as real > canvasWidth then all[1..] else all
  }

  /** Adding a strip keeps the cache within the canvas, and on a canvas of non-negative width
      the new strip is the last one and the others are the newest of the old ones, in order. */
  lemma AddStripSpec(cached: seq<seq<Byte>>, strip: seq<Byte>, canvasWidth: real)
    requires CacheFits(cached, canvasWidth)
    ensures CacheFits(AddStrip(cached, strip, canvasWidth), canvasWidth)
    ensures |AddStrip(cached, strip, canvasWidth)| == |cached| + 1
      <==> (|cached| * STRIP_WIDTH) as real <= canvasWidth
    ensures canvasWidth >= 0.0 ==>
      var r := AddStrip(cached, strip, canvasWidth);
      |r| >= 1 && r[|r| - 1] == strip && r[..|r| - 1] == cached[|cached| + 1 - |r|..]
  {
    var all := cached + [strip];
    if canvasWidth >= 0.0 && ((|all| - 1) * STRIP_WIDTH) as real > canvasWidth {
      assert |cached| >= 1;
      assert all[1..][..|cached| - 1] == cached[1..];
    }
  }

  /** The part of `processSpectrum` after the push: a strip that has reached 32 columns is
      cached and a fresh strip of the same size, for the spectrum's sample rate, takes its
      place. The result carries the offset of the current strip. */
  function FinishStrip(v: StripCache, pushed: SpectrogramData, spectrumRate: int)
    : (r: Result<(StripCache, Int32)>)
    ensures r.Success? ==> r.value.1 == r.value.0.current.offset && r.value.0.canvasWidth == v.canvasWidth
  {
    if pushed.offset == STRIP_WIDTH then
      var blank :- Create(pushed.width, pushed.height, pushed.scaleMode, spectrumRate as real);
      Success((StripCache(blank, AddStrip(v.cached, pushed.bytes, v.canvasWidth), v.canvasWidth), blank.offset))
    else
      Success((v.(current := pushed), pushed.offset))
  }

  /** After a push that advanced the offset by one, the strips stay valid. A full strip is
      cached and replaced by a blank strip of the same size at offset 0; any other push only
      replaces the current strip. Only a blank strip that cannot be allocated fails. */
  lemma FinishStripSpec(v: StripCache, pushed: SpectrogramData, spectrumRate: int)
    requires StripsValid(v) && pushed.offset == Wrap32(v.current.offset + 1)
    ensures var r := FinishStrip(v, pushed, spectrumRate);
      r.Success? ==> StripsValid(r.value.0)
    ensures var r := FinishStrip(v, pushed, spectrumRate);
      r.Failure? <==> pushed.offset == STRIP_WIDTH && Create(pushed.width, pushed.height, pushed.scaleMode, spectrumRate as real).Failure?
    ensures var r := FinishStrip(v, pushed, spectrumRate);
      r.Success? && pushed.offset == STRIP_WIDTH ==>
        && r.value.0.current.offset == 0
        && r.value.0.current.width == pushed.width && r.value.0.current.height == pushed.height
        && r.value.0.cached == AddStrip(v.cached, pushed.bytes, v.canvasWidth)
    ensures var r := FinishStrip(v, pushed, spectrumRate);
      pushed.offset != STRIP_WIDTH ==> r == Success((v.(current := pushed), pushed.offset))
  {
    if pushed.offset == STRIP_WIDTH {
      AddStripSpec(v.cached, pushed.bytes, v.canvasWidth);
    }
  }

  /** What a push leaves in the strip's bytes: the same length, bytes outside the current
      column kept, and in a well-formed strip every row of the column painted. */
  predicate PushedStrip(d: SpectrogramData, c: Column, s: Setting, b: seq<Byte>)
    requires ValidSetting(d, c, s)
  {
    && |b| == |d.bytes|
    && (forall i :: 0 <= i < |d.bytes| && Untouched(d, i, d.height) ==> b[i] == d.bytes[i])
    && (WellFormed(d) ==> forall p: Int32 :: 0 <= p < d.height ==> Painted(d, c, s, b, p))
  }

  /** `processSpectrum`: pushes the spectrum into the current strip, then caches the strip if
      it is full. The strips stay valid; a well-formed strip whose rows can all be read only
      fails when a blank strip cannot be allocated. */
  method ProcessSpectrum(v: StripCache, c: Column, s: Setting, spectrumRate: int)
    returns (r: Result<(StripCache, Int32)>)
    requires ValidSetting(v.current, c, s)
    ensures r.Success? ==> r.value.1 == r.value.0.current.offset && r.value.0.canvasWidth == v.canvasWidth
    ensures r.Success? ==> exists b :: (PushedStrip(v.current, c, s, b)
      && r == FinishStrip(v, v.current.(bytes := b, offset := Wrap32(v.current.offset + 1)), spectrumRate))
    ensures StripsValid(v) && r.Success? ==> StripsValid(r.value.0)
    ensures WellFormed(v.current) && Readable(v.current, c, s) && r.Failure? ==>
      Wrap32(v.current.offset + 1) == STRIP_WIDTH
      && Create(v.current.width, v.current.height, v.current.scaleMode, spectrumRate as real).Failure?
  {
    var pushed := Push(v.current, c, s);
    if pushed.Failure? {
      return Failure(pushed.error);
    }
    var d := pushed.value;
    assert PushedStrip(v.current, c, s, d.bytes);
    r := FinishStrip(v, d, spectrumRate);
    if StripsValid(v) {
      FinishStripSpec(v, d, spectrumRate);
    }
  }
}
