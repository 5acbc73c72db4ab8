/** `SpectrumData.thirdOctaveProcessing` (shared WindowAnalysis.kt): the energy of a power
    spectrum in dB gathered into fractional-octave bands, either by a rectangular selection of
    cells or by weighting every cell with the band's filter response. */
module ThirdOctave {
  import opened Wrappers
  import opened Numerics
  import opened FrequencyBands

  /** `SpectrumData.OctaveWindow`. */
  datatype OctaveWindow = Rectangular | Fractional

  /** `SpectrumData`: a spectrum in dB per cell, taken at `epoch` from a signal sampled at
      `sampleRate`. */
  datatype SpectrumData = SpectrumData(epoch: Int64, spectrum: seq<real>, sampleRate: Int32)

  /** x when the floating-point value is finite, else nothing: `if (fg.isFinite()) spl += fg`.
      Which values are finite is supplied by the caller as `isFinite`. */
  function Kept(x: real, isFinite: real -> bool): real {
    if isFinite(x) then x else 0.0
  }

  /** The accumulation of the finite values of xs, first to last. */
  function FiniteSum(xs: seq<real>, isFinite: real -> bool): real {
    if |xs| == 0 then 0.0 else FiniteSum(xs[..|xs| - 1], isFinite) + Kept(xs[|xs| - 1], isFinite)
  }

  lemma {:induction false} FiniteSumAppend(a: seq<real>, b: seq<real>, isFinite: real -> bool)
    ensures FiniteSum(a + b, isFinite) == FiniteSum(a, isFinite) + FiniteSum(b, isFinite)
    decreases |b|
  {
    if |b| > 0 {
      assert (a + b)[..|a + b| - 1] == a + b[..|b| - 1];
      FiniteSumAppend(a, b[..|b| - 1], isFinite);
    } else {
      assert a + b == a;
    }
  }

  /** A non-finite value is skipped: the accumulation is the same with the value removed. */
  lemma NonFiniteSkipped(xs: seq<real>, i: nat, isFinite: real -> bool)
    requires i < |xs| && !isFinite(xs[i])
    ensures FiniteSum(xs, isFinite) == FiniteSum(xs[..i] + xs[i + 1..], isFinite)
  {
    assert xs == xs[..i] + [xs[i]] + xs[i + 1..];
    FiniteSumAppend(xs[..i] + [xs[i]], xs[i + 1..], isFinite);
    FiniteSumAppend(xs[..i], [xs[i]], isFinite);
    FiniteSumAppend(xs[..i], xs[i + 1..], isFinite);
    assert FiniteSum([xs[i]], isFinite) == FiniteSum([], isFinite) + 0.0 by {
      assert [xs[i]][..0] == [];
    }
  }

  /** Zeros contribute nothing, finite or not. */
  lemma {:induction false} FiniteSumZeros(n: nat, isFinite: real -> bool)
    ensures FiniteSum(seq(n, _ => 0.0), isFinite) == 0.0
  {
    if n > 0 {
      assert seq(n, _ => 0.0)[..n - 1] == seq(n - 1, _ => 0.0);
      FiniteSumZeros(n - 1, isFinite);
    }
  }

  /** `10.0.pow(level / 10.0)`: a level in dB back to an energy. */
  function Energy(m: Transcendentals, level: real): real {
    Exp10(m, level / 10.0)
  }

  /** `10 * log10(energy)`. */
  function Decibels(m: Transcendentals, energy: real): real {
    10.0 * m.log10(energy)
  }

  /** `freqByCell`: spectrum cells per hertz, 2·size / sampleRate. */
  function FreqByCell(s: SpectrumData): real
    requires s.sampleRate != 0
  {
    (|s.spectrum| as real * 2.0) / s.sampleRate as real
  }

  /** The frequency the fractional mode gives to cell i: (i + 1) / freqByCell. */
  function CellFrequency(s: SpectrumData, cell: nat): (f: real)
    requires s.sampleRate != 0 && cell < |s.spectrum|
    ensures f != 0.0
    ensures s.sampleRate > 0 ==> f > 0.0
  {
    var c := FreqByCell(s);
    assert c != 0.0;
    (cell + 1) as real / c
  }

  // ---------------------------------------------------------------------------------------
  // Rectangular mode

  /** The cells a band takes in rectangular mode: its edges scaled to cell positions,
      `lower` = fMin·c and `upper` = fMax·c, give the cells from ⌊lower⌋ up to, excluding,
      ⌈upper⌉, each converted by `toInt` (which saturates) and clamped into the spectrum. */
  function CellRange(lower: real, upper: real, size: nat): (r: (int, int))
    ensures 0 <= r.0 && r.1 <= size
    ensures 0.0 <= lower <= size as real && size <= INT_MAX ==> r.0 == lower.Floor
    ensures 0.0 <= upper <= size as real && size <= INT_MAX ==> r.1 == Ceil(upper)
  {
    var minCell := Max(0, SatInt32(lower.Floor));
    var maxCell := Min(size, SatInt32(Ceil(upper)));
    (minCell, maxCell)
  }

  /** The cell range of band b in a spectrum of `size` cells, c cells per hertz. */
  function BandCells(b: FrequencyBand, size: nat, c: real): (int, int) {
    CellRange(b.minFrequency * c, b.maxFrequency * c, size)
  }

  /** The energies of the cells of band b in rectangular mode, lowest cell first. */
  function RectangularEnergies(s: SpectrumData, b: FrequencyBand, m: Transcendentals): (e: seq<real>)
    requires s.sampleRate != 0
    ensures var (lo, hi) := BandCells(b, |s.spectrum|, FreqByCell(s));
            && |e| == Max(0, hi - lo)
            && forall j :: 0 <= j < |e| ==> e[j] == Energy(m, s.spectrum[lo + j])
  {
    var (lo, hi) := BandCells(b, |s.spectrum|, FreqByCell(s));
    if lo < hi then seq(hi - lo, j requires 0 <= j < hi - lo => Energy(m, s.spectrum[lo + j])) else []
  }

  /** The level of band b in rectangular mode. */
  function RectangularSpl(s: SpectrumData, b: FrequencyBand, m: Transcendentals, isFinite: real -> bool): real
    requires s.sampleRate != 0
  {
    Decibels(m, FiniteSum(RectangularEnergies(s, b, m), isFinite))
  }

  /** A reference for the rectangular sum: every cell of the spectrum, masked to zero outside
      the band's range. */
  function Masked(s: SpectrumData, lo: int, hi: int, m: Transcendentals): seq<real> {
    seq(|s.spectrum|, cell requires 0 <= cell < |s.spectrum| =>
      if lo <= cell < hi then Energy(m, s.spectrum[cell]) else 0.0)
  }

  /** Rectangular mode sums exactly the finite energies of the cells in the band's range. */
  lemma RectangularIsMasked(s: SpectrumData, b: FrequencyBand, m: Transcendentals, isFinite: real -> bool)
    requires s.sampleRate != 0
    ensures var (lo, hi) := BandCells(b, |s.spectrum|, FreqByCell(s));
            FiniteSum(RectangularEnergies(s, b, m), isFinite) == FiniteSum(Masked(s, lo, hi, m), isFinite)
  {
    var (lo, hi) := BandCells(b, |s.spectrum|, FreqByCell(s));
    var e := RectangularEnergies(s, b, m);
    var n := |s.spectrum|;
    var full := Masked(s, lo, hi, m);
    if lo < hi {
      assert full == seq(lo, _ => 0.0) + e + seq(n - hi, _ => 0.0);
      FiniteSumAppend(seq(lo, _ => 0.0) + e, seq(n - hi, _ => 0.0), isFinite);
      FiniteSumAppend(seq(lo, _ => 0.0), e, isFinite);
      FiniteSumZeros(lo, isFinite);
      FiniteSumZeros(n - hi, isFinite);
    } else {
      assert full == seq(n, _ => 0.0);
      FiniteSumZeros(n, isFinite);
    }
  }

  /** Two bands that share an edge at cell position e share the cell holding e when e is not a
      whole number (⌈e⌉ = ⌊e⌋ + 1), and touch without overlap when it is: a cell on a band edge
      counts in both bands. */
  lemma SharedEdgeCell(lower: real, e: real, upper: real, size: nat)
    requires 0.0 <= e <= size as real && size <= INT_MAX
    ensures CellRange(lower, e, size).1 - CellRange(e, upper, size).0 == if e == e.Floor as real then 0 else 1
  {
    CeilOfFloor(e);
  }

  /** ⌈x⌉ is ⌊x⌋ for a whole number and ⌊x⌋ + 1 otherwise. */
  lemma CeilOfFloor(x: real)
    ensures Ceil(x) == if x == x.Floor as real then x.Floor else x.Floor + 1
  {
  }

  // ---------------------------------------------------------------------------------------
  // Fractional mode

  function Pow6(x: real): (r: real)
    ensures r >= 0.0
  {
    var x2 := x * x;
    x2 * x2 * x2
  }

  /** The square root the caller supplies maps (0, 1] into (0, 1] and 1 to 1, as the real one. */
  ghost predicate SqrtOnUnit(m: Transcendentals) {
    && (forall x: real :: 0.0 < x <= 1.0 ==> 0.0 < m.sqrt(x) <= 1.0)
    && m.sqrt(1.0) == 1.0
  }

  /** The response of the band centred on `mid` at frequency f:
      sqrt(1 / (1 + ((f/mid − mid/f)·1.507·d)^6)). A zero centre makes f/mid infinite in IEEE
      arithmetic, which drives the response to sqrt(0) = 0. */
  function CellGain(f: real, mid: real, d: real, m: Transcendentals): real
    requires f != 0.0
  {
    if mid == 0.0 then 0.0
    else
      var division := (f / mid - mid / f) * 1.507 * d;
      m.sqrt(1.0 / (1.0 + Pow6(division)))
  }

  /** Every cell is weighted by a gain in (0, 1]. */
  lemma CellGainBounds(f: real, mid: real, d: real, m: Transcendentals)
    requires f != 0.0 && mid != 0.0 && SqrtOnUnit(m)
    ensures 0.0 < CellGain(f, mid, d, m) <= 1.0
  {
    var division := (f / mid - mid / f) * 1.507 * d;
    var x := 1.0 / (1.0 + Pow6(division));
    assert 0.0 < x <= 1.0;
  }

  /** The band's own centre passes unattenuated. */
  lemma CellGainAtCentre(mid: real, d: real, m: Transcendentals)
    requires mid != 0.0 && SqrtOnUnit(m)
    ensures CellGain(mid, mid, d, m) == 1.0
  {
    assert (mid / mid - mid / mid) * 1.507 * d == 0.0;
  }

  /** The weighted energies of every cell of the spectrum for band b in fractional mode. */
  function FractionalEnergies(s: SpectrumData, b: FrequencyBand, d: real, m: Transcendentals): (e: seq<real>)
    requires s.sampleRate != 0
    ensures |e| == |s.spectrum|
    ensures forall cell :: 0 <= cell < |e| ==>
              e[cell] == Energy(m, s.spectrum[cell]) * CellGain(CellFrequency(s, cell), b.midFrequency, d, m)
  {
    seq(|s.spectrum|, cell requires 0 <= cell < |s.spectrum| =>
      Energy(m, s.spectrum[cell]) * CellGain(CellFrequency(s, cell), b.midFrequency, d, m))
  }

  /** The level of band b in fractional mode. */
  function FractionalSpl(s: SpectrumData, b: FrequencyBand, d: real, m: Transcendentals, isFinite: real -> bool): real
    requires s.sampleRate != 0
  {
    Decibels(m, FiniteSum(FractionalEnergies(s, b, d, m), isFinite))
  }

  /** With positive energies and a band centre that is not zero, every cell adds a positive share
      of its energy that never exceeds the energy itself. */
  lemma FractionalWeights(s: SpectrumData, b: FrequencyBand, d: real, m: Transcendentals, cell: nat)
    requires s.sampleRate != 0 && cell < |s.spectrum|
    requires b.midFrequency != 0.0 && SqrtOnUnit(m) && Energy(m, s.spectrum[cell]) > 0.0
    ensures 0.0 < FractionalEnergies(s, b, d, m)[cell] <= Energy(m, s.spectrum[cell])
  {
    var g := CellGain(CellFrequency(s, cell), b.midFrequency, d, m);
    CellGainBounds(CellFrequency(s, cell), b.midFrequency, d, m);
    var e := Energy(m, s.spectrum[cell]);
    assert FractionalEnergies(s, b, d, m)[cell] == e * g;
    PositiveShare(e, g);
  }

  lemma PositiveShare(e: real, g: real)
    requires e > 0.0 && 0.0 < g <= 1.0
    ensures 0.0 < e * g <= e
  {
    assert e * g <= e * 1.0;
  }

  // ---------------------------------------------------------------------------------------
  // The whole aggregation

  function BandSpl(s: SpectrumData, b: FrequencyBand, d: real, window: OctaveWindow, m: Transcendentals,
                   isFinite: real -> bool): real
    requires s.sampleRate != 0
  {
    match window
    case Fractional => FractionalSpl(s, b, d, m, isFinite)
    case Rectangular => RectangularSpl(s, b, m, isFinite)
  }

  /** `thirdOctaveProcessing`: the table of `emptyFrequencyBands`, each band given the level of
      the energy it gathers. The bands keep their order and edges; the faults of the table
      (a search that never ends, a negative size) are the only ones. */
  function ThirdOctaveProcessing(s: SpectrumData, first: real, last: real, base: BaseMethod, d: real,
                                 window: OctaveWindow, m: Transcendentals, isFinite: real -> bool, fuel: nat)
    : (r: Result<seq<FrequencyBand>>)
    requires s.sampleRate != 0 && d != 0.0
    ensures var table := EmptyFrequencyBands(first, last, base, d, m, fuel);
            && (r.Failure? <==> table.Failure?)
            && (r.Failure? ==> r.error == table.error)
            && (r.Success? ==> |r.value| == |table.value|)
            && (r.Success? ==> forall i :: 0 <= i < |r.value| ==> BandOf(r.value[i]) == BandOf(table.value[i]))
            && (r.Success? ==> forall i :: 0 <= i < |r.value| ==>
                  r.value[i].spl == BandSpl(s, table.value[i], d, window, m, isFinite))
  {
    var thirdOctave :- EmptyFrequencyBands(first, last, base, d, m, fuel);
    Success(seq(|thirdOctave|, i requires 0 <= i < |thirdOctave| =>
      thirdOctave[i].(spl := BandSpl(s, thirdOctave[i], d, window, m, isFinite))))
  }
}
