/** Fractional-octave bands (FrequencyBand.kt): band edges from a geometric progression of
    centre frequencies, the search for the band holding a frequency, and the table of bands
    between two frequencies. */
module FrequencyBands {
  import opened Wrappers
  import opened Numerics

  /** `FrequencyBand.BaseMethod`: octaves in base 10 (ratio 10^0.3) or base 2. */
  datatype BaseMethod = B10 | B2

  /** One band of the spectrum; `spl` is filled in later by the band aggregation. */
  datatype FrequencyBand = FrequencyBand(minFrequency: real, midFrequency: real, maxFrequency: real, spl: real)

  /** `Triple(fMin, fMid, fMax)`. */
  datatype Edges = Edges(fMin: real, fMid: real, fMax: real)

  /** The supplied `pow` behaves as an exponential of base g: it turns sums of exponents into
      products, is 1 at 0 and g at 1, is positive, and grows with its exponent when g exceeds 1. */
  ghost predicate Exponential(m: Transcendentals, g: real) {
    && (forall x: real, y: real {:trigger Plus(x, y)} :: m.pow(g, x) * m.pow(g, y) == m.pow(g, Plus(x, y)))
    && m.pow(g, 0.0) == 1.0
    && m.pow(g, 1.0) == g
    && (forall x: real :: m.pow(g, x) > 0.0)
    && (g > 1.0 ==> forall x: real, y: real {:trigger Below(x, y)} :: Below(x, y) ==> m.pow(g, x) < m.pow(g, y))
  }

  /** x + y and x < y under names of their own, so that the laws above are used only where a
      proof mentions them. */
  ghost function Plus(x: real, y: real): real {
    x + y
  }

  ghost predicate Below(x: real, y: real) {
    x < y
  }

  /** The ratio between the centres of bands `bandDivision` apart: 10^(3/10) for base 10, 2 for
      base 2. */
  function Growth(base: BaseMethod, m: Transcendentals): real {
    match base
    case B10 => m.pow(10.0, 3.0 / 10.0)
    case B2 => 2.0
  }

  /** `getBands`: centre g^(k/d)·1000 Hz, edges half a band below and above. */
  function GetBands(bandIndex: int, g: real, bandDivision: real, m: Transcendentals): Edges
    requires bandDivision != 0.0
  {
    var fMid := m.pow(g, bandIndex as real / bandDivision) * 1000.0;
    var fMax := m.pow(g, 1.0 / (2.0 * bandDivision)) * fMid;
    var fMin := m.pow(g, -1.0 / (2.0 * bandDivision)) * fMid;
    Edges(fMin, fMid, fMax)
  }

  /** The e-th point of the half-band grid: 1000·g^(e / 2d) Hz. Band k runs from point 2k − 1
      through its centre 2k to point 2k + 1. */
  function GridPoint(e: int, g: real, bandDivision: real, m: Transcendentals): real
    requires bandDivision != 0.0
  {
    1000.0 * m.pow(g, e as real / (2.0 * bandDivision))
  }

  /** Every frequency `getBands` computes lies on the half-band grid. */
  lemma {:induction false} BandsOnGrid(k: int, g: real, d: real, m: Transcendentals)
    requires d != 0.0 && Exponential(m, g)
    ensures GetBands(k, g, d, m)
         == Edges(GridPoint(2 * k - 1, g, d, m), GridPoint(2 * k, g, d, m), GridPoint(2 * k + 1, g, d, m))
  {
    var c := k as real / d;
    var h := 1.0 / (2.0 * d);
    var b := GetBands(k, g, d, m);
    var pc, ph, pl := m.pow(g, c), m.pow(g, h), m.pow(g, -h);
    assert -1.0 / (2.0 * d) == -h;
    assert c == (2 * k) as real / (2.0 * d);
    assert Plus(h, c) == (2 * k + 1) as real / (2.0 * d);
    assert Plus(-h, c) == (2 * k - 1) as real / (2.0 * d);
    assert ph * pc == m.pow(g, Plus(h, c));
    assert pl * pc == m.pow(g, Plus(-h, c));
    assert b.fMax == ph * (pc * 1000.0) == 1000.0 * (ph * pc);
    assert b.fMin == pl * (pc * 1000.0) == 1000.0 * (pl * pc);
  }

  /** Grid points increase with their index when g > 1 and d > 0. */
  lemma GridIncreasing(e1: int, e2: int, g: real, d: real, m: Transcendentals)
    requires d > 0.0 && g > 1.0 && Exponential(m, g) && e1 < e2
    ensures GridPoint(e1, g, d, m) < GridPoint(e2, g, d, m)
  {
    assert Below(e1 as real / (2.0 * d), e2 as real / (2.0 * d));
  }

  /** Every band is positive and ordered: 0 < fMin < fMid < fMax. */
  lemma BandOrdered(k: int, g: real, d: real, m: Transcendentals)
    requires d > 0.0 && g > 1.0 && Exponential(m, g)
    ensures var b := GetBands(k, g, d, m); 0.0 < b.fMin < b.fMid < b.fMax
  {
    BandsOnGrid(k, g, d, m);
    GridIncreasing(2 * k - 1, 2 * k, g, d, m);
    GridIncreasing(2 * k, 2 * k + 1, g, d, m);
  }

  /** Adjacent bands share an edge: the top of band k is the bottom of band k + 1. */
  lemma SharedEdge(k: int, g: real, d: real, m: Transcendentals)
    requires d != 0.0 && Exponential(m, g)
    ensures GetBands(k, g, d, m).fMax == GetBands(k + 1, g, d, m).fMin
  {
    BandsOnGrid(k, g, d, m);
    BandsOnGrid(k + 1, g, d, m);
  }

  /** Moving `bandDivision` bands up multiplies every frequency by g (one octave of the base). */
  lemma {:induction false} OctaveStep(k: int, g: real, n: nat, m: Transcendentals)
    requires n > 0 && Exponential(m, g)
    ensures GetBands(k + n, g, n as real, m).fMid == g * GetBands(k, g, n as real, m).fMid
  {
    var d := n as real;
    assert (k + n) as real == k as real + d;
    assert d / d == 1.0;
    assert (k as real + d) / d == k as real / d + d / d;
    assert (k + n) as real / d == Plus(k as real / d, 1.0);
    assert m.pow(g, k as real / d) * m.pow(g, 1.0) == m.pow(g, Plus(k as real / d, 1.0));
  }

  /** f lies strictly inside the band. */
  predicate InBand(f: real, b: Edges) {
    b.fMin < f && f < b.fMax
  }

  /** Band k is entirely below band j > k: its top is no higher than j's bottom. */
  lemma BandsBelow(k: int, j: int, g: real, d: real, m: Transcendentals)
    requires d > 0.0 && g > 1.0 && Exponential(m, g) && k < j
    ensures GetBands(k, g, d, m).fMax <= GetBands(j, g, d, m).fMin
  {
    BandsOnGrid(k, g, d, m);
    BandsOnGrid(j, g, d, m);
    if 2 * k + 1 < 2 * j - 1 {
      GridIncreasing(2 * k + 1, 2 * j - 1, g, d, m);
    }
  }

  /** At most one band holds a given frequency. */
  lemma BandUnique(f: real, k: int, j: int, g: real, d: real, m: Transcendentals)
    requires d > 0.0 && g > 1.0 && Exponential(m, g)
    requires InBand(f, GetBands(k, g, d, m)) && InBand(f, GetBands(j, g, d, m))
    ensures k == j
  {
    if k < j {
      BandsBelow(k, j, g, d, m);
    } else if j < k {
      BandsBelow(j, k, g, d, m);
    }
  }

  /** The loop of `getBandIndexByFrequency` from band k: step down while f is below the band,
      up while it is above, stop when it is strictly inside. When f sits exactly on an edge
      neither test fires and the loop spins in place; the model gives up after `fuel` passes. */
  function SearchFrom(f: real, g: real, d: real, m: Transcendentals, k: int, fuel: nat): (r: Option<int>)
    requires d != 0.0
    ensures r.Some? ==> InBand(f, GetBands(r.value, g, d, m))
    decreases fuel
  {
    var b := GetBands(k, g, d, m);
    if InBand(f, b) then Some(k)
    else if fuel == 0 then None
    else SearchFrom(f, g, d, m, if f < b.fMin then k - 1 else if f > b.fMax then k + 1 else k, fuel - 1)
  }

  /** `getBandIndexByFrequency`: the search starts from band 0. */
  function BandIndexByFrequency(f: real, g: real, d: real, m: Transcendentals, fuel: nat): (r: Option<int>)
    requires d != 0.0
    ensures r.Some? ==> InBand(f, GetBands(r.value, g, d, m))
  {
    SearchFrom(f, g, d, m, 0, fuel)
  }

  /** The search terminates: when band t holds f, a search from band k reaches it after |t − k|
      passes, moving one band at a time towards it. */
  lemma {:induction false} SearchFinds(f: real, g: real, d: real, m: Transcendentals, t: int, k: int, fuel: nat)
    requires d > 0.0 && g > 1.0 && Exponential(m, g)
    requires InBand(f, GetBands(t, g, d, m))
    requires fuel >= if t >= k then t - k else k - t
    ensures SearchFrom(f, g, d, m, k, fuel) == Some(t)
    decreases fuel
  {
    var b := GetBands(k, g, d, m);
    if k < t {
      BandsBelow(k, t, g, d, m);
      BandOrdered(k, g, d, m);
      assert !InBand(f, b) && !(f < b.fMin) && f > b.fMax;
      SearchFinds(f, g, d, m, t, k + 1, fuel - 1);
    } else if t < k {
      BandsBelow(t, k, g, d, m);
      assert !InBand(f, b) && f < b.fMin;
      SearchFinds(f, g, d, m, t, k - 1, fuel - 1);
    }
  }

  /** A frequency on an edge is in no band, so the search never succeeds, however long it runs. */
  lemma OnEdgeNeverFound(f: real, g: real, d: real, m: Transcendentals, j: int, fuel: nat)
    requires d > 0.0 && g > 1.0 && Exponential(m, g)
    requires f == GetBands(j, g, d, m).fMax
    ensures BandIndexByFrequency(f, g, d, m, fuel) == None
  {
    var r := BandIndexByFrequency(f, g, d, m, fuel);
    if r.Some? {
      var k := r.value;
      if k <= j {
        if k < j {
          BandsBelow(k, j, g, d, m);
          BandOrdered(j, g, d, m);
        }
      } else {
        BandsBelow(j, k, g, d, m);
      }
      assert false;
    }
  }

  /** `Array(count) { i -> FrequencyBand(getBands(i + first), 0.0) }`: `count` consecutive bands
      from band `first`, with spl 0. */
  function BandTable(first: int, count: nat, g: real, d: real, m: Transcendentals): (t: seq<FrequencyBand>)
    requires d != 0.0
    ensures |t| == count
    ensures forall i :: 0 <= i < count ==> t[i] == EmptyBand(GetBands(first + i, g, d, m))
  {
    seq(count, bandIndex => EmptyBand(GetBands(first + bandIndex, g, d, m)))
  }

  /** `emptyFrequencyBands`: the bands from the one holding `first` up to, but excluding, the one
      holding `last`. A search that does not end fails with `Diverges`; a last band below the
      first one makes the array size negative. */
  function EmptyFrequencyBands(first: real, last: real, base: BaseMethod, d: real, m: Transcendentals, fuel: nat)
    : (r: Result<seq<FrequencyBand>>)
    requires d != 0.0
    ensures var g := Growth(base, m);
            var i0 := BandIndexByFrequency(first, g, d, m, fuel);
            var i1 := BandIndexByFrequency(last, g, d, m, fuel);
            && (r == Failure(Diverges) <==> i0.None? || i1.None?)
            && (r == Failure(NegativeArraySize) <==> i0.Some? && i1.Some? && i1.value < i0.value)
            && (r.Success? ==> r.value == BandTable(i0.value, i1.value - i0.value, g, d, m))
  {
    var g := Growth(base, m);
    match (BandIndexByFrequency(first, g, d, m, fuel), BandIndexByFrequency(last, g, d, m, fuel))
    case (Some(firstBandIndex), Some(lastBandIndex)) =>
      if lastBandIndex - firstBandIndex < 0 then Failure(NegativeArraySize)
      else Success(BandTable(firstBandIndex, lastBandIndex - firstBandIndex, g, d, m))
    case _ => Failure(Diverges)
  }

  function EmptyBand(e: Edges): (b: FrequencyBand)
    ensures BandOf(b) == e && b.spl == 0.0
  {
    FrequencyBand(e.fMin, e.fMid, e.fMax, 0.0)
  }

  function BandOf(b: FrequencyBand): Edges {
    Edges(b.minFrequency, b.midFrequency, b.maxFrequency)
  }

  /** A band table tiles the frequency axis: consecutive bands share an edge and rise. */
  lemma BandTableTiles(first: int, count: nat, g: real, d: real, m: Transcendentals)
    requires d > 0.0 && g > 1.0 && Exponential(m, g)
    ensures var t := BandTable(first, count, g, d, m);
            forall i :: 0 <= i < count - 1 ==>
              t[i].maxFrequency == t[i + 1].minFrequency && t[i].midFrequency < t[i + 1].midFrequency
  {
    var t := BandTable(first, count, g, d, m);
    forall i | 0 <= i < count - 1
      ensures t[i].maxFrequency == t[i + 1].minFrequency && t[i].midFrequency < t[i + 1].midFrequency
    {
      assert BandOf(t[i]) == GetBands(first + i, g, d, m);
      assert BandOf(t[i + 1]) == GetBands(first + i + 1, g, d, m);
      SharedEdge(first + i, g, d, m);
      BandsBelow(first + i, first + i + 1, g, d, m);
      BandOrdered(first + i, g, d, m);
      BandOrdered(first + i + 1, g, d, m);
    }
  }

  /** The bands `emptyFrequencyBands` returns tile the axis. */
  lemma EmptyBandsTile(first: real, last: real, base: BaseMethod, d: real, m: Transcendentals, fuel: nat)
    requires d > 0.0 && Growth(base, m) > 1.0 && Exponential(m, Growth(base, m))
    requires EmptyFrequencyBands(first, last, base, d, m, fuel).Success?
    ensures var bands := EmptyFrequencyBands(first, last, base, d, m, fuel).value;
            forall i :: 0 <= i < |bands| - 1 ==>
              bands[i].maxFrequency == bands[i + 1].minFrequency && bands[i].midFrequency < bands[i + 1].midFrequency
  {
    var g := Growth(base, m);
    var i0 := BandIndexByFrequency(first, g, d, m, fuel).value;
    var i1 := BandIndexByFrequency(last, g, d, m, fuel).value;
    BandTableTiles(i0, i1 - i0, g, d, m);
  }

  /** The first band holds `first`, and every band lies below `last`: the band holding `last`
      is not part of the table. */
  lemma EmptyBandsSpan(first: real, last: real, base: BaseMethod, d: real, m: Transcendentals, fuel: nat)
    requires d > 0.0 && Growth(base, m) > 1.0 && Exponential(m, Growth(base, m))
    requires EmptyFrequencyBands(first, last, base, d, m, fuel).Success?
    ensures var bands := EmptyFrequencyBands(first, last, base, d, m, fuel).value;
            && (|bands| > 0 ==> bands[0].minFrequency < first < bands[0].maxFrequency)
            && (forall i :: 0 <= i < |bands| ==> bands[i].maxFrequency < last)
  {
    var g := Growth(base, m);
    var i0 := BandIndexByFrequency(first, g, d, m, fuel).value;
    var i1 := BandIndexByFrequency(last, g, d, m, fuel).value;
    var bands := BandTable(i0, i1 - i0, g, d, m);
    forall i | 0 <= i < |bands|
      ensures bands[i].maxFrequency < last
    {
      BandsBelow(i0 + i, i1, g, d, m);
    }
  }
}
