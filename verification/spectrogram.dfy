/** The spectrogram shown on the measurement screen: a BMP image in a byte array, one column
    of pixels per pushed spectrum, written at a column that advances with every push. */
module Spectrograms {
  import opened Wrappers
  import opened Numerics
  import opened Radix2
  import opened Bitmaps

  datatype ScaleMode = ScaleLinear | ScaleLog

  /** `SpectrogramDataModel`: the image size, its bytes (header then pixels), the number of
      columns pushed so far, the frequency axis scale and the sample rate. */
  datatype SpectrogramData = SpectrogramData(
    width: Int32,
    height: Int32,
    bytes: seq<Byte>,
    offset: Int32,
    scaleMode: ScaleMode,
    sampleRate: real)

  /** The header size, and where the pixel data starts. */
  const HEADER: nat := 138

  /** Field positions in the header: file size, width, height and raw pixel size. */
  const SIZE_INDEX: nat := 2
  const WIDTH_INDEX: nat := 18
  const HEIGHT_INDEX: nat := 22
  const RAW_SIZE_INDEX: nat := 34

  /** `createSpectrogram`: an array of 138 + 4·width·height bytes (in `Int` arithmetic) holding
      the header with the file size, width, height and raw size fields filled in. A negative
      length cannot be allocated; one below 138 cannot take the header. */
  function Create(width: Int32, height: Int32, scaleMode: ScaleMode, sampleRate: real)
    : (r: Result<SpectrogramData>)
    ensures r.Success? ==> r.value.width == width && r.value.height == height
    ensures r.Success? ==> r.value.offset == 0 && r.value.scaleMode == scaleMode
    ensures r.Success? ==> r.value.sampleRate == sampleRate && |r.value.bytes| >= HEADER
  {
    var length := Wrap32(HEADER + Wrap32(Wrap32(4 * width) * height));
    if length < 0 then Failure(NegativeArraySize)
    else if length < HEADER then Failure(IndexOutOfBounds)
    else
      var raw := Wrap32(Wrap32(width * height) * 4);
      Success(SpectrogramData(width, height, Fill(length, raw, width, height), 0, scaleMode, sampleRate))
  }

  /** The header copied into `length` zero bytes, then the raw size, file size (raw + 138),
      width and height fields written over it, in that order. */
  function Fill(length: nat, raw: Int32, width: Int32, height: Int32): (b: seq<Byte>)
    requires length >= HEADER
    ensures |b| == length
  {
    var blank := BmpHeader + ZeroBytes(length - HEADER);
    var b0 := Put(blank, RAW_SIZE_INDEX, LittleEndianBytes(raw));
    var b1 := Put(b0, SIZE_INDEX, LittleEndianBytes(Wrap32(raw + HEADER)));
    var b2 := Put(b1, WIDTH_INDEX, LittleEndianBytes(width));
    Put(b2, HEIGHT_INDEX, LittleEndianBytes(height))
  }

  /** The four fields read back as written, and every other byte is the template's. */
  lemma FillSpec(length: nat, raw: Int32, width: Int32, height: Int32)
    requires length >= HEADER
    ensures var b := Fill(length, raw, width, height);
      && ReadLittleEndian(b, SIZE_INDEX) == Wrap32(raw + HEADER)
      && ReadLittleEndian(b, WIDTH_INDEX) == width
      && ReadLittleEndian(b, HEIGHT_INDEX) == height
      && ReadLittleEndian(b, RAW_SIZE_INDEX) == raw
      && (forall i :: 0 <= i < HEADER && Unfilled(i) ==> b[i] == BmpHeader[i])
      && (forall i :: HEADER <= i < length ==> b[i] == 0)
  {
    var blank := BmpHeader + ZeroBytes(length - HEADER);
    var b0 := Put(blank, RAW_SIZE_INDEX, LittleEndianBytes(raw));
    var b1 := Put(b0, SIZE_INDEX, LittleEndianBytes(Wrap32(raw + HEADER)));
    var b2 := Put(b1, WIDTH_INDEX, LittleEndianBytes(width));
    ReadPut(b2, HEIGHT_INDEX, height);
    ReadPut(b1, WIDTH_INDEX, width);
    ReadOther(b2, HEIGHT_INDEX, LittleEndianBytes(height), WIDTH_INDEX);
    ReadPut(b0, SIZE_INDEX, Wrap32(raw + HEADER));
    ReadOther(b1, WIDTH_INDEX, LittleEndianBytes(width), SIZE_INDEX);
    ReadOther(b2, HEIGHT_INDEX, LittleEndianBytes(height), SIZE_INDEX);
    ReadPut(blank, RAW_SIZE_INDEX, raw);
    ReadOther(b0, SIZE_INDEX, LittleEndianBytes(Wrap32(raw + HEADER)), RAW_SIZE_INDEX);
    ReadOther(b1, WIDTH_INDEX, LittleEndianBytes(width), RAW_SIZE_INDEX);
    ReadOther(b2, HEIGHT_INDEX, LittleEndianBytes(height), RAW_SIZE_INDEX);
  }

  /** The pixel byte count of an image whose sizes fit in `Int` arithmetic. */
  function PixelBytes(width: nat, height: nat): nat {
    4 * (width * height)
  }

  /** A header byte outside the four fields `Create` fills in. */
  predicate Unfilled(i: nat) {
    !(SIZE_INDEX <= i < SIZE_INDEX + 4) && !(WIDTH_INDEX <= i < HEIGHT_INDEX + 4)
    && !(RAW_SIZE_INDEX <= i < RAW_SIZE_INDEX + 4)
  }

  /** When the byte count fits in an `Int`, neither size product wraps. */
  lemma SizesFit(width: nat, height: nat)
    requires HEADER + PixelBytes(width, height) <= INT_MAX
    ensures Wrap32(HEADER + Wrap32(Wrap32(4 * width) * height)) == HEADER + PixelBytes(width, height)
    ensures Wrap32(Wrap32(width * height) * 4) == PixelBytes(width, height)
  {
    var wh := width * height;
    if height > 0 {
      MulAtLeast(height, width);
      assert width <= height * width == wh;
      assert 4 * width * height == 4 * wh;
      assert Wrap32(4 * width) == 4 * width;
    } else {
      assert Wrap32(4 * width) * height == 0;
    }
    assert Wrap32(wh) == wh;
  }

  /** For sizes whose byte count fits in an `Int`, `Create` succeeds with an image of exactly
      that many pixel bytes after the header, all zero; the header decodes to the file size,
      the width, the height and the raw size, and is the template everywhere else. */
  lemma CreateSpec(width: Int32, height: Int32, scaleMode: ScaleMode, sampleRate: real)
    requires 0 <= width && 0 <= height && HEADER + PixelBytes(width, height) <= INT_MAX
    ensures Create(width, height, scaleMode, sampleRate).Success?
    ensures var b := Create(width, height, scaleMode, sampleRate).value.bytes;
      && |b| == HEADER + PixelBytes(width, height)
      && ReadLittleEndian(b, SIZE_INDEX) == |b|
      && ReadLittleEndian(b, WIDTH_INDEX) == width
      && ReadLittleEndian(b, HEIGHT_INDEX) == height
      && ReadLittleEndian(b, RAW_SIZE_INDEX) == PixelBytes(width, height)
      && (forall i :: 0 <= i < HEADER && Unfilled(i) ==> b[i] == BmpHeader[i])
      && (forall i :: HEADER <= i < |b| ==> b[i] == 0)
  {
    SizesFit(width, height);
    FillSpec(HEADER + PixelBytes(width, height), PixelBytes(width, height), width, height);
  }

  /** `equals`: two spectrograms are equal when their sizes and bytes are; the column count,
      scale and sample rate are not compared. */
  predicate SameImage(a: SpectrogramData, b: SpectrogramData) {
    a.width == b.width && a.height == b.height && a.bytes == b.bytes
  }

  /** Two fresh spectrograms of one size are equal whatever their scale and sample rate. */
  lemma FreshImagesEqual(width: Int32, height: Int32, m1: ScaleMode, r1: real, m2: ScaleMode, r2: real)
    requires Create(width, height, m1, r1).Success?
    ensures Create(width, height, m2, r2).Success?
    ensures SameImage(Create(width, height, m1, r1).value, Create(width, height, m2, r2).value)
    ensures Create(width, height, m1, r1) != Create(width, height, m2, r2) <==> m1 != m2 || r1 != r2
  {
  }

  // ---------------------------------------------------------------------------------------
  // Pushing a spectrum

  /** One pushed spectrum: the levels of the spectrum cells in dB, and the colour scale. */
  datatype Column = Column(spectrum: seq<real>, mindB: real, rangedB: real, gain: real)

  /** What the push relies on from outside: the kotlin.math functions and the FFT size the
      spectrum was computed with. */
  datatype Setting = Setting(m: Transcendentals, fftSize: nat)

  predicate ValidSetting(d: SpectrogramData, c: Column, s: Setting) {
    s.fftSize > 0 && |c.spectrum| <= INT_MAX && (d.scaleMode == ScaleLog ==> d.sampleRate > 0.0)
  }

  /** The lowest frequency of the logarithmic axis, in Hz. */
  const F_MIN: real := 63.0

  /** Linear axis: pixel row p covers the cells [floor(p·S/h), min((p + 1)·S/h, S)). */
  /** The real position of the lower edge of row p: p·S/h. */
  function RowEdge(size: nat, height: int, p: nat): real
    requires height > 0
  {
    p as real * (size as real / height as real)
  }

  function LinearStart(size: nat, height: int, p: nat): int
    requires height > 0
  {
    SatInt32(Trunc(RowEdge(size, height, p)))
  }

  function LinearEnd(size: nat, height: int, p: nat): int
    requires height > 0
  {
    SatInt32(Trunc(MinReal(RowEdge(size, height, p + 1), size as real)))
  }

  /** The rows of the linear axis tile the spectrum: the first starts at cell 0, each ends where
      the next starts, the last ends at the last cell, and none runs backwards. */
  lemma LinearRangesTile(size: nat, height: int, p: nat)
    requires height > 0 && size <= INT_MAX && p < height
    ensures LinearStart(size, height, 0) == 0
    ensures 0 <= LinearStart(size, height, p) <= LinearEnd(size, height, p) <= size
    ensures p + 1 < height ==> LinearEnd(size, height, p) == LinearStart(size, height, p + 1)
    ensures p + 1 == height ==> LinearEnd(size, height, p) == size
  {
    RowCells(size, height, p);
    CellsOrdered(RowEdge(size, height, p), RowEdge(size, height, p + 1), size);
  }

  /** Cells of an interval [x, y] inside [0, S], rounded toward zero. */
  lemma CellsOrdered(x: real, y: real, size: nat)
    requires 0.0 <= x <= y <= size as real && size <= INT_MAX
    ensures 0 <= SatInt32(Trunc(x)) <= SatInt32(Trunc(MinReal(y, size as real))) <= size
    ensures SatInt32(Trunc(MinReal(y, size as real))) == SatInt32(Trunc(y))
    ensures y == size as real ==> SatInt32(Trunc(y)) == size
  {
    TruncMonotone(x, y);
    TruncMonotone(y, size as real);
    assert Trunc(size as real) == size;
  }

  /** Row p of the linear axis covers the real interval [p·S/h, (p + 1)·S/h] inside [0, S]. */
  lemma RowCells(size: nat, height: int, p: nat)
    requires height > 0 && p < height
    ensures 0.0 <= RowEdge(size, height, p) <= RowEdge(size, height, p + 1) <= size as real
    ensures p + 1 == height ==> RowEdge(size, height, p + 1) == size as real
  {
    var fbp := size as real / height as real;
    assert height as real * fbp == size as real && fbp >= 0.0;
    ScaleAtMost((p + 1) as real, height as real, fbp);
    ScaleAtMost(p as real, (p + 1) as real, fbp);
    ScaleAtMost(0.0, p as real, fbp);
  }

  /** Logarithmic axis: the frequency of pixel row p, 63 Hz · (fs/2 / 63 Hz)^(p/h). */
  function LogFrequency(m: Transcendentals, sampleRate: real, height: int, p: nat): real
    requires height > 0
  {
    F_MIN * Exp10(m, p as real * m.log10(sampleRate / 2.0 / F_MIN) / height as real)
  }

  /** The spectrum cell of that frequency, `(f / hertzBySpectrumCell).toInt()`. */
  function LogCell(s: Setting, sampleRate: real, height: int, p: nat): Int32
    requires height > 0 && sampleRate > 0.0 && s.fftSize > 0
  {
    SatInt32(Trunc(LogFrequency(s.m, sampleRate, height, p) / (sampleRate / s.fftSize as real)))
  }

  /** Row p starts where row p − 1 said the next one starts (0 for the first row) and ends one
      cell past its own frequency's cell, both limited to the spectrum. */
  function LogStart(s: Setting, sampleRate: real, size: nat, height: int, p: nat): int
    requires height > 0 && sampleRate > 0.0 && s.fftSize > 0
  {
    if p == 0 then 0 else Min(size, LogCell(s, sampleRate, height, p - 1))
  }

  function LogEnd(s: Setting, sampleRate: real, size: nat, height: int, p: nat): int
    requires height > 0 && sampleRate > 0.0 && s.fftSize > 0
  {
    Min(size, Wrap32(LogCell(s, sampleRate, height, p) + 1))
  }

  /** Rows of the logarithmic axis overlap by at most one cell: each ends at most one cell past
      where the next begins, and never past the spectrum. When the frequencies rise with the row,
      the starts do too. */
  lemma LogRangesChain(s: Setting, sampleRate: real, size: nat, height: int, p: nat)
    requires height > 0 && sampleRate > 0.0 && s.fftSize > 0 && size <= INT_MAX
    requires LogCell(s, sampleRate, height, p) < INT_MAX
    ensures LogEnd(s, sampleRate, size, height, p) <= size
    ensures LogStart(s, sampleRate, size, height, p + 1) <= LogEnd(s, sampleRate, size, height, p)
      <= LogStart(s, sampleRate, size, height, p + 1) + 1
    ensures p > 0 && LogFrequency(s.m, sampleRate, height, p - 1) <= LogFrequency(s.m, sampleRate, height, p)
      ==> LogStart(s, sampleRate, size, height, p) <= LogStart(s, sampleRate, size, height, p + 1)
  {
    if p > 0 && LogFrequency(s.m, sampleRate, height, p - 1) <= LogFrequency(s.m, sampleRate, height, p) {
      var hz := sampleRate / s.fftSize as real;
      DivideMonotone(LogFrequency(s.m, sampleRate, height, p - 1), LogFrequency(s.m, sampleRate, height, p), hz);
      TruncMonotone(LogFrequency(s.m, sampleRate, height, p - 1) / hz, LogFrequency(s.m, sampleRate, height, p) / hz);
    }
  }

  lemma ScaleAtMost(a: real, b: real, c: real)
    requires a <= b && c >= 0.0
    ensures a * c <= b * c
  {
    assert b * c - a * c == (b - a) * c;
  }

  lemma DivideMonotone(x: real, y: real, d: real)
    requires x <= y && d > 0.0
    ensures x / d <= y / d
  {
    assert y / d - x / d == (y - x) / d;
  }

  lemma TruncMonotone(x: real, y: real)
    requires x <= y
    ensures Trunc(x) <= Trunc(y)
  {
  }

  /** The cells [start, end) of pixel row p, as the scale mode says. */
  function CellRange(d: SpectrogramData, c: Column, s: Setting, p: nat): (int, int)
    requires ValidSetting(d, c, s) && d.height > 0
  {
    if d.scaleMode == ScaleLog then
      (LogStart(s, d.sampleRate, |c.spectrum|, d.height, p), LogEnd(s, d.sampleRate, |c.spectrum|, d.height, p))
    else
      (LinearStart(|c.spectrum|, d.height, p), LinearEnd(|c.spectrum|, d.height, p))
  }

  /** Σ 10^(L/10) over the cells [start, end), accumulated from the first. */
  function Energy(m: Transcendentals, spectrum: seq<real>, start: nat, end: nat): real
    requires start <= end <= |spectrum|
    decreases end - start
  {
    if end == start then 0.0 else Energy(m, spectrum, start, end - 1) + Exp10(m, spectrum[end - 1] / 10.0)
  }

  /** The level of a row, max(0, 10·log10(energy / cells) + gain); `None` stands for the NaN
      that 0 / 0 gives when the range is empty. A range that runs backwards sums nothing and
      divides 0 by a negative count, which ends in −∞ and so in 0. Reading a cell before the
      spectrum is an error. */
  function RowLevel(m: Transcendentals, spectrum: seq<real>, start: int, end: int, gain: real)
    : (r: Result<Option<real>>)
    requires end <= |spectrum|
    ensures r.Failure? <==> start < end && start < 0
    ensures r.Failure? ==> r.error == IndexOutOfBounds
    ensures r == Success(None) <==> start == end
    ensures r.Success? && r.value.Some? ==> r.value.value >= 0.0
  {
    if start == end then Success(None)
    else if end < start then Success(Some(0.0))
    else if start < 0 then Failure(IndexOutOfBounds)
    else
      var energy := Energy(m, spectrum, start, end);
      Success(Some(MaxReal(0.0, 10.0 * m.log10(energy / (end - start) as real) + gain)))
  }

  /** The ramp entry of a level: its place between mindB and mindB + rangedB in 17 steps,
      limited to the ramp. NaN converts to 0; a zero range divides to ±∞ (or NaN when the
      level is mindB), which converts to the ends of `Int`. */
  function ColorIndex(level: Option<real>, mindB: real, rangedB: real): (i: nat)
    ensures i < |RampText|
  {
    match level
    case None => 0
    case Some(v) =>
      if rangedB == 0.0 then (if v > mindB then |RampText| - 1 else 0)
      else ClampToRamp(SatInt32(Trunc((v - mindB) / rangedB * |RampText| as real)))
  }

  /** With a positive range, levels at or below mindB take the first colour, levels at or above
      mindB + rangedB the last, and levels in between the step they fall in; so the colour
      never goes down as the level goes up. */
  lemma ColorIndexSpec(v: real, mindB: real, rangedB: real)
    requires rangedB > 0.0
    ensures v <= mindB ==> ColorIndex(Some(v), mindB, rangedB) == 0
    ensures v >= mindB + rangedB ==> ColorIndex(Some(v), mindB, rangedB) == |RampText| - 1
    ensures mindB <= v < mindB + rangedB ==>
      ColorIndex(Some(v), mindB, rangedB) == ((v - mindB) / rangedB * |RampText| as real).Floor
  {
    var q := (v - mindB) / rangedB;
    assert q * rangedB == v - mindB;
    if v <= mindB {
      if q > 0.0 {
        ScaleAtMost(0.0, q, rangedB);
        assert false;
      }
    } else if v >= mindB + rangedB {
      if q < 1.0 {
        ScaleAtMost(q, 1.0, rangedB);
        assert false;
      }
    } else {
      if q < 0.0 {
        ScaleAtMost(q, 0.0, rangedB);
        assert false;
      }
      if q >= 1.0 {
        ScaleAtMost(1.0, q, rangedB);
        assert false;
      }
    }
  }

  lemma ColorIndexMonotone(v: real, w: real, mindB: real, rangedB: real)
    requires rangedB > 0.0 && v <= w
    ensures ColorIndex(Some(v), mindB, rangedB) <= ColorIndex(Some(w), mindB, rangedB)
  {
    DivideMonotone(v - mindB, w - mindB, rangedB);
    assert (v - mindB) / rangedB * 17.0 <= (w - mindB) / rangedB * 17.0;
    TruncMonotone((v - mindB) / rangedB * 17.0, (w - mindB) / rangedB * 17.0);
  }

  /** The ramp entry of pixel row p, or the error reading its cells raises. */
  function RowColor(d: SpectrogramData, c: Column, s: Setting, p: nat): (r: Result<nat>)
    requires ValidSetting(d, c, s) && d.height > 0
    ensures r.Success? ==> r.value < |RampText|
  {
    var (start, end) := CellRange(d, c, s, p);
    var level :- RowLevel(s.m, c.spectrum, start, end, c.gain);
    Success(ColorIndex(level, c.mindB, c.rangedB))
  }

  /** Every row's cells can be read: none starts before the spectrum. */
  predicate Readable(d: SpectrogramData, c: Column, s: Setting)
    requires ValidSetting(d, c, s)
  {
    forall p: nat :: p < d.height ==> RowColor(d, c, s, p).Success?
  }

  /** On the linear axis every row can be read. */
  lemma LinearReadable(d: SpectrogramData, c: Column, s: Setting)
    requires ValidSetting(d, c, s) && d.scaleMode == ScaleLinear
    ensures Readable(d, c, s)
  {
    forall p: nat | p < d.height
      ensures RowColor(d, c, s, p).Success?
    {
      LinearRangesTile(|c.spectrum|, d.height, p);
    }
  }

  /** `bmpHeader.size + width·4·pixel + (offset % width)·4`, in `Int` arithmetic. */
  function PixelIndex(width: Int32, offset: Int32, p: Int32): Int32
    requires width != 0
  {
    Wrap32(Wrap32(HEADER + Wrap32(Wrap32(width * 4) * p)) + Wrap32(Rem(offset, width) * 4))
  }

  /** A spectrogram as `Create` makes it and pushes keep it, short of 2^31 pushes: a positive
      width, a byte count that fits in `Int`, and a non-negative column count. */
  predicate WellFormed(d: SpectrogramData) {
    0 < d.width && 0 <= d.height && HEADER + PixelBytes(d.width, d.height) <= INT_MAX
    && |d.bytes| == HEADER + PixelBytes(d.width, d.height) && d.offset >= 0
  }

  /** Fresh spectrograms with a positive width are well formed. */
  lemma CreateWellFormed(width: Int32, height: Int32, scaleMode: ScaleMode, sampleRate: real)
    requires 0 < width && 0 <= height && HEADER + PixelBytes(width, height) <= INT_MAX
    ensures Create(width, height, scaleMode, sampleRate).Success?
    ensures WellFormed(Create(width, height, scaleMode, sampleRate).value)
  {
    CreateSpec(width, height, scaleMode, sampleRate);
  }

  /** In a well-formed spectrogram, row p of the current column is the four bytes at
      138 + 4·(width·p + offset mod width), inside the array. */
  lemma PixelAt(d: SpectrogramData, p: nat)
    requires WellFormed(d) && p < d.height
    ensures PixelIndex(d.width, d.offset, p) == HEADER + 4 * (d.width * p + d.offset % d.width)
    ensures HEADER <= PixelIndex(d.width, d.offset, p) && PixelIndex(d.width, d.offset, p) + 4 <= |d.bytes|
  {
    var w, h := d.width, d.height;
    var col := d.offset % w;
    ColumnBytes(w, h, p, col);
    var wp, wh := w * p, w * h;
    var a := Wrap32(w * 4);
    assert a == w * 4;
    var b := Wrap32(a * p);
    assert b == 4 * wp;
    var c := Wrap32(HEADER + b);
    assert c == HEADER + 4 * wp;
    assert Rem(d.offset, w) == col;
    var e := Wrap32(col * 4);
    assert e == 4 * col;
    assert PixelIndex(w, d.offset, p) == Wrap32(c + e);
    assert |d.bytes| == HEADER + 4 * wh;
    assert c + e + 4 <= |d.bytes|;
  }

  /** Row p, column col of a width × height image ends inside its pixel bytes. */
  lemma ColumnBytes(w: nat, h: nat, p: nat, col: nat)
    requires 0 < w && p < h && col < w
    ensures 0 <= w * p && 4 * (w * p + col) + 4 <= 4 * (w * h)
    ensures w * 4 * p == 4 * (w * p) && 4 * w <= 4 * (w * h)
  {
    assert w * h == w * p + w * (h - p);
    MulAtLeast(h - p, w);
    assert w * (h - p) == (h - p) * w;
  }

  /** Different rows of the column do not share bytes. */
  lemma PixelsApart(d: SpectrogramData, p: nat, q: nat)
    requires WellFormed(d) && p < q < d.height
    ensures PixelIndex(d.width, d.offset, p) + 4 <= PixelIndex(d.width, d.offset, q)
  {
    PixelAt(d, p);
    PixelAt(d, q);
    assert d.width * q == d.width * p + d.width * (q - p);
    MulAtLeast(q - p, d.width);
    assert d.width * (q - p) == (q - p) * d.width;
  }

  /** Byte i is outside the pixels of rows [0, n) of the current column. */
  predicate Untouched(d: SpectrogramData, i: int, n: int) {
    d.width == 0 || forall p: Int32 :: 0 <= p < n ==> !(PixelIndex(d.width, d.offset, p) <= i < PixelIndex(d.width, d.offset, p) + 4)
  }

  /** Row p of the current column holds its ramp colour. */
  predicate Painted(d: SpectrogramData, c: Column, s: Setting, bytes: seq<Byte>, p: Int32)
    requires ValidSetting(d, c, s) && d.width != 0 && 0 <= p < d.height
  {
    var at := PixelIndex(d.width, d.offset, p);
    && RowColor(d, c, s, p).Success?
    && 0 <= at && at + 4 <= |bytes|
    && ReadLittleEndian(bytes, at) == RampColor(RowColor(d, c, s, p).value)
  }

  /** One pass of the loop: row p of the current column gets its colour as four
      little-endian bytes; the colour is worked out before `offset % width` can fail. */
  function PaintRow(d: SpectrogramData, c: Column, s: Setting, bytes: seq<Byte>, p: Int32)
    : (r: Result<seq<Byte>>)
    requires ValidSetting(d, c, s) && 0 <= p < d.height
    ensures r.Success? ==> d.width != 0 && |r.value| == |bytes|
    ensures r.Success? ==> forall i :: 0 <= i < |bytes| && !(PixelIndex(d.width, d.offset, p) <= i < PixelIndex(d.width, d.offset, p) + 4)
                                     ==> r.value[i] == bytes[i]
    ensures r.Success? ==> Painted(d, c, s, r.value, p)
  {
    var color :- RowColor(d, c, s, p);
    if d.width == 0 then Failure(ArithmeticError)
    else
      var at := PixelIndex(d.width, d.offset, p);
      if at < 0 || at + 4 > |bytes| then Failure(IndexOutOfBounds)
      else
        ReadPut(bytes, at, RampColor(color));
        Success(Put(bytes, at, LittleEndianBytes(RampColor(color))))
  }

  /** In a well-formed spectrogram a row whose cells can be read is painted. */
  lemma PaintRowSucceeds(d: SpectrogramData, c: Column, s: Setting, bytes: seq<Byte>, p: Int32)
    requires ValidSetting(d, c, s) && 0 <= p < d.height
    requires WellFormed(d) && |bytes| == |d.bytes| && RowColor(d, c, s, p).Success?
    ensures PaintRow(d, c, s, bytes, p).Success?
  {
    PixelAt(d, p);
  }

  /** Painting a later row leaves an earlier one painted. */
  lemma PaintKeeps(d: SpectrogramData, c: Column, s: Setting, bytes: seq<Byte>, p: Int32, q: Int32)
    requires ValidSetting(d, c, s) && 0 <= q < p < d.height && WellFormed(d)
    requires PaintRow(d, c, s, bytes, p).Success? && Painted(d, c, s, bytes, q)
    ensures Painted(d, c, s, PaintRow(d, c, s, bytes, p).value, q)
  {
    PixelsApart(d, q, p);
    var color := RowColor(d, c, s, p).value;
    var at := PixelIndex(d.width, d.offset, p);
    assert PaintRow(d, c, s, bytes, p).value == Put(bytes, at, LittleEndianBytes(RampColor(color)));
    ReadOther(bytes, at, LittleEndianBytes(RampColor(color)), PixelIndex(d.width, d.offset, q));
  }

  /** The state after rows [0, n) of the column are written. */
  ghost predicate Progress(d: SpectrogramData, c: Column, s: Setting, bytes: seq<Byte>, n: Int32)
    requires ValidSetting(d, c, s)
  {
    && |bytes| == |d.bytes|
    && (n > 0 ==> d.width != 0)
    && (forall i :: 0 <= i < |bytes| && Untouched(d, i, n) ==> bytes[i] == d.bytes[i])
    && (WellFormed(d) ==> n <= d.height && forall q: Int32 :: 0 <= q < n ==> Painted(d, c, s, bytes, q))
  }

  lemma ProgressStep(d: SpectrogramData, c: Column, s: Setting, bytes: seq<Byte>, p: Int32)
    requires ValidSetting(d, c, s) && 0 <= p < d.height && p + 1 <= INT_MAX
    requires Progress(d, c, s, bytes, p) && PaintRow(d, c, s, bytes, p).Success?
    ensures Progress(d, c, s, PaintRow(d, c, s, bytes, p).value, p + 1)
  {
    var next := PaintRow(d, c, s, bytes, p).value;
    forall i | 0 <= i < |next| && Untouched(d, i, p + 1)
      ensures next[i] == d.bytes[i]
    {
      assert !(PixelIndex(d.width, d.offset, p) <= i < PixelIndex(d.width, d.offset, p) + 4);
      assert Untouched(d, i, p);
    }
    if WellFormed(d) {
      forall q: Int32 | 0 <= q < p + 1
        ensures Painted(d, c, s, next, q)
      {
        if q < p {
          PaintKeeps(d, c, s, bytes, p, q);
        }
      }
    }
  }

  /** `pushSpectrumToSpectrogramData`: paints the column `offset mod width` row by row from the
      spectrum, then advances the column count (wrapping in `Int`). Only the bytes of that
      column change; in a well-formed spectrogram whose rows can all be read the push succeeds
      and every row holds the colour of its level. */
  method Push(d: SpectrogramData, c: Column, s: Setting) returns (r: Result<SpectrogramData>)
    requires ValidSetting(d, c, s)
    ensures r.Success? ==> r.value == d.(bytes := r.value.bytes, offset := Wrap32(d.offset + 1))
    ensures r.Success? ==> |r.value.bytes| == |d.bytes|
    ensures r.Success? && d.height > 0 ==> d.width != 0
    ensures r.Success? ==>
      forall i :: 0 <= i < |d.bytes| && Untouched(d, i, d.height) ==> r.value.bytes[i] == d.bytes[i]
    ensures r.Success? && WellFormed(d) ==>
      forall p: Int32 :: 0 <= p < d.height ==> Painted(d, c, s, r.value.bytes, p)
    ensures WellFormed(d) && Readable(d, c, s) ==> r.Success?
  {
    if d.height <= 0 {
      return Success(d.(offset := Wrap32(d.offset + 1)));
    }
    var bytes := d.bytes;
    var p: Int32 := 0;
    while p < d.height
      invariant 0 <= p <= d.height
      invariant Progress(d, c, s, bytes, p)
    {
      var painted := PaintRow(d, c, s, bytes, p);
      if painted.Failure? {
        if WellFormed(d) && Readable(d, c, s) {
          PaintRowSucceeds(d, c, s, bytes, p);
        }
        return Failure(painted.error);
      }
      ProgressStep(d, c, s, bytes, p);
      bytes := painted.value;
      p := p + 1;
    }
    return Success(d.(bytes := bytes, offset := Wrap32(d.offset + 1)));
  }
}
