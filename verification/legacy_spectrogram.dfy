/** The earlier spectrogram bitmap of the shared module: the image scrolls left by one pixel
    per pushed spectrum and the new column is written at the right edge. */
module LegacySpectrograms {
  import opened Wrappers
  import opened Numerics
  import opened Radix2
  import opened Bitmaps
  import opened Spectrograms

  /** `SpectrogramDataModel` of the shared module: the image size and its bytes. */
  datatype LegacyData = LegacyData(width: Int32, height: Int32, bytes: seq<Byte>)

  /** `createSpectrogram` as written: the array length is the product
      bmpHeader.size · 4 · width · height (in `Int` arithmetic), and only the header template is
      copied in. A length below 138 cannot take the header. */
  function CreateAsWritten(width: Int32, height: Int32): (r: Result<LegacyData>)
    ensures r.Success? ==> r.value.width == width && r.value.height == height
    ensures r.Success? ==> |r.value.bytes| >= HEADER && r.value.bytes[..HEADER] == BmpHeader
  {
    var length := Wrap32(Wrap32(Wrap32(HEADER * 4) * width) * height);
    if length < 0 then Failure(NegativeArraySize)
    else if length < HEADER then Failure(IndexOutOfBounds)
    else Success(LegacyData(width, height, BmpHeader + ZeroBytes(length - HEADER)))
  }

  /** The product cannot hold an empty image: a zero width or height makes the array empty and
      copying the header into it fails; a 1 × 1 image gets 552 bytes where 142 are used. */
  lemma CreateAsWrittenMisSized(height: Int32)
    ensures CreateAsWritten(0, height) == Failure(IndexOutOfBounds)
    ensures CreateAsWritten(1, 1).Success? && |CreateAsWritten(1, 1).value.bytes| == 552
    ensures Create(0, 0).Success? && |Create(0, 0).value.bytes| == HEADER
  {
  }

  /** The array the header and width·height pixels need, 138 + 4·width·height bytes, holding
      the header template then zero pixels. */
  function Create(width: Int32, height: Int32): (r: Result<LegacyData>)
    ensures r.Success? ==> r.value.width == width && r.value.height == height
  {
    var length := Wrap32(HEADER + Wrap32(Wrap32(4 * width) * height));
    if length < 0 then Failure(NegativeArraySize)
    else if length < HEADER then Failure(IndexOutOfBounds)
    else Success(LegacyData(width, height, BmpHeader + ZeroBytes(length - HEADER)))
  }

  /** For sizes whose byte count fits in an `Int`, the array is exactly header plus pixels, and
      the image is well formed when it has a width. */
  lemma CreateSpec(width: Int32, height: Int32)
    requires 0 <= width && 0 <= height && HEADER + PixelBytes(width, height) <= INT_MAX
    ensures Create(width, height).Success?
    ensures var b := Create(width, height).value.bytes;
      |b| == HEADER + PixelBytes(width, height) && b[..HEADER] == BmpHeader
      && forall i :: HEADER <= i < |b| ==> b[i] == 0
    ensures width > 0 ==> WellFormed(Create(width, height).value)
  {
    SizesFit(width, height);
    var b := Create(width, height).value.bytes;
    assert b == BmpHeader + ZeroBytes(PixelBytes(width, height));
    assert b[..HEADER] == BmpHeader;
  }

  // ---------------------------------------------------------------------------------------
  // Geometry

  /** Byte j of row r of the pixel data: 138 + 4·r·width + j. */
  function At(width: int, r: int, j: int): int {
    HEADER + 4 * (r * width) + j
  }

  /** A positive width, a byte count that fits in `Int`, and an array at least that long. */
  predicate WellFormed(d: LegacyData) {
    0 < d.width && 0 <= d.height && HEADER + PixelBytes(d.width, d.height) <= INT_MAX
    && |d.bytes| >= HEADER + PixelBytes(d.width, d.height)
  }

  /** Row r of a well-formed image lies inside the array, after the header, and the next row
      starts right after it. */
  lemma RowInside(d: LegacyData, r: int)
    requires WellFormed(d) && 0 <= r < d.height
    ensures HEADER <= At(d.width, r, 0) && At(d.width, r, 4 * d.width) <= HEADER + PixelBytes(d.width, d.height)
    ensures At(d.width, r + 1, 0) == At(d.width, r, 4 * d.width)
  {
    var w, h := d.width, d.height;
    assert (r + 1) * w == r * w + w;
    assert w * h == (r + 1) * w + (h - r - 1) * w;
    MulAtLeast(w, h - r - 1);
    assert 0 <= r * w;
  }

  /** An earlier row ends before a later one starts. */
  lemma {:induction false} RowsApart(d: LegacyData, r: int, k: int)
    requires WellFormed(d) && 0 <= r < k < d.height
    ensures At(d.width, r, 4 * d.width) <= At(d.width, k, 0)
  {
    RowInside(d, k - 1);
    if r < k - 1 {
      RowsApart(d, r, k - 1);
      RowInside(d, r);
    }
  }

  /** `bmpHeader.size + row·width·4`, in `Int` arithmetic. */
  function RowOffset(width: Int32, row: Int32): Int32 {
    Wrap32(HEADER + Wrap32(Wrap32(row * width) * 4))
  }

  lemma RowOffsetAt(d: LegacyData, r: Int32)
    requires WellFormed(d) && 0 <= r < d.height
    ensures RowOffset(d.width, r) == At(d.width, r, 0)
  {
    RowInside(d, r);
    var rw := r * d.width;
    assert Wrap32(rw) == rw;
    assert Wrap32(rw * 4) == 4 * rw;
  }

  // ---------------------------------------------------------------------------------------
  // Scrolling

  /** `copyInto` inside one array: bytes[start .. end) copied to position `dest`; a range
      outside the array, or one that runs backwards, is an error. */
  function CopyWithin(bytes: seq<Byte>, dest: int, start: int, end: int): (r: Result<seq<Byte>>)
    ensures r.Success? <==> 0 <= start <= end <= |bytes| && 0 <= dest && dest + (end - start) <= |bytes|
    ensures r.Success? ==> |r.value| == |bytes|
    ensures r.Success? ==> forall i :: dest <= i < dest + (end - start) ==> r.value[i] == bytes[start + (i - dest)]
    ensures r.Success? ==> forall i :: 0 <= i < |bytes| && !(dest <= i < dest + (end - start)) ==> r.value[i] == bytes[i]
    ensures r.Failure? ==> r.error == IndexOutOfBounds
  {
    if start < 0 || end > |bytes| || start > end || dest < 0 || dest + (end - start) > |bytes| then
      Failure(IndexOutOfBounds)
    else
      Success(bytes[..dest] + bytes[start..end] + bytes[dest + (end - start)..])
  }

  /** The scroll as written: for every row, the first width − 1 pixels of the first row are
      copied to the start of that row. */
  function ShiftAsWrittenFrom(width: Int32, height: Int32, bytes: seq<Byte>, row: Int32)
    : (r: Result<seq<Byte>>)
    requires 0 <= row
    decreases height - row
  {
    if row >= height then Success(bytes)
    else
      var next :- CopyWithin(bytes, RowOffset(width, row), HEADER, Wrap32(HEADER + Wrap32(Wrap32(width - 1) * 4)));
      ShiftAsWrittenFrom(width, height, next, row + 1)
  }

  function ShiftRowsAsWritten(d: LegacyData): Result<seq<Byte>> {
    ShiftAsWrittenFrom(d.width, d.height, d.bytes, 0)
  }

  /** The scroll the code sets out to do: every row moves one pixel to the left, its first
      pixel dropping out and its last pixel left for the new column. */
  function ShiftFrom(width: Int32, height: Int32, bytes: seq<Byte>, row: Int32): (r: Result<seq<Byte>>)
    requires 0 <= row
    decreases height - row
  {
    if row >= height then Success(bytes)
    else
      var dest := RowOffset(width, row);
      var next :- CopyWithin(bytes, dest, Wrap32(dest + 4), Wrap32(dest + Wrap32(width * 4)));
      ShiftFrom(width, height, next, row + 1)
  }

  function ShiftRows(d: LegacyData): Result<seq<Byte>> {
    ShiftFrom(d.width, d.height, d.bytes, 0)
  }

  /** Byte i lies in none of the first width − 1 pixels of rows [from, to). */
  predicate OutsideShift(width: int, i: int, from: int, to: int) {
    forall r :: from <= r < to ==> !(At(width, r, 0) <= i < At(width, r, 4 * (width - 1)))
  }

  /** Every byte of rows [0, height) lies inside an array of n bytes, after the header. */
  predicate RowsFit(width: int, height: int, n: int) {
    forall r, j :: 0 <= r < height && 0 <= j < 4 * width ==> HEADER <= At(width, r, j) < n
  }

  lemma WellFormedRowsFit(d: LegacyData)
    requires WellFormed(d)
    ensures RowsFit(d.width, d.height, |d.bytes|)
  {
    forall r, j | 0 <= r < d.height && 0 <= j < 4 * d.width
      ensures HEADER <= At(d.width, r, j) < |d.bytes|
    {
      RowInside(d, r);
    }
  }

  /** A byte of a row is outside the scrolled part of every later row. */
  lemma OutsideLaterRows(d: LegacyData, row: int, i: int)
    requires WellFormed(d) && 0 <= row < d.height && i < At(d.width, row, 4 * d.width)
    ensures OutsideShift(d.width, i, row + 1, d.height)
  {
    forall r | row + 1 <= r < d.height
      ensures !(At(d.width, r, 0) <= i < At(d.width, r, 4 * (d.width - 1)))
    {
      RowsApart(d, row, r);
    }
  }

  /** next is bytes with the first width − 1 pixels of row `row` replaced: byte j of that
      stretch is byte `src + j` of bytes, and every other byte is kept. */
  predicate RowReplaced(width: int, row: int, src: int, bytes: seq<Byte>, next: seq<Byte>) {
    && |next| == |bytes|
    && 0 <= At(width, row, 0) && At(width, row, 4 * width) <= |bytes|
    && 0 <= src && src + 4 * (width - 1) <= |bytes|
    && (forall j :: 0 <= j < 4 * (width - 1) ==> next[At(width, row, j)] == bytes[src + j])
    && (forall i :: 0 <= i < |bytes| && !(At(width, row, 0) <= i < At(width, row, 4 * (width - 1))) ==> next[i] == bytes[i])
  }

  /** Copying width − 1 pixels from `src` to the start of a row replaces that row's stretch. */
  lemma CopyRow(width: int, row: int, src: int, end: int, bytes: seq<Byte>)
    requires 0 < width && 0 <= At(width, row, 0) && At(width, row, 4 * width) <= |bytes|
    requires 0 <= src && end == src + 4 * (width - 1) <= |bytes|
    ensures CopyWithin(bytes, At(width, row, 0), src, end).Success?
    ensures RowReplaced(width, row, src, bytes, CopyWithin(bytes, At(width, row, 0), src, end).value)
  {
    var next := CopyWithin(bytes, At(width, row, 0), src, end).value;
    forall j | 0 <= j < 4 * (width - 1)
      ensures next[At(width, row, j)] == bytes[src + j]
    {
      assert At(width, row, j) - At(width, row, 0) == j;
    }
  }

  /** The scroll goes on from the next row once the current one is copied. */
  lemma ShiftUnroll(width: Int32, height: Int32, bytes: seq<Byte>, row: Int32, next: seq<Byte>)
    requires 0 <= row < height
    requires var dest := RowOffset(width, row);
      CopyWithin(bytes, dest, Wrap32(dest + 4), Wrap32(dest + Wrap32(width * 4))) == Success(next)
    ensures ShiftFrom(width, height, bytes, row) == ShiftFrom(width, height, next, row + 1)
  {
  }

  lemma ShiftAsWrittenUnroll(width: Int32, height: Int32, bytes: seq<Byte>, row: Int32, next: seq<Byte>)
    requires 0 <= row < height
    requires CopyWithin(bytes, RowOffset(width, row), HEADER, Wrap32(HEADER + Wrap32(Wrap32(width - 1) * 4))) == Success(next)
    ensures ShiftAsWrittenFrom(width, height, bytes, row) == ShiftAsWrittenFrom(width, height, next, row + 1)
  {
  }

  /** One row of the left shift: its first width − 1 pixels take the bytes one pixel further
      right, and the scroll goes on from the next row. */
  lemma ShiftStep(d: LegacyData, bytes: seq<Byte>, row: Int32)
    requires WellFormed(d) && |bytes| == |d.bytes| && 0 <= row < d.height
    ensures CopyWithin(bytes, At(d.width, row, 0), At(d.width, row, 4), At(d.width, row, 4 * d.width)).Success?
    ensures var next := CopyWithin(bytes, At(d.width, row, 0), At(d.width, row, 4), At(d.width, row, 4 * d.width)).value;
      && RowReplaced(d.width, row, At(d.width, row, 4), bytes, next)
      && ShiftFrom(d.width, d.height, bytes, row) == ShiftFrom(d.width, d.height, next, row + 1)
  {
    var w: int := d.width;
    RowInside(d, row);
    CopyRow(w, row, At(w, row, 4), At(w, row, 4 * w), bytes);
    ShiftUnrollAt(d, bytes, row, CopyWithin(bytes, At(w, row, 0), At(w, row, 4), At(w, row, 4 * w)).value);
  }

  lemma ShiftUnrollAt(d: LegacyData, bytes: seq<Byte>, row: Int32, next: seq<Byte>)
    requires WellFormed(d) && 0 <= row < d.height
    requires CopyWithin(bytes, At(d.width, row, 0), At(d.width, row, 4), At(d.width, row, 4 * d.width)) == Success(next)
    ensures ShiftFrom(d.width, d.height, bytes, row) == ShiftFrom(d.width, d.height, next, row + 1)
  {
    ShiftBounds(d, row);
    ShiftUnroll(d.width, d.height, bytes, row, next);
  }

  /** The 32-bit offsets of the left shift's copy for one row do not wrap. */
  lemma ShiftBounds(d: LegacyData, row: Int32)
    requires WellFormed(d) && 0 <= row < d.height
    ensures var dest := RowOffset(d.width, row);
      && dest == At(d.width, row, 0)
      && Wrap32(dest + 4) == At(d.width, row, 4)
      && Wrap32(dest + Wrap32(d.width * 4)) == At(d.width, row, 4 * d.width)
  {
    RowOffsetAt(d, row);
    RowInside(d, row);
    assert Wrap32(d.width * 4) == 4 * d.width;
  }

  /** s is bytes with rows [row, height) scrolled: each of their first width − 1 pixels holds
      the pixel one further right, and every other byte is kept. */
  predicate ScrolledFrom(width: int, height: int, row: int, bytes: seq<Byte>, s: seq<Byte>) {
    && 0 <= row && |s| == |bytes| && RowsFit(width, height, |bytes|)
    && (forall r, j :: row <= r < height && 0 <= j < 4 * (width - 1) ==> s[At(width, r, j)] == bytes[At(width, r, j + 4)])
    && (forall i :: 0 <= i < |bytes| && OutsideShift(width, i, row, height) ==> s[i] == bytes[i])
  }

  /** Rows after `row` scrolled on top of row `row` scrolled give rows [row, height) scrolled. */
  lemma ShiftCombine(d: LegacyData, bytes: seq<Byte>, next: seq<Byte>, s: seq<Byte>, row: int)
    requires WellFormed(d) && |bytes| == |d.bytes| && 0 <= row < d.height
    requires RowReplaced(d.width, row, At(d.width, row, 4), bytes, next)
    requires ScrolledFrom(d.width, d.height, row + 1, next, s)
    ensures ScrolledFrom(d.width, d.height, row, bytes, s)
  {
    var w: int := d.width;
    forall r, j | row <= r < d.height && 0 <= j < 4 * (w - 1)
      ensures s[At(w, r, j)] == bytes[At(w, r, j + 4)]
    {
      if r == row {
        OutsideLaterRows(d, row, At(w, r, j));
      } else {
        RowsApart(d, row, r);
      }
    }
    forall i | 0 <= i < |bytes| && OutsideShift(w, i, row, d.height)
      ensures s[i] == bytes[i]
    {
      assert !(At(w, row, 0) <= i < At(w, row, 4 * (w - 1)));
      assert OutsideShift(w, i, row + 1, d.height);
    }
  }

  /** After rows [row, height) are scrolled: each of them holds its own bytes from one pixel
      further right, and every other byte is unchanged. */
  lemma {:induction false} ShiftFromSpec(d: LegacyData, bytes: seq<Byte>, row: Int32)
    requires WellFormed(d) && |bytes| == |d.bytes| && 0 <= row <= d.height
    ensures ShiftFrom(d.width, d.height, bytes, row).Success?
    ensures ScrolledFrom(d.width, d.height, row, bytes, ShiftFrom(d.width, d.height, bytes, row).value)
    decreases d.height - row
  {
    WellFormedRowsFit(d);
    if row < d.height {
      ShiftStep(d, bytes, row);
      var next := CopyWithin(bytes, At(d.width, row, 0), At(d.width, row, 4), At(d.width, row, 4 * d.width)).value;
      ShiftFromSpec(d, next, row + 1);
      ShiftCombine(d, bytes, next, ShiftFrom(d.width, d.height, next, row + 1).value, row);
    }
  }

  /** One row as written: the first row's first width − 1 pixels are copied over the row's,
      and the loop goes on from the next row. */
  lemma ShiftAsWrittenStep(d: LegacyData, bytes: seq<Byte>, row: Int32)
    requires WellFormed(d) && |bytes| == |d.bytes| && 0 <= row < d.height
    ensures HEADER + 4 * d.width <= |bytes|
    ensures CopyWithin(bytes, At(d.width, row, 0), HEADER, HEADER + 4 * (d.width - 1)).Success?
    ensures var next := CopyWithin(bytes, At(d.width, row, 0), HEADER, HEADER + 4 * (d.width - 1)).value;
      && RowReplaced(d.width, row, HEADER, bytes, next)
      && ShiftAsWrittenFrom(d.width, d.height, bytes, row) == ShiftAsWrittenFrom(d.width, d.height, next, row + 1)
  {
    RowOffsetAt(d, row);
    RowInside(d, row);
    RowInside(d, 0);
    CopyRow(d.width, row, HEADER, HEADER + 4 * (d.width - 1), bytes);
    assert Wrap32(Wrap32(d.width - 1) * 4) == 4 * (d.width - 1);
    ShiftAsWrittenUnroll(d.width, d.height, bytes, row, CopyWithin(bytes, At(d.width, row, 0), HEADER, HEADER + 4 * (d.width - 1)).value);
  }

  /** s is bytes with rows [row, height) processed as written: each of them starts with the
      first width − 1 pixels of the first row, and every other byte is kept. */
  predicate FirstRowSpread(width: int, height: int, row: int, bytes: seq<Byte>, s: seq<Byte>) {
    && 0 <= row && |s| == |bytes| && RowsFit(width, height, |bytes|)
    && (row < height ==> HEADER + 4 * width <= |bytes|)
    && (forall r, j :: row <= r < height && 0 <= j < 4 * (width - 1) ==> s[At(width, r, j)] == bytes[HEADER + j])
    && (forall i :: 0 <= i < |bytes| && OutsideShift(width, i, row, height) ==> s[i] == bytes[i])
  }

  /** Rows after `row` processed as written, on top of row `row` processed, give rows
      [row, height) processed. */
  lemma ShiftAsWrittenCombine(d: LegacyData, bytes: seq<Byte>, next: seq<Byte>, s: seq<Byte>, row: int)
    requires WellFormed(d) && |bytes| == |d.bytes| && 0 <= row < d.height
    requires RowReplaced(d.width, row, HEADER, bytes, next)
    requires FirstRowSpread(d.width, d.height, row + 1, next, s)
    ensures FirstRowSpread(d.width, d.height, row, bytes, s)
  {
    var w: int := d.width;
    forall r, j | row <= r < d.height && 0 <= j < 4 * (w - 1)
      ensures s[At(w, r, j)] == bytes[HEADER + j]
    {
      if r == row {
        OutsideLaterRows(d, row, At(w, r, j));
      } else if row > 0 {
        RowsApart(d, 0, row);
      } else {
        assert At(w, 0, j) == HEADER + j;
      }
    }
    forall i | 0 <= i < |bytes| && OutsideShift(w, i, row, d.height)
      ensures s[i] == bytes[i]
    {
      assert !(At(w, row, 0) <= i < At(w, row, 4 * (w - 1)));
      assert OutsideShift(w, i, row + 1, d.height);
    }
  }

  /** After rows [row, height) are processed as written, each of them starts with the first
      width − 1 pixels of the first row, and every other byte is unchanged. */
  lemma {:induction false} ShiftAsWrittenFromSpec(d: LegacyData, bytes: seq<Byte>, row: Int32)
    requires WellFormed(d) && |bytes| == |d.bytes| && 0 <= row <= d.height
    ensures ShiftAsWrittenFrom(d.width, d.height, bytes, row).Success?
    ensures FirstRowSpread(d.width, d.height, row, bytes, ShiftAsWrittenFrom(d.width, d.height, bytes, row).value)
    decreases d.height - row
  {
    WellFormedRowsFit(d);
    if row < d.height {
      ShiftAsWrittenStep(d, bytes, row);
      var next := CopyWithin(bytes, At(d.width, row, 0), HEADER, HEADER + 4 * (d.width - 1)).value;
      ShiftAsWrittenFromSpec(d, next, row + 1);
      ShiftAsWrittenCombine(d, bytes, next, ShiftAsWrittenFrom(d.width, d.height, next, row + 1).value, row);
    }
  }

  /** The scroll as written does not move a row's own pixels: on a 2 × 2 image whose pixels
      are 1, 2 / 3, 4 the second row starts with 1, the first row's pixel, where the left
      shift puts 4 there. */
  lemma ShiftAsWrittenCopiesFirstRow()
    ensures var d := LegacyData(2, 2, BmpHeader + [1, 1, 1, 1, 2, 2, 2, 2, 3, 3, 3, 3, 4, 4, 4, 4]);
      && ShiftRowsAsWritten(d).Success? && ShiftRowsAsWritten(d).value[At(2, 1, 0)] == 1
      && ShiftRows(d).Success? && ShiftRows(d).value[At(2, 1, 0)] == 4
  {
    var d := LegacyData(2, 2, BmpHeader + [1, 1, 1, 1, 2, 2, 2, 2, 3, 3, 3, 3, 4, 4, 4, 4]);
    assert WellFormed(d);
    ShiftAsWrittenFromSpec(d, d.bytes, 0);
    ShiftFromSpec(d, d.bytes, 0);
    assert d.bytes[At(2, 0, 0)] == 1 && d.bytes[At(2, 1, 4)] == 4;
  }

  // ---------------------------------------------------------------------------------------
  // The new column

  /** The legacy push takes the scale mode and the sample rate as arguments; seen with them,
      the image has the shape the cell ranges of the newer push are worked out on. */
  function View(d: LegacyData, mode: ScaleMode, sampleRate: real): SpectrogramData {
    SpectrogramData(d.width, d.height, d.bytes, 0, mode, sampleRate)
  }

  /** The level of a row, max(0, 10·log10(energy)): the energies are summed, not averaged, and
      no gain is added. An empty or backwards range sums nothing, and 10·log10(0) = −∞ ends in
      0. Reading a cell before the spectrum is an error. */
  function LegacyRowLevel(m: Transcendentals, spectrum: seq<real>, start: int, end: int): (r: Result<real>)
    requires end <= |spectrum|
    ensures r.Failure? <==> start < end && start < 0
    ensures r.Failure? ==> r.error == IndexOutOfBounds
    ensures r.Success? ==> r.value >= 0.0
    ensures r.Success? && end <= start ==> r.value == 0.0
  {
    if end <= start then Success(0.0)
    else if start < 0 then Failure(IndexOutOfBounds)
    else Success(MaxReal(0.0, 10.0 * m.log10(Energy(m, spectrum, start, end))))
  }

  /** On a row of one cell the summed level is the averaged level of the newer push without
      gain; on wider rows it is the averaged level plus 10·log10 of the cell count. */
  lemma LegacyLevelOneCell(m: Transcendentals, spectrum: seq<real>, start: nat)
    requires start < |spectrum|
    ensures RowLevel(m, spectrum, start, start + 1, 0.0) == Success(Some(LegacyRowLevel(m, spectrum, start, start + 1).value))
  {
    assert Energy(m, spectrum, start, start + 1) / (start + 1 - start) as real == Energy(m, spectrum, start, start + 1);
  }

  /** The ramp entry of pixel row p: the cells of the row as the newer push picks them, the
      summed level, and the same 17-step colour scale. */
  function LegacyRowColor(d: LegacyData, c: Column, s: Setting, mode: ScaleMode, sampleRate: real, p: nat)
    : (r: Result<nat>)
    requires ValidSetting(View(d, mode, sampleRate), c, s) && d.height > 0
    ensures r.Success? ==> r.value < |RampText|
  {
    var (start, end) := CellRange(View(d, mode, sampleRate), c, s, p);
    var level :- LegacyRowLevel(s.m, c.spectrum, start, end);
    Success(ColorIndex(Some(level), c.mindB, c.rangedB))
  }

  /** A row the legacy push can read is one the newer push can read, and the other way round:
      both fail exactly on a non-empty range starting before the spectrum. */
  lemma LegacyReadsAsNewer(d: LegacyData, c: Column, s: Setting, mode: ScaleMode, sampleRate: real, p: nat)
    requires ValidSetting(View(d, mode, sampleRate), c, s) && d.height > 0
    ensures LegacyRowColor(d, c, s, mode, sampleRate, p).Success? <==> RowColor(View(d, mode, sampleRate), c, s, p).Success?
  {
  }

  /** Every row's cells can be read. */
  predicate LegacyReadable(d: LegacyData, c: Column, s: Setting, mode: ScaleMode, sampleRate: real)
    requires ValidSetting(View(d, mode, sampleRate), c, s)
  {
    forall p: nat :: p < d.height ==> LegacyRowColor(d, c, s, mode, sampleRate, p).Success?
  }

  /** On the linear axis every row can be read. */
  lemma LegacyLinearReadable(d: LegacyData, c: Column, s: Setting, sampleRate: real)
    requires ValidSetting(View(d, ScaleLinear, sampleRate), c, s)
    ensures LegacyReadable(d, c, s, ScaleLinear, sampleRate)
  {
    forall p: nat | p < d.height
      ensures LegacyRowColor(d, c, s, ScaleLinear, sampleRate, p).Success?
    {
      LinearRangesTile(|c.spectrum|, d.height, p);
      LegacyReadsAsNewer(d, c, s, ScaleLinear, sampleRate, p);
    }
  }

  /** `bmpHeader.size + (pixel·width + width − 1)·4`, in `Int` arithmetic: the last pixel of
      the row. */
  function LegacyPixelIndex(width: Int32, p: Int32): Int32 {
    Wrap32(HEADER + Wrap32(Wrap32(Wrap32(Wrap32(p * width) + width) - 1) * 4))
  }

  /** In a well-formed image that is the last pixel of row p, inside the array. */
  lemma LegacyPixelAt(d: LegacyData, p: Int32)
    requires WellFormed(d) && 0 <= p < d.height
    ensures LegacyPixelIndex(d.width, p) == At(d.width, p, 4 * (d.width - 1))
    ensures HEADER <= LegacyPixelIndex(d.width, p) && At(d.width, p, 4 * d.width) <= |d.bytes|
  {
    RowInside(d, p);
    var pw: int := p * d.width;
    assert 0 <= pw;
    assert Wrap32(pw) == pw;
    assert Wrap32(pw + d.width) == pw + d.width;
    assert Wrap32(pw + d.width - 1) == pw + d.width - 1;
    assert Wrap32((pw + d.width - 1) * 4) == 4 * pw + 4 * d.width - 4;
  }

  /** The colour of every row, `colorRamp[colorIndex].toArgb()`, as the loop asks for it. */
  function LegacyColors(d: LegacyData, c: Column, s: Setting, mode: ScaleMode, sampleRate: real): nat -> Result<Int32>
    requires ValidSetting(View(d, mode, sampleRate), c, s)
  {
    (p: nat) =>
      if d.height <= 0 then Failure(IndexOutOfBounds)
      else
        var i :- LegacyRowColor(d, c, s, mode, sampleRate, p);
        Success(RampColor(i))
  }

  /** Row p's last pixel holds colour `color`. */
  predicate LastPixelHolds(width: int, bytes: seq<Byte>, p: int, color: Int32) {
    && 0 <= At(width, p, 4 * (width - 1)) && At(width, p, 4 * width) <= |bytes|
    && At(width, p, 4 * width) == At(width, p, 4 * (width - 1)) + 4
    && ReadLittleEndian(bytes, At(width, p, 4 * (width - 1))) == color
  }

  /** One pass of the loop: row p's last pixel gets its colour as four little-endian bytes.
      A pixel outside the array is an error. */
  function PaintRowWith(width: Int32, colorOf: nat -> Result<Int32>, bytes: seq<Byte>, p: Int32): (r: Result<seq<Byte>>)
    requires 0 <= p
    ensures r.Success? ==> |r.value| == |bytes| && colorOf(p).Success?
  {
    var color :- colorOf(p);
    var at := LegacyPixelIndex(width, p);
    if at < 0 || at + 4 > |bytes| then Failure(IndexOutOfBounds)
    else Success(Put(bytes, at, LittleEndianBytes(color)))
  }

  /** A painted row's last pixel holds its colour and no other byte changes; a row with a
      colour fails only when its pixel is outside the array. */
  lemma PaintRowWithSpec(width: Int32, colorOf: nat -> Result<Int32>, bytes: seq<Byte>, p: Int32)
    requires 0 <= p
    ensures var r := PaintRowWith(width, colorOf, bytes, p);
      r.Success? ==> var at := LegacyPixelIndex(width, p);
      && 0 <= at && at + 4 <= |bytes|
      && (forall i :: 0 <= i < |bytes| && !(at <= i < at + 4) ==> r.value[i] == bytes[i])
      && ReadLittleEndian(r.value, at) == colorOf(p).value
    ensures var r := PaintRowWith(width, colorOf, bytes, p);
      r.Failure? && colorOf(p).Success? ==>
      var at := LegacyPixelIndex(width, p); at < 0 || at + 4 > |bytes|
  {
    var r := PaintRowWith(width, colorOf, bytes, p);
    if r.Success? {
      ReadPut(bytes, LegacyPixelIndex(width, p), colorOf(p).value);
    }
  }

  /** The loop over rows [p, height). */
  function PaintFrom(width: Int32, height: Int32, colorOf: nat -> Result<Int32>, bytes: seq<Byte>, p: Int32)
    : Result<seq<Byte>>
    requires 0 <= p
    decreases height - p
  {
    if p >= height then Success(bytes)
    else
      var next :- PaintRowWith(width, colorOf, bytes, p);
      PaintFrom(width, height, colorOf, next, p + 1)
  }

  /** The loop goes on from the next row once the current one is painted, and stops at the
      first row that fails. */
  lemma PaintUnroll(width: Int32, height: Int32, colorOf: nat -> Result<Int32>, bytes: seq<Byte>, p: Int32)
    requires 0 <= p < height
    ensures var painted := PaintRowWith(width, colorOf, bytes, p);
      && (painted.Success? ==> PaintFrom(width, height, colorOf, bytes, p) == PaintFrom(width, height, colorOf, painted.value, p + 1))
      && (painted.Failure? ==> PaintFrom(width, height, colorOf, bytes, p).Failure?)
  {
  }

  /** Byte i lies in none of the last pixels of rows [from, to). */
  predicate OutsideColumn(width: int, i: int, from: int, to: int) {
    forall r :: from <= r < to ==> !(At(width, r, 4 * (width - 1)) <= i < At(width, r, 4 * width))
  }

  /** Every row in [from, height) has a colour. */
  predicate Colored(colorOf: nat -> Result<Int32>, from: int, height: int) {
    forall q: nat :: from <= q < height ==> colorOf(q).Success?
  }

  /** out is bytes with the last pixels of rows [p, height) painted and every other byte kept. */
  predicate PaintedFrom(width: int, height: int, colorOf: nat -> Result<Int32>, p: int, bytes: seq<Byte>, out: seq<Byte>) {
    && |out| == |bytes| && 0 <= p && Colored(colorOf, p, height)
    && (forall q: nat :: p <= q < height ==> LastPixelHolds(width, out, q, colorOf(q).value))
    && (forall i :: 0 <= i < |bytes| && OutsideColumn(width, i, p, height) ==> out[i] == bytes[i])
  }

  /** The four bytes of a row's last pixel lie outside the last pixels of the later rows. */
  lemma PixelBeforeLaterRows(d: LegacyData, p: int)
    requires WellFormed(d) && 0 <= p < d.height
    ensures var at := At(d.width, p, 4 * (d.width - 1));
      && OutsideColumn(d.width, at, p + 1, d.height) && OutsideColumn(d.width, at + 1, p + 1, d.height)
      && OutsideColumn(d.width, at + 2, p + 1, d.height) && OutsideColumn(d.width, at + 3, p + 1, d.height)
  {
    forall r | p + 1 <= r < d.height
      ensures At(d.width, p, 4 * d.width) <= At(d.width, r, 0)
    {
      RowsApart(d, p, r);
    }
  }

  /** Rows after p painted on top of row p painted give rows [p, height) painted. */
  lemma PaintCombine(d: LegacyData, colorOf: nat -> Result<Int32>, bytes: seq<Byte>, next: seq<Byte>, out: seq<Byte>, p: Int32)
    requires WellFormed(d) && 0 <= p < d.height
    requires PaintRowWith(d.width, colorOf, bytes, p) == Success(next)
    requires PaintedFrom(d.width, d.height, colorOf, p + 1, next, out)
    ensures PaintedFrom(d.width, d.height, colorOf, p, bytes, out)
  {
    var w: int := d.width;
    PaintRowWithSpec(d.width, colorOf, bytes, p);
    LegacyPixelAt(d, p);
    PixelBeforeLaterRows(d, p);
    assert LastPixelHolds(w, out, p, colorOf(p).value);
    forall i | 0 <= i < |bytes| && OutsideColumn(w, i, p, d.height)
      ensures out[i] == bytes[i]
    {
      assert !(At(w, p, 4 * (w - 1)) <= i < At(w, p, 4 * w));
      assert OutsideColumn(w, i, p + 1, d.height);
    }
  }

  /** A painted row passes the question on to the rows after it. */
  lemma PaintedRowSucceeds(width: Int32, height: Int32, colorOf: nat -> Result<Int32>, bytes: seq<Byte>, p: Int32)
    requires 0 <= p < height && PaintRowWith(width, colorOf, bytes, p).Success?
    requires PaintFrom(width, height, colorOf, PaintRowWith(width, colorOf, bytes, p).value, p + 1).Success?
      <==> Colored(colorOf, p + 1, height)
    ensures PaintFrom(width, height, colorOf, bytes, p).Success? <==> Colored(colorOf, p, height)
  {
    PaintUnroll(width, height, colorOf, bytes, p);
  }

  /** The last pixel of every row [0, height) lies inside an array of n bytes. */
  predicate PixelsInside(width: Int32, height: Int32, n: int) {
    forall p: Int32 :: 0 <= p < height ==> 0 <= LegacyPixelIndex(width, p) && LegacyPixelIndex(width, p) + 4 <= n
  }

  lemma WellFormedPixelsInside(d: LegacyData)
    requires WellFormed(d)
    ensures PixelsInside(d.width, d.height, |d.bytes|)
  {
    forall p: Int32 | 0 <= p < d.height
      ensures 0 <= LegacyPixelIndex(d.width, p) && LegacyPixelIndex(d.width, p) + 4 <= |d.bytes|
    {
      LegacyPixelAt(d, p);
    }
  }

  /** When every pixel is inside the array a row fails only for want of a colour, and the loop
      with it. */
  lemma UnpaintedRowFails(width: Int32, height: Int32, colorOf: nat -> Result<Int32>, bytes: seq<Byte>, p: Int32)
    requires PixelsInside(width, height, |bytes|) && 0 <= p < height
    requires PaintRowWith(width, colorOf, bytes, p).Failure?
    ensures PaintFrom(width, height, colorOf, bytes, p).Failure? && !Colored(colorOf, p, height)
  {
    PaintRowWithSpec(width, colorOf, bytes, p);
    PaintUnroll(width, height, colorOf, bytes, p);
    var q: nat := p;
    assert !colorOf(q).Success?;
  }

  /** When every pixel is inside the array, painting rows [p, height) succeeds exactly when
      each of them has a colour on the ramp. */
  lemma {:induction false} PaintFromSucceeds(width: Int32, height: Int32, colorOf: nat -> Result<Int32>, bytes: seq<Byte>, p: Int32)
    requires PixelsInside(width, height, |bytes|) && 0 <= p <= height
    ensures PaintFrom(width, height, colorOf, bytes, p).Success? <==> Colored(colorOf, p, height)
    decreases height - p
  {
    if p < height {
      var painted := PaintRowWith(width, colorOf, bytes, p);
      if painted.Success? {
        PaintFromSucceeds(width, height, colorOf, painted.value, p + 1);
        PaintedRowSucceeds(width, height, colorOf, bytes, p);
      } else {
        UnpaintedRowFails(width, height, colorOf, bytes, p);
      }
    }
  }

  /** A successful paint of rows [p, height) paints their last pixels and nothing else. */
  lemma {:induction false} PaintFromSpec(d: LegacyData, colorOf: nat -> Result<Int32>, bytes: seq<Byte>, p: Int32)
    requires WellFormed(d) && |bytes| == |d.bytes| && 0 <= p <= d.height
    requires PaintFrom(d.width, d.height, colorOf, bytes, p).Success?
    ensures PaintedFrom(d.width, d.height, colorOf, p, bytes, PaintFrom(d.width, d.height, colorOf, bytes, p).value)
    decreases d.height - p
  {
    if p < d.height {
      var painted := PaintRowWith(d.width, colorOf, bytes, p);
      PaintUnroll(d.width, d.height, colorOf, bytes, p);
      PaintFromSpec(d, colorOf, painted.value, p + 1);
      PaintCombine(d, colorOf, bytes, painted.value, PaintFrom(d.width, d.height, colorOf, painted.value, p + 1).value, p);
    }
  }

  /** `pushSpectrumToSpectrogramData` of the shared module as written: the scroll loop copies
      the first row's pixels over the start of every row (`ShiftRowsAsWritten`), then the
      last pixel of every row gets the colour of its level. */
  function LegacyPush(d: LegacyData, c: Column, s: Setting, mode: ScaleMode, sampleRate: real)
    : Result<LegacyData>
    requires ValidSetting(View(d, mode, sampleRate), c, s)
  {
    var shifted :- ShiftRowsAsWritten(d);
    var painted :- PaintFrom(d.width, d.height, LegacyColors(d, c, s, mode, sampleRate), shifted, 0);
    Success(d.(bytes := painted))
  }

  /** Bytes of a shifted stretch lie outside every row's last pixel; header bytes and bytes
      past the image lie outside every row. */
  lemma ShiftedOutsideColumn(d: LegacyData, r: int, j: int)
    requires WellFormed(d) && 0 <= r < d.height && 0 <= j < 4 * (d.width - 1)
    ensures OutsideColumn(d.width, At(d.width, r, j), 0, d.height)
  {
    forall q | 0 <= q < d.height
      ensures !(At(d.width, q, 4 * (d.width - 1)) <= At(d.width, r, j) < At(d.width, q, 4 * d.width))
    {
      if q < r {
        RowsApart(d, q, r);
      } else if r < q {
        RowsApart(d, r, q);
        RowInside(d, q);
      }
    }
  }

  lemma BesideImage(d: LegacyData, i: int)
    requires WellFormed(d) && (i < HEADER || i >= HEADER + PixelBytes(d.width, d.height))
    ensures OutsideShift(d.width, i, 0, d.height) && OutsideColumn(d.width, i, 0, d.height)
  {
    forall q | 0 <= q < d.height
      ensures HEADER <= At(d.width, q, 0) && At(d.width, q, 4 * d.width) <= HEADER + PixelBytes(d.width, d.height)
    {
      RowInside(d, q);
    }
  }

  /** Every row of out starts with the first width − 1 pixels of the first row of src. */
  predicate StartsWithFirstRow(width: int, height: int, src: seq<Byte>, out: seq<Byte>) {
    forall r, j :: 0 <= r < height && 0 <= j < 4 * (width - 1) && 0 <= At(width, r, j) < |out| && HEADER + j < |src| ==>
      out[At(width, r, j)] == src[HEADER + j]
  }

  /** bytes processed by the scroll as written, then painted with colorOf: every row starts
      with the first row's first width − 1 pixels, its last pixel holds its colour, and the
      header and the bytes past the image are kept. */
  predicate Pushed(d: LegacyData, colorOf: nat -> Result<Int32>, out: seq<Byte>) {
    && 0 <= d.width && 0 <= d.height && |out| == |d.bytes| && RowsFit(d.width, d.height, |d.bytes|)
    && Colored(colorOf, 0, d.height)
    && StartsWithFirstRow(d.width, d.height, d.bytes, out)
    && (forall r: nat :: r < d.height ==> LastPixelHolds(d.width, out, r, colorOf(r).value))
    && (forall i :: 0 <= i < |d.bytes| && (i < HEADER || i >= HEADER + PixelBytes(d.width, d.height)) ==> out[i] == d.bytes[i])
  }

  lemma ScrollThenPaint(d: LegacyData, colorOf: nat -> Result<Int32>, shifted: seq<Byte>, out: seq<Byte>)
    requires WellFormed(d) && FirstRowSpread(d.width, d.height, 0, d.bytes, shifted)
    requires PaintedFrom(d.width, d.height, colorOf, 0, shifted, out)
    ensures Pushed(d, colorOf, out)
  {
    WellFormedRowsFit(d);
    forall r, j | 0 <= r < d.height && 0 <= j < 4 * (d.width - 1)
      ensures out[At(d.width, r, j)] == d.bytes[HEADER + j]
    {
      ShiftedOutsideColumn(d, r, j);
    }
    forall i | 0 <= i < |d.bytes| && (i < HEADER || i >= HEADER + PixelBytes(d.width, d.height))
      ensures out[i] == d.bytes[i]
    {
      BesideImage(d, i);
    }
  }

  /** A push on a well-formed image succeeds exactly when every row can be read, and then it
      has spread the first row over the image and painted the last pixels with the given
      colours. */
  lemma LegacyPushPaints(d: LegacyData, c: Column, s: Setting, mode: ScaleMode, sampleRate: real)
    requires ValidSetting(View(d, mode, sampleRate), c, s) && WellFormed(d)
    ensures LegacyPush(d, c, s, mode, sampleRate).Success? <==> Colored(LegacyColors(d, c, s, mode, sampleRate), 0, d.height)
    ensures LegacyPush(d, c, s, mode, sampleRate).Success? ==>
      var e := LegacyPush(d, c, s, mode, sampleRate).value;
      e.width == d.width && e.height == d.height && Pushed(d, LegacyColors(d, c, s, mode, sampleRate), e.bytes)
  {
    WellFormedRowsFit(d);
    ShiftAsWrittenFromSpec(d, d.bytes, 0);
    var shifted := ShiftRowsAsWritten(d).value;
    var colors := LegacyColors(d, c, s, mode, sampleRate);
    WellFormedPixelsInside(d);
    PaintFromSucceeds(d.width, d.height, colors, shifted, 0);
    if LegacyPush(d, c, s, mode, sampleRate).Success? {
      PaintFromSpec(d, colors, shifted, 0);
      ScrollThenPaint(d, colors, shifted, PaintFrom(d.width, d.height, colors, shifted, 0).value);
    }
  }

  /** Row p has a colour exactly when its ramp index can be computed, and then the colour is
      that ramp entry. */
  lemma LegacyColorsSpec(d: LegacyData, c: Column, s: Setting, mode: ScaleMode, sampleRate: real, p: nat)
    requires ValidSetting(View(d, mode, sampleRate), c, s) && p < d.height
    ensures LegacyColors(d, c, s, mode, sampleRate)(p).Success? <==> LegacyRowColor(d, c, s, mode, sampleRate, p).Success?
    ensures LegacyRowColor(d, c, s, mode, sampleRate, p).Success? ==>
      LegacyColors(d, c, s, mode, sampleRate)(p) == Success(RampColor(LegacyRowColor(d, c, s, mode, sampleRate, p).value))
  {
  }

  /** A push on a well-formed image succeeds exactly when every row can be read. Then every
      row starts with the first width − 1 pixels of the first row (not with its own pixels
      one further right), its last pixel holds the ramp colour of its level, and the header
      and any bytes past the image are unchanged. */
  lemma LegacyPushSpec(d: LegacyData, c: Column, s: Setting, mode: ScaleMode, sampleRate: real)
    requires ValidSetting(View(d, mode, sampleRate), c, s) && WellFormed(d)
    ensures RowsFit(d.width, d.height, |d.bytes|)
    ensures LegacyPush(d, c, s, mode, sampleRate).Success? <==> LegacyReadable(d, c, s, mode, sampleRate)
    ensures LegacyPush(d, c, s, mode, sampleRate).Success? ==>
      var e := LegacyPush(d, c, s, mode, sampleRate).value;
      && e.width == d.width && e.height == d.height && |e.bytes| == |d.bytes|
      && StartsWithFirstRow(d.width, d.height, d.bytes, e.bytes)
      && (forall r: nat :: r < d.height ==> LastPixelHolds(d.width, e.bytes, r, RampColor(LegacyRowColor(d, c, s, mode, sampleRate, r).value)))
      && (forall i :: 0 <= i < |d.bytes| && (i < HEADER || i >= HEADER + PixelBytes(d.width, d.height)) ==> e.bytes[i] == d.bytes[i])
  {
    WellFormedRowsFit(d);
    var colors := LegacyColors(d, c, s, mode, sampleRate);
    LegacyPushPaints(d, c, s, mode, sampleRate);
    forall r: nat | r < d.height
      ensures colors(r).Success? <==> LegacyRowColor(d, c, s, mode, sampleRate, r).Success?
      ensures colors(r).Success? ==> colors(r).value == RampColor(LegacyRowColor(d, c, s, mode, sampleRate, r).value)
    {
      LegacyColorsSpec(d, c, s, mode, sampleRate, r);
    }
  }
}
