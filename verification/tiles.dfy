/** `RemoteTileStreamProvider`: the address of a map tile on a tile server, with the row
    flipped for servers that count rows from the bottom (TMS), and the tile's bytes when the
    server answers with success. The HTTP request is a parameter. */
module Tiles {
  import opened Wrappers
  import opened Numerics
  import opened Decimal
  import opened Bitmaps

  /** `(2.0.pow(zoomLvl) - 1).toInt()`: the index of the last row at a zoom level. */
  function LastRow(zoomLvl: Int32): Int32 {
    SatInt32(Trunc(Pow2Real(zoomLvl) - 1.0))
  }

  /** The row index the server expects: counted from the bottom when `tms` is set. */
  function TrueRow(row: Int32, zoomLvl: Int32, tms: bool): Int32 {
    if tms then Wrap32(LastRow(zoomLvl) - row) else row
  }

  /** `"$tileServerUrl/$zoomLvl/$col/$trueRow.png"`. */
  function TileUrl(tileServerUrl: string, zoomLvl: Int32, col: Int32, trueRow: Int32): string {
    tileServerUrl + "/" + IntToString(zoomLvl) + "/" + IntToString(col) + "/" + IntToString(trueRow) + ".png"
  }

  /** What the server answered: a status code and a body. */
  datatype Response = Response(status: int, body: seq<Byte>)

  /** Ktor's `isSuccess`: a 2xx status. */
  predicate IsSuccess(r: Response) {
    200 <= r.status < 300
  }

  /** `getTileStream`: the body of a successful answer; nothing otherwise. */
  function TileStream(tileServerUrl: string, tms: bool, row: Int32, col: Int32, zoomLvl: Int32, get: string -> Response)
    : (r: Option<seq<Byte>>)
    ensures var response := get(TileUrl(tileServerUrl, zoomLvl, col, TrueRow(row, zoomLvl, tms)));
      && (r.Some? <==> IsSuccess(response))
      && (r.Some? ==> r.value == response.body)
  {
    var response := get(TileUrl(tileServerUrl, zoomLvl, col, TrueRow(row, zoomLvl, tms)));
    if IsSuccess(response) then Some(response.body) else None
  }

  // ---------------------------------------------------------------------------------------
  // Properties
  // ---------------------------------------------------------------------------------------

  /** At zoom levels 0 to 30 the last row is 2^z - 1. */
  lemma LastRowSpec(zoomLvl: Int32)
    requires 0 <= zoomLvl <= 30
    ensures LastRow(zoomLvl) == Pow2(zoomLvl) - 1
  {
    Pow2Monotone(zoomLvl, 30);
    assert Pow2(30) == 0x4000_0000 by { Pow2Value30(); }
  }

  lemma {:induction false} Pow2Monotone(a: nat, b: nat)
    requires a <= b
    ensures Pow2(a) <= Pow2(b)
    decreases b
  {
    if a < b {
      Pow2Monotone(a, b - 1);
    }
  }

  lemma Pow2Value30()
    ensures Pow2(30) == 0x4000_0000
  {
    assert Pow2(10) == 1024;
    assert Pow2(20) == 1024 * 1024 by { Pow2Add(10, 10); }
    Pow2Add(20, 10);
  }

  lemma {:induction false} Pow2Add(a: nat, b: nat)
    ensures Pow2(a + b) == Pow2(a) * Pow2(b)
    decreases b
  {
    if b > 0 {
      Pow2Add(a, b - 1);
    }
  }

  /** Flipping twice gives the row back, for every row and zoom level, wrap-around included. */
  lemma TrueRowInvolution(row: Int32, zoomLvl: Int32, tms: bool)
    ensures TrueRow(TrueRow(row, zoomLvl, tms), zoomLvl, tms) == row
  {
    if tms {
      var last := LastRow(zoomLvl);
      var once := Wrap32(last - row);
      var q := (once - (last - row)) / 0x1_0000_0000;
      assert once == last - row + q * 0x1_0000_0000;
      assert (last - once) - row == -q * 0x1_0000_0000;
      assert Wrap32(row) == row;
      WrapShift(row, -q);
    }
  }

  lemma WrapShift(x: int, q: int)
    ensures Wrap32(x + q * 0x1_0000_0000) == Wrap32(x)
  {
    assert (x + q * 0x1_0000_0000) - INT_MIN == (x - INT_MIN) + q * 0x1_0000_0000;
  }

  /** A row of the grid at a zoom level maps to a row of the grid, counted from the other end. */
  lemma TrueRowInRange(row: Int32, zoomLvl: Int32)
    requires 0 <= zoomLvl <= 30 && 0 <= row < Pow2(zoomLvl)
    ensures TrueRow(row, zoomLvl, true) == Pow2(zoomLvl) - 1 - row
    ensures 0 <= TrueRow(row, zoomLvl, true) < Pow2(zoomLvl)
    ensures TrueRow(row, zoomLvl, false) == row
  {
    LastRowSpec(zoomLvl);
  }

  /** On a server that counts rows from the bottom, asking for row `row` of the grid fetches
      what a top-down server would give for the last row minus `row` (2^z - 1 - row, by
      LastRowSpec), on every answer of the server. */
  lemma TileStreamFlipsRows(url: string, row: Int32, col: Int32, zoomLvl: Int32, get: string -> Response)
    requires 0 <= zoomLvl <= 30 && 0 <= row <= LastRow(zoomLvl)
    ensures TileStream(url, true, row, col, zoomLvl, get)
      == TileStream(url, false, LastRow(zoomLvl) - row, col, zoomLvl, get)
  {
    LastRowSpec(zoomLvl);
    TrueRowInRange(row, zoomLvl);
  }

  /** Two different tiles of one server are fetched from different addresses: whatever the
      server answers for one tile, the other tile's result is unchanged. */
  lemma TileStreamOwnAddress(url: string, tms: bool, row: Int32, col: Int32, zoomLvl: Int32,
                             row': Int32, col': Int32, zoomLvl': Int32, get: string -> Response, get': string -> Response)
    requires (zoomLvl, col, row) != (zoomLvl', col', row')
    requires forall u :: u != TileUrl(url, zoomLvl', col', TrueRow(row', zoomLvl', tms)) ==> get'(u) == get(u)
    ensures TileStream(url, tms, row, col, zoomLvl, get') == TileStream(url, tms, row, col, zoomLvl, get)
  {
    var u := TileUrl(url, zoomLvl, col, TrueRow(row, zoomLvl, tms));
    var u' := TileUrl(url, zoomLvl', col', TrueRow(row', zoomLvl', tms));
    if u == u' {
      TileUrlInjective(url, zoomLvl, col, TrueRow(row, zoomLvl, tms), zoomLvl', col', TrueRow(row', zoomLvl', tms));
      TrueRowInvolution(row, zoomLvl, tms);
      TrueRowInvolution(row', zoomLvl', tms);
      assert false;
    }
  }

  /** Text with no slash in it. */
  predicate NoSlash(s: string) {
    forall i :: 0 <= i < |s| ==> s[i] != '/'
  }

  lemma IntToStringNoSlash(i: int)
    ensures NoSlash(IntToString(i))
  {
    if i < 0 {
      assert IntToString(i) == "-" + NatToString(-i);
    }
  }

  lemma SlashAfter(a: string, b: string)
    ensures (a + "/" + b)[|a|] == '/'
  {
  }

  /** Splitting at the first slash. */
  lemma SplitAtSlash(a: string, b: string, a': string, b': string)
    requires NoSlash(a) && NoSlash(a') && a + "/" + b == a' + "/" + b'
    ensures a == a' && b == b'
  {
    var s := a + "/" + b;
    if |a| < |a'| {
      SlashAfter(a, b);
      assert false;
    } else if |a'| < |a| {
      SlashAfter(a', b');
      assert false;
    }
    assert a == s[..|a|] == a';
    assert b == s[|a| + 1..] == b';
  }

  /** The part of a tile address after the server's. */
  function TilePath(z: Int32, c: Int32, r: Int32): string {
    IntToString(z) + "/" + (IntToString(c) + "/" + (IntToString(r) + ".png"))
  }

  lemma TileUrlSplits(base: string, z: Int32, c: Int32, r: Int32)
    ensures TileUrl(base, z, c, r) == base + "/" + TilePath(z, c, r)
  {
  }

  lemma TilePathInjective(z: Int32, c: Int32, r: Int32, z': Int32, c': Int32, r': Int32)
    requires TilePath(z, c, r) == TilePath(z', c', r')
    ensures z == z' && c == c' && r == r'
  {
    var zs, cs, rs := IntToString(z), IntToString(c), IntToString(r);
    var zs', cs', rs' := IntToString(z'), IntToString(c'), IntToString(r');
    IntToStringNoSlash(z);
    IntToStringNoSlash(z');
    IntToStringNoSlash(c);
    IntToStringNoSlash(c');
    SplitAtSlash(zs, cs + "/" + (rs + ".png"), zs', cs' + "/" + (rs' + ".png"));
    SplitAtSlash(cs, rs + ".png", cs', rs' + ".png");
    assert rs == (rs + ".png")[..|rs + ".png"| - 4];
    assert rs' == (rs' + ".png")[..|rs' + ".png"| - 4];
    IntToStringInjective(z, z');
    IntToStringInjective(c, c');
    IntToStringInjective(r, r');
  }

  /** On one server, different tiles have different addresses: the zoom level, column and row
      can be read back from the address. */
  lemma TileUrlInjective(base: string, z: Int32, c: Int32, r: Int32, z': Int32, c': Int32, r': Int32)
    requires TileUrl(base, z, c, r) == TileUrl(base, z', c', r')
    ensures z == z' && c == c' && r == r'
  {
    TileUrlSplits(base, z, c, r);
    TileUrlSplits(base, z', c', r');
    var n := |base| + 1;
    assert TilePath(z, c, r) == TileUrl(base, z, c, r)[n..];
    assert TilePath(z', c', r') == TileUrl(base, z', c', r')[n..];
    TilePathInjective(z, c, r, z', c', r');
  }
}
