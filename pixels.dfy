/** Cell colours and the byte layout the board is drawn from. */
module Pixels {

  /** An unsigned 8-bit channel value (`u8`). */
  type byte = x: int | 0 <= x < 256

  const U8Min: byte := 0
  const U8Max: byte := 255

  /** Bytes per cell colour (`COLOR_BYTES`). */
  const ColorBytes: nat := 4

  /** One board cell, a `[u8; 4]` RGBA colour; channel 0 (`red`) decides liveness. */
  datatype Color = Color(red: byte, green: byte, blue: byte, alpha: byte)

  /** Opaque white, the colour of a live cell. */
  const White: Color := Color(U8Max, U8Max, U8Max, U8Max)

  /** Opaque black, the colour of a dead cell. */
  const Black: Color := Color(U8Min, U8Min, U8Min, U8Max)

  /** A cell is alive when its channel 0 is greater than 0. */
  predicate IsAlive(c: Color) {
    c.red > 0
  }

  /** The only two colours the engine ever writes. */
  predicate IsBlackOrWhite(c: Color) {
    c == White || c == Black
  }

  lemma WhiteIsAliveBlackIsDead()
    ensures IsAlive(White) && !IsAlive(Black)
    ensures forall c :: IsBlackOrWhite(c) ==> (IsAlive(c) <==> c == White)
  {
  }

  /** The four channels of a colour in memory order R, G, B, A. */
  function Bytes(c: Color): seq<byte> {
    [c.red, c.green, c.blue, c.alpha]
  }

  /** A row of cells laid out back to back, as a `[[u8; 4]; W]` sits in memory. */
  function RowBytes(row: seq<Color>): seq<byte> {
    if row == [] then [] else Bytes(row[0]) + RowBytes(row[1..])
  }

  /**
   * The board laid out row after row, as a `[[[u8; 4]; W]; H]` sits in memory:
   * the byte buffer the renderer is handed.
   */
  function Flatten(g: seq<seq<Color>>): seq<byte> {
    if g == [] then [] else RowBytes(g[0]) + Flatten(g[1..])
  }

  /** Reads the cell at row `r`, column `c` back out of a row-major RGBA buffer of width `w`. */
  function PixelAt(buf: seq<byte>, w: nat, r: nat, c: nat): Color
    requires (r * w + c) * ColorBytes + ColorBytes <= |buf|
  {
    var i := (r * w + c) * ColorBytes;
    Color(buf[i], buf[i + 1], buf[i + 2], buf[i + 3])
  }

  lemma {:induction false} RowBytesLength(row: seq<Color>)
    ensures |RowBytes(row)| == ColorBytes * |row|
  {
    if row != [] {
      RowBytesLength(row[1..]);
    }
  }

  /** Byte `k` of cell `c` sits at offset `4 * c + k` of its row. */
  lemma {:induction false} RowBytesAt(row: seq<Color>, c: nat, k: nat)
    requires c < |row| && k < ColorBytes
    ensures |RowBytes(row)| == ColorBytes * |row|
    ensures RowBytes(row)[ColorBytes * c + k] == Bytes(row[c])[k]
  {
    RowBytesLength(row);
    if c > 0 {
      RowBytesLength(row[1..]);
      RowBytesAt(row[1..], c - 1, k);
      assert RowBytes(row)[ColorBytes * c + k] == RowBytes(row[1..])[ColorBytes * (c - 1) + k];
    }
  }

  /** The buffer of an `h` by `w` board has `h * w * 4` bytes (`GRID_BYTES`). */
  lemma {:induction false} FlattenLength(g: seq<seq<Color>>, w: nat)
    requires forall r :: 0 <= r < |g| ==> |g[r]| == w
    ensures |Flatten(g)| == |g| * w * ColorBytes
  {
    if g != [] {
      RowBytesLength(g[0]);
      FlattenLength(g[1..], w);
      assert |g| * w * ColorBytes == w * ColorBytes + (|g| - 1) * w * ColorBytes;
    }
  }

  /** Row `r` of the board starts right after the bytes of rows `0` to `r - 1`. */
  lemma {:induction false} FlattenRowAt(g: seq<seq<Color>>, r: nat, j: nat)
    requires r < |g| && j < |RowBytes(g[r])|
    ensures |Flatten(g[..r])| + j < |Flatten(g)|
    ensures Flatten(g)[|Flatten(g[..r])| + j] == RowBytes(g[r])[j]
  {
    assert Flatten(g) == RowBytes(g[0]) + Flatten(g[1..]);
    if r == 0 {
      assert g[..r] == [];
    } else {
      assert g[..r][0] == g[0] && g[..r][1..] == g[1..][..r - 1];
      assert Flatten(g[..r]) == RowBytes(g[0]) + Flatten(g[1..][..r - 1]);
      FlattenRowAt(g[1..], r - 1, j);
    }
  }

  /** The byte offset of channel `k` of cell `(r, c)` on a width-`w` board. */
  lemma CellOffset(w: nat, r: nat, c: nat, k: nat)
    ensures (r * w + c) * ColorBytes + k == r * w * ColorBytes + (ColorBytes * c + k)
  {
  }

  /** Row-major layout: byte `(r * w + c) * 4 + k` of the buffer is channel `k` of cell `(r, c)`. */
  lemma FlattenAt(g: seq<seq<Color>>, w: nat, r: nat, c: nat, k: nat)
    requires forall i :: 0 <= i < |g| ==> |g[i]| == w
    requires r < |g| && c < w && k < ColorBytes
    ensures |Flatten(g)| == |g| * w * ColorBytes
    ensures (r * w + c) * ColorBytes + k < |Flatten(g)|
    ensures Flatten(g)[(r * w + c) * ColorBytes + k] == Bytes(g[r][c])[k]
  {
    FlattenLength(g, w);
    FlattenLength(g[..r], w);
    RowBytesAt(g[r], c, k);
    FlattenRowAt(g, r, ColorBytes * c + k);
    CellOffset(w, r, c, k);
  }

  /** Reading a cell back out of the drawn buffer gives the cell itself. */
  lemma FlattenRoundTrip(g: seq<seq<Color>>, w: nat, r: nat, c: nat)
    requires forall i :: 0 <= i < |g| ==> |g[i]| == w
    requires r < |g| && c < w
    ensures (r * w + c) * ColorBytes + ColorBytes <= |Flatten(g)|
    ensures PixelAt(Flatten(g), w, r, c) == g[r][c]
  {
    FlattenAt(g, w, r, c, 0);
    FlattenAt(g, w, r, c, 1);
    FlattenAt(g, w, r, c, 2);
    FlattenAt(g, w, r, c, 3);
  }

  /**
   * On a two-valued board every live cell is drawn as the opaque white quadruple
   * and every dead one as the opaque black quadruple.
   */
  lemma FlattenEncodesLiveness(g: seq<seq<Color>>, w: nat, r: nat, c: nat)
    requires forall i :: 0 <= i < |g| ==> |g[i]| == w
    requires r < |g| && c < w
    requires IsBlackOrWhite(g[r][c])
    ensures (r * w + c) * ColorBytes + ColorBytes <= |Flatten(g)|
    ensures PixelAt(Flatten(g), w, r, c) == if IsAlive(g[r][c]) then White else Black
  {
    FlattenRoundTrip(g, w, r, c);
  }
}
