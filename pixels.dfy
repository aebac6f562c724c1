/** The RGBA byte stream handed to `TessBaseAPISetImage`: the texture's
    `Color32` grid (row-major, row 0 first) emitted last row first, left to
    right within a row, four bytes per pixel. */
module Pixels {
  import opened Structures

  /** The bytes of one pixel, in the order R, G, B, A. */
  function PixelBytes(c: Color32): seq<byte> {
    [c.r, c.g, c.b, c.a]
  }

  /** Channel `k` of a pixel: 0 red, 1 green, 2 blue, 3 alpha. */
  function Channel(c: Color32, k: int): byte
    requires 0 <= k < 4
  {
    if k == 0 then c.r else if k == 1 then c.g else if k == 2 then c.b else c.a
  }

  lemma CellInGrid(x: int, y: int, width: int, height: int)
    requires 0 <= x < width && 0 <= y < height
    ensures 0 <= y * width + x < width * height
  {
    MulMono(width, y, height - 1);
    assert width * (height - 1) + width == width * height;
  }

  /** The bytes of the first `x` pixels of row `y`. */
  function RowPrefix(colors: seq<Color32>, width: nat, height: nat, y: nat, x: nat): seq<byte>
    requires |colors| == width * height && y < height && x <= width
    decreases x
  {
    if x == 0 then []
    else
      CellInGrid(x - 1, y, width, height);
      RowPrefix(colors, width, height, y, x - 1) + PixelBytes(colors[y * width + x - 1])
  }

  /** The bytes of rows `height - 1` down to `y`, in that order. */
  function RowsFrom(colors: seq<Color32>, width: nat, height: nat, y: nat): seq<byte>
    requires |colors| == width * height && y <= height
    decreases height - y
  {
    if y == height then []
    else RowsFrom(colors, width, height, y + 1) + RowPrefix(colors, width, height, y, width)
  }

  /** The whole image, last row first. */
  function Packed(colors: seq<Color32>, width: nat, height: nat): seq<byte>
    requires |colors| == width * height
  {
    RowsFrom(colors, width, height, 0)
  }

  lemma MulSucc(a: int, b: int)
    ensures (a + 1) * b == a * b + b
  {
  }

  lemma {:induction false} RowPrefixLength(colors: seq<Color32>, width: nat, height: nat, y: nat, x: nat)
    requires |colors| == width * height && y < height && x <= width
    ensures |RowPrefix(colors, width, height, y, x)| == 4 * x
    decreases x
  {
    if x > 0 {
      RowPrefixLength(colors, width, height, y, x - 1);
    }
  }

  lemma {:induction false} RowPrefixAt(colors: seq<Color32>, width: nat, height: nat, y: nat, x: nat, j: nat, k: nat)
    requires |colors| == width * height && y < height && x <= width
    requires j < x && k < 4
    ensures y * width + j < |colors|
    ensures 4 * j + k < |RowPrefix(colors, width, height, y, x)|
    ensures RowPrefix(colors, width, height, y, x)[4 * j + k] == Channel(colors[y * width + j], k)
    decreases x
  {
    CellInGrid(j, y, width, height);
    RowPrefixLength(colors, width, height, y, x);
    RowPrefixLength(colors, width, height, y, x - 1);
    if j < x - 1 {
      RowPrefixAt(colors, width, height, y, x - 1, j, k);
    }
  }

  lemma {:induction false} RowsFromLength(colors: seq<Color32>, width: nat, height: nat, y: nat)
    requires |colors| == width * height && y <= height
    ensures |RowsFrom(colors, width, height, y)| == (height - y) * (4 * width)
    decreases height - y
  {
    if y < height {
      RowsFromLength(colors, width, height, y + 1);
      RowPrefixLength(colors, width, height, y, width);
      MulSucc(height - (y + 1), 4 * width);
    }
  }

  /** Emitting more rows only appends to the stream. */
  lemma {:induction false} RowsFromPrefix(colors: seq<Color32>, width: nat, height: nat, y: nat, yy: nat)
    requires |colors| == width * height && y <= yy <= height
    ensures |RowsFrom(colors, width, height, yy)| <= |RowsFrom(colors, width, height, y)|
    ensures RowsFrom(colors, width, height, yy) == RowsFrom(colors, width, height, y)[..|RowsFrom(colors, width, height, yy)|]
    decreases yy - y
  {
    if y < yy {
      RowsFromPrefix(colors, width, height, y + 1, yy);
    }
  }

  /** Row `yy` sits right after the rows above it. */
  lemma RowsFromAt(colors: seq<Color32>, width: nat, height: nat, y: nat, yy: nat, j: nat)
    requires |colors| == width * height && y <= yy < height && j < 4 * width
    ensures |RowPrefix(colors, width, height, yy, width)| == 4 * width
    ensures |RowsFrom(colors, width, height, yy + 1)| + j < |RowsFrom(colors, width, height, y)|
    ensures RowsFrom(colors, width, height, y)[|RowsFrom(colors, width, height, yy + 1)| + j]
              == RowPrefix(colors, width, height, yy, width)[j]
  {
    RowPrefixLength(colors, width, height, yy, width);
    RowsFromPrefix(colors, width, height, y, yy);
    var upper := RowsFrom(colors, width, height, yy + 1);
    assert RowsFrom(colors, width, height, yy) == upper + RowPrefix(colors, width, height, yy, width);
    assert RowsFrom(colors, width, height, yy)[|upper| + j] == RowsFrom(colors, width, height, y)[|upper| + j];
  }

  lemma ByteOffset(rowsAbove: nat, width: nat, height: nat, x: nat, k: nat)
    ensures 0 <= rowsAbove * (4 * width)
    ensures 4 * (rowsAbove * width + x) + k == rowsAbove * (4 * width) + (4 * x + k)
    ensures height * (4 * width) == width * height * 4
  {
  }

  /** The stream holds four bytes for each pixel. */
  lemma PackedLength(colors: seq<Color32>, width: nat, height: nat)
    requires |colors| == width * height
    ensures |Packed(colors, width, height)| == width * height * 4
  {
    RowsFromLength(colors, width, height, 0);
    ByteOffset(0, width, height, 0, 0);
  }

  /** The stream holds `width * height * 4` bytes, and byte
      `4 * ((height - 1 - y) * width + x) + k` is channel `k` of the pixel at
      column `x` of row `y`: the last row of the texture comes first. */
  lemma PackedAt(colors: seq<Color32>, width: nat, height: nat, x: nat, y: nat, k: nat)
    requires |colors| == width * height
    requires x < width && y < height && k < 4
    ensures |Packed(colors, width, height)| == width * height * 4
    ensures y * width + x < |colors|
    ensures 0 <= 4 * ((height - 1 - y) * width + x) + k < |Packed(colors, width, height)|
    ensures Packed(colors, width, height)[4 * ((height - 1 - y) * width + x) + k] == Channel(colors[y * width + x], k)
  {
    CellInGrid(x, y, width, height);
    PackedLength(colors, width, height);
    var packed := Packed(colors, width, height);
    var upper := |RowsFrom(colors, width, height, y + 1)|;
    var at := 4 * ((height - 1 - y) * width + x) + k;
    assert at == upper + (4 * x + k) by {
      RowsFromLength(colors, width, height, y + 1);
      ByteOffset(height - 1 - y, width, height, x, k);
    }
    assert 0 <= at < |packed| && packed[at] == RowPrefix(colors, width, height, y, width)[4 * x + k] by {
      RowsFromAt(colors, width, height, 0, y, 4 * x + k);
    }
    RowPrefixAt(colors, width, height, y, width, x, k);
  }
}
