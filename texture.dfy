/** The part of Unity's `Texture2D` the wrapper uses: its size, `GetPixels32`
    and `SetPixel`. */
module Textures {
  import opened Structures

  /** A texture whose pixels are addressed by column and row, row 0 at the
      bottom. `SetPixel` records every write under the coordinates it was
      given, inside the image or not. */
  class Texture {
    const width: nat32
    const height: nat32
    var pixels: map<(int, int), Color32>

    /** Every pixel of the image has a colour. */
    ghost predicate Valid()
      reads this
    {
      forall x, y :: 0 <= x < width && 0 <= y < height ==> (x, y) in pixels
    }

    constructor (width: nat32, height: nat32, fill: Color32)
      ensures this.width == width && this.height == height
      ensures Valid()
      ensures forall p :: p in pixels <==> 0 <= p.0 < width && 0 <= p.1 < height
      ensures forall p :: p in pixels ==> pixels[p] == fill
    {
      this.width := width;
      this.height := height;
      pixels := map x: int, y: int | 0 <= x < width && 0 <= y < height :: (x, y) := fill;
    }

    /** `GetPixels32`: the image row by row, bottom row first, each row left
        to right (see `GetPixels32At`). */
    function GetPixels32(): (colors: seq<Color32>)
      reads this
      requires Valid()
      ensures |colors| == width * height
    {
      Flatten(0)
    }

    /** Rows `y` to `height - 1`, in that order. */
    function Flatten(y: nat): (colors: seq<Color32>)
      reads this
      requires Valid() && y <= height
      ensures |colors| == (height - y) * width
      decreases height - y
    {
      if y == height then []
      else
        RowOffsets(width, height - y);
        Row(y, width) + Flatten(y + 1)
    }

    lemma {:induction false} FlattenAt(y: nat, xx: nat, yy: nat)
      requires Valid() && y <= yy < height && xx < width
      ensures 0 <= (yy - y) * width + xx < |Flatten(y)|
      ensures Flatten(y)[(yy - y) * width + xx] == pixels[(xx, yy)]
      decreases height - y
    {
      var row := Row(y, width);
      assert Flatten(y) == row + Flatten(y + 1);
      if yy == y {
        assert Flatten(y)[xx] == row[xx];
      } else {
        FlattenAt(y + 1, xx, yy);
        var inRest := (yy - (y + 1)) * width + xx;
        assert (yy - y) * width + xx == width + inRest by {
          RowOffsets(width, yy - y);
        }
        assert Flatten(y)[width + inRest] == Flatten(y + 1)[inRest];
      }
    }

    /** The pixel at column `x` of row `y` is entry `y * width + x` of
        `GetPixels32`. */
    lemma GetPixels32At(x: nat, y: nat)
      requires Valid() && x < width && y < height
      ensures 0 <= y * width + x < |GetPixels32()|
      ensures GetPixels32()[y * width + x] == pixels[(x, y)]
    {
      FlattenAt(0, x, y);
    }

    /** The first `n` pixels of row `y`. */
    function Row(y: nat, n: nat): (colors: seq<Color32>)
      reads this
      requires Valid() && y < height && n <= width
      ensures |colors| == n
      ensures forall x :: 0 <= x < n ==> colors[x] == pixels[(x, y)]
    {
      if n == 0 then [] else Row(y, n - 1) + [pixels[(n - 1, y)]]
    }

    /** `SetPixel(x, y, color)`. */
    method SetPixel(x: int, y: int, color: Color32)
      modifies this`pixels
      ensures pixels == old(pixels)[(x, y) := color]
    {
      pixels := pixels[(x, y) := color];
    }
  }

  /** Row arithmetic for `Flatten`: one row plus `rows - 1` rows. */
  lemma RowOffsets(width: nat, rows: nat)
    requires rows >= 1
    ensures rows * width == width + (rows - 1) * width
  {
  }
}
