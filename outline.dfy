/** Where the highlight rectangles go: the conversion of a bottom-left-origin
    box into the rectangle handed to `DrawLines`, and the set of pixels
    `DrawLines` paints for a rectangle. */
module Outline {
  import opened Structures

  /** The stroke width `DrawLines` uses when none is given. */
  const DefaultThickness: int := 3

  /** The rectangle drawn for a box on a texture `textureHeight` pixels high:
      x, width and height are the box's, and y is `textureHeight - box.y - box.h`
      computed in 32-bit arithmetic. */
  function HighlightRect(box: Box, textureHeight: int32): (r: Rect)
    ensures r.x == box.x && r.width == box.w && r.height == box.h
    ensures -0x8000_0000 <= textureHeight - box.y - box.h < 0x8000_0000 ==>
              r.y + r.height == textureHeight - box.y
    ensures ((r.y + r.height) - (textureHeight - box.y)) % 0x1_0000_0000 == 0
  {
    Rect(box.x, Wrap32(textureHeight - box.y - box.h), box.w, box.h)
  }

  /** A box 10 across and 5 up, 20 by 8, on a texture 100 high is drawn with
      its corner at row 87. */
  lemma HighlightRectExample()
    ensures HighlightRect(Box(10, 5, 20, 8, 1), 100) == Rect(10, 87, 20, 8)
  {
  }

  /** `v` lies on one of the two bands of `count` lines next to `lo` and to
      `hi`: `lo + i` or `hi - i` for some `0 <= i < count`. */
  predicate InBands(lo: int, hi: int, count: int, v: int) {
    (lo <= v < lo + count) || (hi - count < v <= hi)
  }

  /** The pixels `DrawLines(rect, thickness)` paints, with `x1 = rect.x`,
      `x2 = rect.x + rect.width`, `y1 = rect.y` and `y2 = rect.y + rect.height`:
      the horizontal bands across `x1..x2` and the vertical bands across `y1..y2`. */
  predicate OnOutline(r: Rect, thickness: int, x: int, y: int) {
    var x1, x2, y1, y2 := r.x, r.x + r.width, r.y, r.y + r.height;
    (x1 <= x <= x2 && InBands(y1, y2, thickness, y)) ||
    (y1 <= y <= y2 && InBands(x1, x2, thickness, x))
  }

  /** The four pixels the loops of `DrawLines` set at stroke offset `i`:
      `(x, y1 + i)` and `(x, y2 - i)` for `x1 <= x <= x2`, and `(x1 + i, y)`
      and `(x2 - i, y)` for `y1 <= y <= y2`. */
  predicate Stroke(r: Rect, i: int, x: int, y: int) {
    var x1, x2, y1, y2 := r.x, r.x + r.width, r.y, r.y + r.height;
    (x1 <= x <= x2 && (y == y1 + i || y == y2 - i)) ||
    (y1 <= y <= y2 && (x == x1 + i || x == x2 - i))
  }

  /** The outline is exactly what the strokes at offsets `0 .. thickness - 1`
      reach. */
  lemma OnOutlineIff(r: Rect, thickness: int, x: int, y: int)
    ensures OnOutline(r, thickness, x, y) <==> exists i :: 0 <= i < thickness && Stroke(r, i, x, y)
  {
    var x1, x2, y1, y2 := r.x, r.x + r.width, r.y, r.y + r.height;
    if OnOutline(r, thickness, x, y) {
      var i :=
        if x1 <= x <= x2 && y1 <= y < y1 + thickness then y - y1
        else if x1 <= x <= x2 && y2 - thickness < y <= y2 then y2 - y
        else if x1 <= x < x1 + thickness then x - x1
        else x2 - x;
      assert 0 <= i < thickness && Stroke(r, i, x, y);
    }
  }

  // ---------------------------------------------------------------------------
  // What the loops of `DrawLines` write

  /** The pixels of a texture, by column and row. */
  type Canvas = map<(int, int), Color32>

  /** How often `for (int i = 0; i < thickness; i++)` runs. */
  function Lines(thickness: int): (n: nat)
    ensures n == thickness || (n == 0 && thickness <= 0)
  {
    if thickness < 0 then 0 else thickness
  }

  /** Where `for (v = lo; v <= hi; v++)` leaves `v`. */
  function LoopEnd(lo: int, hi: int): (v: int)
    ensures v == hi + 1 || (v == lo && hi < lo)
  {
    if hi < lo then lo else hi + 1
  }

  /** `m` after `SetPixel(x, y1 + i)` and `SetPixel(x, y2 - i)` for
      `i = 0 .. n - 1`. */
  function PaintColumn(m: Canvas, x: int, y1: int, y2: int, n: nat, color: Color32): Canvas {
    if n == 0 then m
    else PaintColumn(m, x, y1, y2, n - 1, color)[(x, y1 + (n - 1)) := color][(x, y2 - (n - 1)) := color]
  }

  /** `m` after the first loop nest of `DrawLines` has done columns `x1 .. x - 1`. */
  function PaintColumns(m: Canvas, x1: int, x: int, y1: int, y2: int, thickness: int, color: Color32): Canvas
    decreases x - x1
  {
    if x <= x1 then m
    else PaintColumn(PaintColumns(m, x1, x - 1, y1, y2, thickness, color), x - 1, y1, y2, Lines(thickness), color)
  }

  /** `m` after `SetPixel(x1 + i, y)` and `SetPixel(x2 - i, y)` for
      `i = 0 .. n - 1`. */
  function PaintRow(m: Canvas, y: int, x1: int, x2: int, n: nat, color: Color32): Canvas {
    if n == 0 then m
    else PaintRow(m, y, x1, x2, n - 1, color)[(x1 + (n - 1), y) := color][(x2 - (n - 1), y) := color]
  }

  /** `m` after the second loop nest of `DrawLines` has done rows `y1 .. y - 1`. */
  function PaintRows(m: Canvas, y1: int, y: int, x1: int, x2: int, thickness: int, color: Color32): Canvas
    decreases y - y1
  {
    if y <= y1 then m
    else PaintRow(PaintRows(m, y1, y - 1, x1, x2, thickness, color), y - 1, x1, x2, Lines(thickness), color)
  }

  /** The texture after `DrawLines(r, color, thickness)`. */
  function DrawnLines(m: Canvas, r: Rect, color: Color32, thickness: int): Canvas {
    var x1, x2, y1, y2 := r.x, r.x + r.width, r.y, r.y + r.height;
    PaintRows(PaintColumns(m, x1, LoopEnd(x1, x2), y1, y2, thickness, color), y1, LoopEnd(y1, y2), x1, x2, thickness, color)
  }

  /** `after` is `before` with the outline of `r`, `thickness` lines deep,
      painted in `color`, and no other pixel changed. */
  ghost predicate Outlined(before: Canvas, after: Canvas,
                           r: Rect, thickness: int, color: Color32)
  {
    (forall p :: p in after <==> p in before || OnOutline(r, thickness, p.0, p.1)) &&
    (forall p :: p in after ==> after[p] == if OnOutline(r, thickness, p.0, p.1) then color else before[p])
  }

  /** What `DrawLines` has set so far: columns `x1 .. xEnd - 1` with both
      horizontal bands, column `xEnd` with the first `xi` lines of each band,
      rows `y1 .. yEnd - 1` with both vertical bands, and row `yEnd` with the
      first `yi` lines of each. */
  predicate Drawn(r: Rect, thickness: int, xEnd: int, xi: int, yEnd: int, yi: int, p: (int, int)) {
    var x1, x2, y1, y2 := r.x, r.x + r.width, r.y, r.y + r.height;
    (x1 <= p.0 < xEnd && InBands(y1, y2, thickness, p.1)) ||
    (p.0 == xEnd && InBands(y1, y2, xi, p.1)) ||
    (y1 <= p.1 < yEnd && InBands(x1, x2, thickness, p.0)) ||
    (p.1 == yEnd && InBands(x1, x2, yi, p.0))
  }

  /** `after` is `before` with the pixels `Drawn` names painted in `color`. */
  ghost predicate DrawnOver(before: Canvas, after: Canvas, color: Color32,
                            r: Rect, thickness: int, xEnd: int, xi: int, yEnd: int, yi: int)
  {
    (forall p :: p in after <==> p in before || Drawn(r, thickness, xEnd, xi, yEnd, yi, p)) &&
    (forall p :: p in after ==>
                   after[p] == if Drawn(r, thickness, xEnd, xi, yEnd, yi, p) then color else before[p])
  }

  /** Painting two more pixels in `color` extends a `DrawnOver` stage to one
      whose `Drawn` pixels are the old ones and those two. */
  lemma PaintTwo(before: Canvas, prev: Canvas, color: Color32, r: Rect, thickness: int,
                 xEnd: int, xi: int, yEnd: int, yi: int, xEnd': int, xi': int, yEnd': int, yi': int,
                 a: (int, int), b: (int, int))
    requires DrawnOver(before, prev, color, r, thickness, xEnd, xi, yEnd, yi)
    requires forall p :: Drawn(r, thickness, xEnd', xi', yEnd', yi', p) <==>
                         Drawn(r, thickness, xEnd, xi, yEnd, yi, p) || p == a || p == b
    ensures DrawnOver(before, prev[a := color][b := color], color, r, thickness, xEnd', xi', yEnd', yi')
  {
  }

  /** Line `i` of the horizontal bands at column `x` adds its two pixels. */
  lemma ColumnGrows(r: Rect, thickness: int, x: int, i: nat)
    ensures forall p :: Drawn(r, thickness, x, i + 1, r.y, 0, p) <==>
                        Drawn(r, thickness, x, i, r.y, 0, p) || p == (x, r.y + i) || p == (x, r.y + r.height - i)
  {
    forall p
      ensures Drawn(r, thickness, x, i + 1, r.y, 0, p) <==>
              Drawn(r, thickness, x, i, r.y, 0, p) || p == (x, r.y + i) || p == (x, r.y + r.height - i)
    {
    }
  }

  /** One pass of the first inner loop: line `i` of both horizontal bands at
      column `x`. */
  lemma ColumnStep(before: Canvas, m: Canvas, color: Color32,
                   r: Rect, thickness: int, x: int, i: nat)
    requires DrawnOver(before, PaintColumn(m, x, r.y, r.y + r.height, i, color), color, r, thickness, x, i, r.y, 0)
    ensures DrawnOver(before, PaintColumn(m, x, r.y, r.y + r.height, i + 1, color), color, r, thickness, x, i + 1, r.y, 0)
  {
    ColumnGrows(r, thickness, x, i);
    PaintTwo(before, PaintColumn(m, x, r.y, r.y + r.height, i, color), color, r, thickness,
             x, i, r.y, 0, x, i + 1, r.y, 0, (x, r.y + i), (x, r.y + r.height - i));
  }

  /** The first inner loop is done with column `x` once it has drawn
      `thickness` lines, or none when `thickness` is not positive. */
  lemma ColumnDone(before: Canvas, after: Canvas, color: Color32,
                   r: Rect, thickness: int, x: int, i: nat)
    requires DrawnOver(before, after, color, r, thickness, x, i, r.y, 0)
    requires r.x <= x && (i == thickness || (i == 0 && thickness <= 0))
    ensures DrawnOver(before, after, color, r, thickness, x + 1, 0, r.y, 0)
  {
    forall p
      ensures Drawn(r, thickness, x + 1, 0, r.y, 0, p) <==> Drawn(r, thickness, x, i, r.y, 0, p)
    {
    }
  }

  /** Line `i` of the vertical bands at row `y` adds its two pixels. */
  lemma RowGrows(r: Rect, thickness: int, xEnd: int, y: int, i: nat)
    ensures forall p :: Drawn(r, thickness, xEnd, 0, y, i + 1, p) <==>
                        Drawn(r, thickness, xEnd, 0, y, i, p) || p == (r.x + i, y) || p == (r.x + r.width - i, y)
  {
    forall p
      ensures Drawn(r, thickness, xEnd, 0, y, i + 1, p) <==>
              Drawn(r, thickness, xEnd, 0, y, i, p) || p == (r.x + i, y) || p == (r.x + r.width - i, y)
    {
    }
  }

  /** One pass of the second inner loop: line `i` of both vertical bands at
      row `y`. */
  lemma RowStep(before: Canvas, m: Canvas, color: Color32,
                r: Rect, thickness: int, xEnd: int, y: int, i: nat)
    requires DrawnOver(before, PaintRow(m, y, r.x, r.x + r.width, i, color), color, r, thickness, xEnd, 0, y, i)
    ensures DrawnOver(before, PaintRow(m, y, r.x, r.x + r.width, i + 1, color), color, r, thickness, xEnd, 0, y, i + 1)
  {
    RowGrows(r, thickness, xEnd, y, i);
    PaintTwo(before, PaintRow(m, y, r.x, r.x + r.width, i, color), color, r, thickness,
             xEnd, 0, y, i, xEnd, 0, y, i + 1, (r.x + i, y), (r.x + r.width - i, y));
  }

  lemma RowDone(before: Canvas, after: Canvas, color: Color32,
                r: Rect, thickness: int, xEnd: int, y: int, i: nat)
    requires DrawnOver(before, after, color, r, thickness, xEnd, 0, y, i)
    requires r.y <= y && (i == thickness || (i == 0 && thickness <= 0))
    ensures DrawnOver(before, after, color, r, thickness, xEnd, 0, y + 1, 0)
  {
    forall p
      ensures Drawn(r, thickness, xEnd, 0, y + 1, 0, p) <==> Drawn(r, thickness, xEnd, 0, y, i, p)
    {
    }
  }

  /** When both outer loops have run to the far edge, what was drawn is the
      outline. */
  lemma DrawnIsOutlined(before: Canvas, after: Canvas, color: Color32,
                        r: Rect, thickness: int, xEnd: int, yEnd: int)
    requires DrawnOver(before, after, color, r, thickness, xEnd, 0, yEnd, 0)
    requires xEnd == LoopEnd(r.x, r.x + r.width) && yEnd == LoopEnd(r.y, r.y + r.height)
    ensures Outlined(before, after, r, thickness, color)
  {
    forall p
      ensures Drawn(r, thickness, xEnd, 0, yEnd, 0, p) <==> OnOutline(r, thickness, p.0, p.1)
    {
    }
  }

  lemma {:induction false} PaintColumnDrawn(before: Canvas, m: Canvas, color: Color32, r: Rect, thickness: int, x: int, n: nat)
    requires DrawnOver(before, m, color, r, thickness, x, 0, r.y, 0)
    ensures DrawnOver(before, PaintColumn(m, x, r.y, r.y + r.height, n, color), color, r, thickness, x, n, r.y, 0)
  {
    if n > 0 {
      PaintColumnDrawn(before, m, color, r, thickness, x, n - 1);
      ColumnStep(before, m, color, r, thickness, x, n - 1);
    }
  }

  lemma {:induction false} PaintColumnsDrawn(before: Canvas, color: Color32, r: Rect, thickness: int, x: int)
    requires r.x <= x
    ensures DrawnOver(before, PaintColumns(before, r.x, x, r.y, r.y + r.height, thickness, color), color,
                      r, thickness, x, 0, r.y, 0)
    decreases x - r.x
  {
    if x > r.x {
      var prior := PaintColumns(before, r.x, x - 1, r.y, r.y + r.height, thickness, color);
      PaintColumnsDrawn(before, color, r, thickness, x - 1);
      PaintColumnDrawn(before, prior, color, r, thickness, x - 1, Lines(thickness));
      ColumnDone(before, PaintColumn(prior, x - 1, r.y, r.y + r.height, Lines(thickness), color), color,
                 r, thickness, x - 1, Lines(thickness));
    }
  }

  lemma {:induction false} PaintRowDrawn(before: Canvas, m: Canvas, color: Color32, r: Rect, thickness: int,
                                         xEnd: int, y: int, n: nat)
    requires DrawnOver(before, m, color, r, thickness, xEnd, 0, y, 0)
    ensures DrawnOver(before, PaintRow(m, y, r.x, r.x + r.width, n, color), color, r, thickness, xEnd, 0, y, n)
  {
    if n > 0 {
      PaintRowDrawn(before, m, color, r, thickness, xEnd, y, n - 1);
      RowStep(before, m, color, r, thickness, xEnd, y, n - 1);
    }
  }

  lemma {:induction false} PaintRowsDrawn(before: Canvas, columns: Canvas, color: Color32, r: Rect, thickness: int,
                                          xEnd: int, y: int)
    requires r.y <= y
    requires DrawnOver(before, columns, color, r, thickness, xEnd, 0, r.y, 0)
    ensures DrawnOver(before, PaintRows(columns, r.y, y, r.x, r.x + r.width, thickness, color), color,
                      r, thickness, xEnd, 0, y, 0)
    decreases y - r.y
  {
    if y > r.y {
      var prior := PaintRows(columns, r.y, y - 1, r.x, r.x + r.width, thickness, color);
      PaintRowsDrawn(before, columns, color, r, thickness, xEnd, y - 1);
      PaintRowDrawn(before, prior, color, r, thickness, xEnd, y - 1, Lines(thickness));
      RowDone(before, PaintRow(prior, y - 1, r.x, r.x + r.width, Lines(thickness), color), color,
              r, thickness, xEnd, y - 1, Lines(thickness));
    }
  }

  /** `DrawLines` paints the outline of its rectangle in its colour, and
      changes no other pixel. */
  lemma DrawnLinesOutlined(m: Canvas, r: Rect, color: Color32, thickness: int)
    ensures Outlined(m, DrawnLines(m, r, color, thickness), r, thickness, color)
  {
    var xEnd := LoopEnd(r.x, r.x + r.width);
    var yEnd := LoopEnd(r.y, r.y + r.height);
    PaintColumnsDrawn(m, color, r, thickness, xEnd);
    PaintRowsDrawn(m, PaintColumns(m, r.x, xEnd, r.y, r.y + r.height, thickness, color), color, r, thickness, xEnd, yEnd);
    DrawnIsOutlined(m, DrawnLines(m, r, color, thickness), color, r, thickness, xEnd, yEnd);
  }
}
