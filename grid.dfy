/**
 * Row-major addressing of a width x height grid of packed pixels, and the
 * value-level meaning of the buffer updates in src/lib.rs: clearing, writing
 * one clipped pixel, and blitting a clipped rectangle.
 */
module Grid {
  import opened Colors

  /** Row-major position of pixel (x, y) in a grid `width` pixels wide. */
  function Index(width: nat, x: nat, y: nat): nat
  {
    y * width + x
  }

  lemma MulLe(a: nat, b: nat, c: nat)
    requires a <= b
    ensures a * c <= b * c
  {
    assert b * c == a * c + (b - a) * c;
  }

  /** An in-bounds pixel has its index inside the width * height cells. */
  lemma {:induction false} IndexInRange(width: nat, height: nat, x: nat, y: nat)
    requires x < width && y < height
    ensures Index(width, x, y) < width * height
  {
    MulLe(y + 1, height, width);
    assert (y + 1) * width == y * width + width;
    assert height * width == width * height;
  }

  /** Distinct pixels of a row have distinct indices. */
  lemma {:induction false} IndexInjective(width: nat, x1: nat, y1: nat, x2: nat, y2: nat)
    requires x1 < width && x2 < width
    requires Index(width, x1, y1) == Index(width, x2, y2)
    ensures x1 == x2 && y1 == y2
  {
    assert (y1 + 1) * width == y1 * width + width;
    assert (y2 + 1) * width == y2 * width + width;
    if y1 < y2 {
      MulLe(y1 + 1, y2, width);
    } else if y2 < y1 {
      MulLe(y2 + 1, y1, width);
    }
  }

  /** Column and row are recovered from an index as remainder and quotient by the width. */
  lemma {:induction false} IndexCoordinates(width: nat, x: nat, y: nat)
    requires x < width
    ensures Index(width, x, y) % width == x && Index(width, x, y) / width == y
  {
    var k := Index(width, x, y);
    assert k == (k / width) * width + k % width;
    IndexInjective(width, k % width, k / width, x, y);
  }

  /** Every cell of a width * height grid is the index of an in-bounds pixel. */
  lemma {:induction false} CoordinatesInRange(width: nat, height: nat, k: nat)
    requires k < width * height
    ensures 0 < width
    ensures k % width < width && k / width < height
    ensures Index(width, k % width, k / width) == k
  {
    if width == 0 { assert false; }
    assert k == (k / width) * width + k % width;
    assert height * width == width * height;
    if k / width >= height {
      MulLe(height, k / width, width);
    }
  }

  /** Every cell of `s` overwritten with `v`. */
  function Fill(s: seq<bv32>, v: bv32): seq<bv32>
  {
    seq(|s|, _ => v)
  }

  /** Filling keeps the length and puts `v` everywhere; filling twice is filling once. */
  lemma FillIdempotent(s: seq<bv32>, v: bv32)
    ensures |Fill(s, v)| == |s|
    ensures forall k :: 0 <= k < |s| ==> Fill(s, v)[k] == v
    ensures Fill(Fill(s, v), v) == Fill(s, v)
  {
  }

  /** Pixel (x, y) set to `v`, or nothing at all when (x, y) lies outside the grid. */
  function PutPixel(s: seq<bv32>, width: nat, height: nat, x: nat, y: nat, v: bv32): (r: seq<bv32>)
    requires |s| == width * height
    ensures |r| == |s|
  {
    if x < width && y < height then
      IndexInRange(width, height, x, y);
      s[Index(width, x, y) := v]
    else
      s
  }

  /** An in-bounds write lands at (x, y) and leaves every other cell alone. */
  lemma PutPixelInBounds(s: seq<bv32>, width: nat, height: nat, x: nat, y: nat, v: bv32, k: nat)
    requires |s| == width * height && x < width && y < height && k < |s|
    ensures |PutPixel(s, width, height, x, y, v)| == |s|
    ensures PutPixel(s, width, height, x, y, v)[k] == if k == Index(width, x, y) then v else s[k]
    ensures k == Index(width, x, y) <==> k % width == x && k / width == y
  {
    CoordinatesInRange(width, height, k);
    IndexCoordinates(width, x, y);
    IndexInRange(width, height, x, y);
    if k == Index(width, x, y) {
      assert k % width == x && k / width == y;
    }
    if k % width == x && k / width == y {
      assert k == Index(width, x, y);
    }
  }

  /** An out-of-bounds write is clipped: the grid is unchanged. */
  lemma PutPixelClipped(s: seq<bv32>, width: nat, height: nat, x: nat, y: nat, v: bv32)
    requires |s| == width * height && !(x < width && y < height)
    ensures PutPixel(s, width, height, x, y, v) == s
  {
  }

  /** Writes to two different pixels commute. */
  lemma PutPixelCommute(s: seq<bv32>, width: nat, height: nat,
                        x1: nat, y1: nat, v1: bv32, x2: nat, y2: nat, v2: bv32)
    requires |s| == width * height && (x1, y1) != (x2, y2)
    ensures PutPixel(PutPixel(s, width, height, x1, y1, v1), width, height, x2, y2, v2)
         == PutPixel(PutPixel(s, width, height, x2, y2, v2), width, height, x1, y1, v1)
  {
    if x1 < width && y1 < height && x2 < width && y2 < height {
      IndexInRange(width, height, x1, y1);
      IndexInRange(width, height, x2, y2);
      if Index(width, x1, y1) == Index(width, x2, y2) {
        IndexInjective(width, x1, y1, x2, y2);
      }
      var a, b := Index(width, x1, y1), Index(width, x2, y2);
      assert s[a := v1][b := v2] == s[b := v2][a := v1];
    }
  }

  /** Whether destination (x, y) lies under a w x h slice drawn with its top-left corner at (ox, oy). */
  predicate Covers(ox: nat, oy: nat, w: nat, h: nat, x: nat, y: nat)
  {
    ox <= x < ox + w && oy <= y < oy + h
  }

  /**
   * Whether slice pixel (i, j) has been written by a sweep that finished
   * columns 0 .. cols - 1 and rows 0 .. rows - 1 of column `cols`.
   */
  predicate Swept(i: nat, j: nat, cols: nat, rows: nat)
  {
    i < cols || (i == cols && j < rows)
  }

  /**
   * The grid after the x-outer, y-inner sweep that draws `src` (w x h, row-major)
   * at (ox, oy) has written the slice pixels `Swept(_, _, cols, rows)`, each through
   * a clipped single-pixel write.
   */
  function Sweep(s: seq<bv32>, width: nat, height: nat, ox: nat, oy: nat, w: nat, h: nat,
                 src: seq<Color>, cols: nat, rows: nat): (r: seq<bv32>)
    requires |s| == width * height && |src| == w * h
    ensures |r| == |s|
  {
    seq(|s|, k requires 0 <= k < |s| =>
      CoordinatesInRange(width, height, k);
      var x, y := k % width, k / width;
      if Covers(ox, oy, w, h, x, y) && Swept(x - ox, y - oy, cols, rows) then
        IndexInRange(w, h, x - ox, y - oy);
        src[Index(w, x - ox, y - oy)].AsU32()
      else
        s[k])
  }

  /** The grid after drawing all of `src` at (ox, oy), clipped to the grid. */
  function Blit(s: seq<bv32>, width: nat, height: nat, ox: nat, oy: nat, w: nat, h: nat,
                src: seq<Color>): seq<bv32>
    requires |s| == width * height && |src| == w * h
  {
    Sweep(s, width, height, ox, oy, w, h, src, w, 0)
  }

  /** Before the sweep starts nothing is written. */
  lemma SweepStart(s: seq<bv32>, width: nat, height: nat, ox: nat, oy: nat, w: nat, h: nat,
                   src: seq<Color>)
    requires |s| == width * height && |src| == w * h
    ensures Sweep(s, width, height, ox, oy, w, h, src, 0, 0) == s
  {
  }

  /** A finished column is the same state as the start of the next one. */
  lemma SweepNextColumn(s: seq<bv32>, width: nat, height: nat, ox: nat, oy: nat, w: nat, h: nat,
                        src: seq<Color>, cols: nat)
    requires |s| == width * height && |src| == w * h
    ensures Sweep(s, width, height, ox, oy, w, h, src, cols, h)
         == Sweep(s, width, height, ox, oy, w, h, src, cols + 1, 0)
  {
  }

  /** One inner-loop step: the clipped write of slice pixel (i, j) sweeps that pixel. */
  lemma {:induction false} SweepStep(s: seq<bv32>, width: nat, height: nat, ox: nat, oy: nat,
                                     w: nat, h: nat, src: seq<Color>, i: nat, j: nat)
    requires |s| == width * height && |src| == w * h
    requires i < w && j < h
    ensures Index(w, i, j) < |src|
    ensures PutPixel(Sweep(s, width, height, ox, oy, w, h, src, i, j), width, height,
                     ox + i, oy + j, src[Index(w, i, j)].AsU32())
         == Sweep(s, width, height, ox, oy, w, h, src, i, j + 1)
  {
    IndexInRange(w, h, i, j);
    var before := Sweep(s, width, height, ox, oy, w, h, src, i, j);
    var after := Sweep(s, width, height, ox, oy, w, h, src, i, j + 1);
    var v := src[Index(w, i, j)].AsU32();
    var put := PutPixel(before, width, height, ox + i, oy + j, v);
    forall k | 0 <= k < |s|
      ensures put[k] == after[k]
    {
      CoordinatesInRange(width, height, k);
      if ox + i < width && oy + j < height {
        PutPixelInBounds(before, width, height, ox + i, oy + j, v, k);
      }
    }
  }

  /**
   * The grid after the remaining iterations j .. h - 1 of the blit's inner loop run
   * on `s` for slice column i: one clipped single-pixel write per row, top to bottom.
   */
  function Column(s: seq<bv32>, width: nat, height: nat, ox: nat, oy: nat, w: nat, h: nat,
                  src: seq<Color>, i: nat, j: nat): (r: seq<bv32>)
    requires |s| == width * height && |src| == w * h && i < w && j <= h
    ensures |r| == |s|
    decreases h - j
  {
    if j == h then
      s
    else
      IndexInRange(w, h, i, j);
      Column(PutPixel(s, width, height, ox + i, oy + j, src[Index(w, i, j)].AsU32()),
             width, height, ox, oy, w, h, src, i, j + 1)
  }

  /**
   * The grid after the remaining iterations i .. w - 1 of the blit's outer loop run
   * on `s`: the inner loop over each slice column, left to right.
   */
  function Columns(s: seq<bv32>, width: nat, height: nat, ox: nat, oy: nat, w: nat, h: nat,
                   src: seq<Color>, i: nat): (r: seq<bv32>)
    requires |s| == width * height && |src| == w * h && i <= w
    ensures |r| == |s|
    decreases w - i
  {
    if i == w then
      s
    else
      Columns(Column(s, width, height, ox, oy, w, h, src, i, 0), width, height, ox, oy, w, h, src, i + 1)
  }

  /** Finishing the inner loop over column i from row j completes that column of the sweep. */
  lemma {:induction false} ColumnSweeps(s: seq<bv32>, width: nat, height: nat, ox: nat, oy: nat,
                                        w: nat, h: nat, src: seq<Color>, i: nat, j: nat)
    requires |s| == width * height && |src| == w * h && i < w && j <= h
    ensures Column(Sweep(s, width, height, ox, oy, w, h, src, i, j), width, height, ox, oy, w, h, src, i, j)
         == Sweep(s, width, height, ox, oy, w, h, src, i, h)
    decreases h - j
  {
    if j < h {
      SweepStep(s, width, height, ox, oy, w, h, src, i, j);
      ColumnSweeps(s, width, height, ox, oy, w, h, src, i, j + 1);
    }
  }

  /** Finishing the outer loop from column i completes the sweep. */
  lemma {:induction false} ColumnsSweep(s: seq<bv32>, width: nat, height: nat, ox: nat, oy: nat,
                                        w: nat, h: nat, src: seq<Color>, i: nat)
    requires |s| == width * height && |src| == w * h && i <= w
    ensures Columns(Sweep(s, width, height, ox, oy, w, h, src, i, 0), width, height, ox, oy, w, h, src, i)
         == Sweep(s, width, height, ox, oy, w, h, src, w, 0)
    decreases w - i
  {
    if i < w {
      ColumnSweeps(s, width, height, ox, oy, w, h, src, i, 0);
      SweepNextColumn(s, width, height, ox, oy, w, h, src, i);
      ColumnsSweep(s, width, height, ox, oy, w, h, src, i + 1);
    }
  }

  /**
   * The whole loop nest of the blit (x outer, y inner, one clipped write per slice
   * pixel) produces exactly the clipped blit.
   */
  lemma ColumnsBlit(s: seq<bv32>, width: nat, height: nat, ox: nat, oy: nat,
                    w: nat, h: nat, src: seq<Color>)
    requires |s| == width * height && |src| == w * h
    ensures Columns(s, width, height, ox, oy, w, h, src, 0) == Blit(s, width, height, ox, oy, w, h, src)
  {
    SweepStart(s, width, height, ox, oy, w, h, src);
    ColumnsSweep(s, width, height, ox, oy, w, h, src, 0);
  }

  /** Every destination pixel under the slice and inside the grid holds the matching slice pixel. */
  lemma {:induction false} BlitInside(s: seq<bv32>, width: nat, height: nat, ox: nat, oy: nat,
                                      w: nat, h: nat, src: seq<Color>, i: nat, j: nat)
    requires |s| == width * height && |src| == w * h
    requires i < w && j < h && ox + i < width && oy + j < height
    ensures Index(width, ox + i, oy + j) < |s| && Index(w, i, j) < |src|
    ensures Blit(s, width, height, ox, oy, w, h, src)[Index(width, ox + i, oy + j)]
         == src[Index(w, i, j)].AsU32()
  {
    IndexInRange(width, height, ox + i, oy + j);
    IndexInRange(w, h, i, j);
    IndexCoordinates(width, ox + i, oy + j);
  }

  /** Every cell not under the slice keeps its value. */
  lemma {:induction false} BlitOutside(s: seq<bv32>, width: nat, height: nat, ox: nat, oy: nat,
                                       w: nat, h: nat, src: seq<Color>, k: nat)
    requires |s| == width * height && |src| == w * h
    requires k < |s|
    requires 0 < width ==> !Covers(ox, oy, w, h, k % width, k / width)
    ensures Blit(s, width, height, ox, oy, w, h, src)[k] == s[k]
  {
    CoordinatesInRange(width, height, k);
  }

  /** No destination cell is written twice: distinct slice pixels land on distinct cells. */
  lemma {:induction false} BlitTargetsDistinct(width: nat, height: nat, ox: nat, oy: nat,
                                               i1: nat, j1: nat, i2: nat, j2: nat)
    requires ox + i1 < width && oy + j1 < height && ox + i2 < width && oy + j2 < height
    requires (i1, j1) != (i2, j2)
    ensures Index(width, ox + i1, oy + j1) != Index(width, ox + i2, oy + j2)
  {
    if Index(width, ox + i1, oy + j1) == Index(width, ox + i2, oy + j2) {
      IndexInjective(width, ox + i1, oy + j1, ox + i2, oy + j2);
    }
  }
}
