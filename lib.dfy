/**
 * The drawing context of src/lib.rs: a fixed-size row-major buffer of packed
 * pixels that is cleared, written pixel by pixel, and blitted onto with clipping.
 * The host window is not modelled; see README.md.
 */
module Offbrand {
  import opened Colors
  import opened Grid

  datatype Option<T> = None | Some(value: T) {
    /** The value when present, otherwise `default`. */
    function UnwrapOr(default: T): T
    {
      match this
      case Some(v) => v
      case None => default
    }
  }

  /**
   * Anything drawable: its dimensions and its pixels in row-major order. Nothing
   * promises that the data has width * height pixels; drawing checks it.
   */
  datatype Renderable = Renderable(w: nat, h: nat, pixels: seq<Color>) {
    function Dimensions(): (nat, nat)
    {
      (w, h)
    }

    function Data(): seq<Color>
    {
      pixels
    }
  }

  /** A width x height grid of packed pixels stored row by row. */
  class PixelBuffer {
    const data: array<bv32>
    const width: nat
    const height: nat

    ghost predicate Valid()
    {
      data.Length == width * height
    }

    /** A zero-filled (all black) buffer of width * height pixels. */
    constructor (width: nat, height: nat)
      ensures Valid() && fresh(data)
      ensures this.width == width && this.height == height
      ensures forall k :: 0 <= k < data.Length ==> data[k] == 0
    {
      this.width := width;
      this.height := height;
      data := new bv32[height * width](_ => 0);
    }

    /** The whole buffer, row-major, as a read-only view. */
    function AsRef(): (s: seq<bv32>)
      reads data
      requires Valid()
      ensures |s| == width * height
    {
      data[..]
    }

    /** The pixel at column x, row y; aborts unless (x, y) lies inside the buffer. */
    function At(x: nat, y: nat): (v: bv32)
      reads data
      requires Valid()
      requires x < width && y < height
      ensures Index(width, x, y) < |AsRef()| && v == AsRef()[Index(width, x, y)]
      ensures forall k :: 0 <= k < data.Length && k % width == x && k / width == y ==> v == data[k]
    {
      IndexInRange(width, height, x, y);
      IndexCoordinates(width, x, y);
      AtCell(x, y);
      data[Index(width, x, y)]
    }

    /** The cell with column x and row y is the one at Index(width, x, y). */
    lemma AtCell(x: nat, y: nat)
      requires Valid() && x < width && y < height
      ensures forall k :: 0 <= k < data.Length && k % width == x && k / width == y ==> k == Index(width, x, y)
    {
      forall k | 0 <= k < data.Length && k % width == x && k / width == y
        ensures k == Index(width, x, y)
      {
        CoordinatesInRange(width, height, k);
      }
    }

    /**
     * The location of pixel (x, y), through which a caller writes it; aborts unless
     * (x, y) lies inside the buffer.
     */
    method AtMut(x: nat, y: nat) returns (k: nat)
      requires Valid()
      requires x < width && y < height
      ensures k < data.Length
      ensures k % width == x && k / width == y
    {
      IndexInRange(width, height, x, y);
      IndexCoordinates(width, x, y);
      k := Index(width, x, y);
    }

    /** The whole buffer, for in-place updates. */
    method AsMutRef() returns (a: array<bv32>)
      requires Valid()
      ensures a == data && a.Length == width * height
    {
      a := data;
    }
  }

  /** The drawing context: the pixel buffer and copies of its dimensions. */
  class Context {
    const pixelBuffer: PixelBuffer
    const height: nat
    const width: nat

    ghost predicate Valid()
      reads this, pixelBuffer
    {
      pixelBuffer.Valid() && width == pixelBuffer.width && height == pixelBuffer.height
    }

    /** A context whose buffer has width * height black pixels. */
    constructor (width: nat, height: nat)
      ensures Valid() && fresh(pixelBuffer) && fresh(pixelBuffer.data)
      ensures this.width == width && this.height == height
      ensures pixelBuffer.AsRef() == seq(width * height, _ => 0)
    {
      var buffer := new PixelBuffer(width, height);
      pixelBuffer := buffer;
      this.width := width;
      this.height := height;
    }

    /** Sets every pixel to `color`, black when no color is given. */
    method Clear(color: Option<Color>)
      requires Valid()
      modifies pixelBuffer.data
      ensures pixelBuffer.AsRef() == Fill(old(pixelBuffer.AsRef()), color.UnwrapOr(BLACK).AsU32())
    {
      var packed := color.UnwrapOr(BLACK).AsU32();
      var pixels := pixelBuffer.AsMutRef();
      for k := 0 to pixels.Length
        invariant forall i :: 0 <= i < k ==> pixels[i] == packed
      {
        pixels[k] := packed;
      }
    }

    /** Writes `color` at (x, y) when that lies inside the buffer; otherwise does nothing. */
    method InsertPixel(x: nat, y: nat, color: Color)
      requires Valid()
      modifies pixelBuffer.data
      ensures pixelBuffer.AsRef() == PutPixel(old(pixelBuffer.AsRef()), width, height, x, y, color.AsU32())
      ensures x < width && y < height ==> pixelBuffer.At(x, y) == color.AsU32()
      ensures forall x': nat, y': nat :: x' < width && y' < height && (x', y') != (x, y) ==>
                pixelBuffer.At(x', y') == old(pixelBuffer.At(x', y'))
    {
      if x < pixelBuffer.width && y < pixelBuffer.height {
        var k := pixelBuffer.AtMut(x, y);
        IndexCoordinates(width, x, y);
        CoordinatesInRange(width, height, k);
        pixelBuffer.data[k] := color.AsU32();
      }
      forall x': nat, y': nat | x' < width && y' < height && (x', y') != (x, y)
        ensures pixelBuffer.At(x', y') == old(pixelBuffer.At(x', y'))
      {
        IndexInRange(width, height, x', y');
        if x < width && y < height {
          BlitTargetsDistinct(width, height, 0, 0, x', y', x, y);
        }
      }
    }

    /**
     * Draws the w x h row-major `slice` with its top-left corner at (ox, oy), one
     * clipped pixel write per slice pixel; aborts unless the slice has w * h pixels.
     */
    method InsertSlice(ox: nat, oy: nat, w: nat, h: nat, slice: seq<Color>)
      requires Valid()
      requires w * h == |slice|
      modifies pixelBuffer.data
      ensures pixelBuffer.AsRef() == Blit(old(pixelBuffer.AsRef()), width, height, ox, oy, w, h, slice)
    {
      ghost var after := Columns(pixelBuffer.AsRef(), width, height, ox, oy, w, h, slice, 0);
      ColumnsBlit(pixelBuffer.AsRef(), width, height, ox, oy, w, h, slice);
      for x := 0 to w
        invariant Columns(pixelBuffer.AsRef(), width, height, ox, oy, w, h, slice, x) == after
      {
        for y := 0 to h
          invariant Columns(Column(pixelBuffer.AsRef(), width, height, ox, oy, w, h, slice, x, y),
                            width, height, ox, oy, w, h, slice, x + 1) == after
        {
          IndexInRange(w, h, x, y);
          InsertPixel(x + ox, y + oy, slice[y * w + x]);
        }
      }
    }

    /** Draws `renderable` with its top-left corner at (x, y). */
    method Render(x: nat, y: nat, renderable: Renderable)
      requires Valid()
      requires renderable.Dimensions().0 * renderable.Dimensions().1 == |renderable.Data()|
      modifies pixelBuffer.data
      ensures pixelBuffer.AsRef() == Blit(old(pixelBuffer.AsRef()), width, height, x, y,
                                          renderable.Dimensions().0, renderable.Dimensions().1,
                                          renderable.Data())
    {
      var (w, h) := renderable.Dimensions();
      var slice := renderable.Data();
      InsertSlice(x, y, w, h, slice);
    }
  }
}
