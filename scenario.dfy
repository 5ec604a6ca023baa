/** A client of the drawing context, showing what callers can conclude from its contracts. */
module Scenario {
  import opened Colors
  import opened Grid
  import opened Offbrand

  /**
   * Clear an 8 x 8 context to black and draw a 2 x 2 white square at (3, 3):
   * the four covered pixels are white and all others stay black.
   */
  method DrawWhiteSquare()
  {
    var ctx := new Context(8, 8);
    ctx.Clear(None);
    ghost var cleared := ctx.pixelBuffer.AsRef();
    var square := [WHITE, WHITE, WHITE, WHITE];
    ctx.InsertSlice(3, 3, 2, 2, square);
    KnownPackedValues();
    forall x: nat, y: nat | x < 8 && y < 8 && Covers(3, 3, 2, 2, x, y)
      ensures ctx.pixelBuffer.At(x, y) == 0xff_ffff
    {
      BlitInside(cleared, 8, 8, 3, 3, 2, 2, square, x - 3, y - 3);
    }
    forall x: nat, y: nat | x < 8 && y < 8 && !Covers(3, 3, 2, 2, x, y)
      ensures ctx.pixelBuffer.At(x, y) == 0
    {
      IndexInRange(8, 8, x, y);
      IndexCoordinates(8, x, y);
      BlitOutside(cleared, 8, 8, 3, 3, 2, 2, square, Index(8, x, y));
    }
  }
}
