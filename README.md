# offbrand pixel compositing core, in Dafny

This project models the core of the `offbrand` software renderer:

- the 8-bit RGB `Color` and its packed `u32` form (`src/color.rs`);
- the fixed-size, row-major `PixelBuffer` of packed pixels with bounds-asserting accessors;
- the drawing operations of `Context` (`src/lib.rs`):
  - clearing the buffer;
  - writing one pixel, silently clipped;
  - blitting a `w x h` row-major slice at an offset, clipped at the right and bottom edges;
  - rendering anything that exposes dimensions and row-major pixel data (`Renderable`).

Files:

- `color.dfy` (module `Colors`): `Color` as a datatype of three `bv8` channels. `AsU32` computes the packed `bv32` with the same shifts and ORs as the source. Lemmas give its arithmetic value, its bound, channel recovery, injectivity and the packed values of `BLACK`, `WHITE` and `0x123456`.
- `grid.dfy` (module `Grid`): row-major addressing `Index(width, x, y) = y * width + x`. It also holds the value-level meaning of each buffer update:
  - `Fill` for clearing;
  - `PutPixel` for one clipped write;
  - `Column` and `Columns` for the blit's two nested loops, as folds of clipped writes;
  - `Sweep` for the loops' partial state, stated cell by cell;
  - `Blit` for the finished blit.
  Lemmas state what each of these does to every cell.
- `lib.dfy` (module `Offbrand`): `PixelBuffer` and `Context` as classes over an `array<bv32>` that is updated in place.
  - Each mutating method ties the new buffer contents to a `Grid` function of the old contents.
  - `Context.Valid()` keeps the context's `width` and `height` equal to the buffer's.
  - `Renderable` is a record of dimensions and data with the trait's two accessors.
- `scenario.dfy` (module `Scenario`): a client that clears an 8 x 8 context and draws a 2 x 2 white square at (3, 3). From the contracts alone it concludes that exactly those four pixels are white and every other pixel is black.

Panicking `assert!`s in the source (`at`, `at_mut`, `insert_slice`) are preconditions in the model: a caller that violates them aborts in the source and fails to verify here.

Where the specification of the renderer and its code differ, the model follows the code:

- The specification calls for a strict (faulting) single-pixel write. `insert_pixel` (src/lib.rs:115-119) clips silently instead, and so does `Context.InsertPixel`.
- The specification has an unpack function. The code has none, so unpacking is stated only as lemmas (`AsU32Channels`, `AsU32Injective`).
- Offsets are unsigned (`usize`), so a slice can only be clipped at the right and bottom edges. A negative-offset draw cannot be expressed.
- src/lib.rs:105 names `Color::BLACK`, but src/color.rs:20 defines `BLACK` as a free constant. The model uses that constant.

## Model

| member | source | states |
|---|---|---|
| Colors.New | src/color.rs:10-12 | the three channels are stored unchanged |
| Colors.PackedFieldsDisjoint | src/color.rs:14-17 | OR-ing three bytes shifted by 16, 8 and 0 equals their weighted sum: the bit fields do not overlap |
| Colors.AsU32Arithmetic | src/color.rs:14-17 | the packed value equals r * 0x10000 + g * 0x100 + b (in u32 arithmetic) |
| Colors.AsU32Bound | src/color.rs:14-17 | the packed value is below 2^24; its top eight bits are zero |
| Colors.AsU32Channels | src/color.rs:14-17 | r, g and b are recovered as (p >> 16) & 0xff, (p >> 8) & 0xff and p & 0xff |
| Colors.AsU32Injective | src/color.rs:14-17 | two colors pack to the same value if and only if they are equal |
| Colors.KnownPackedValues | src/color.rs:14-21 | BLACK packs to 0, WHITE to 0xFFFFFF, and (0x12, 0x34, 0x56) to 0x123456, so red is the high channel |
| Grid.IndexInRange | src/lib.rs:48-58 | when x < width and y < height, the index y * width + x is below width * height |
| Grid.IndexInjective | src/lib.rs:51 | distinct in-bounds pixels (x < width) have distinct indices |
| Grid.IndexCoordinates | src/lib.rs:58 | the index of (x, y) has remainder x and quotient y by the width |
| Grid.CoordinatesInRange | src/lib.rs:43-44 | every cell of a width * height buffer is the index of the in-bounds pixel given by its remainder and quotient |
| Grid.FillIdempotent | src/lib.rs:104-107 | clearing keeps the length, puts the packed color in every cell, and clearing twice equals clearing once |
| Grid.PutPixelInBounds | src/lib.rs:115-119 | an in-bounds write changes exactly the cell whose coordinates are (x, y) and no other |
| Grid.PutPixelClipped | src/lib.rs:115-119 | an out-of-bounds write leaves the buffer unchanged |
| Grid.PutPixelCommute | src/lib.rs:127-130 | writes to different pixels commute, so the order of the blit's writes does not matter |
| Grid.SweepStep | src/lib.rs:128-130 | one inner-loop write of slice pixel (i, j) at (ox + i, oy + j) advances the sweep by exactly that pixel |
| Grid.SweepNextColumn | src/lib.rs:127-131 | a finished column of the sweep equals the start of the next one |
| Grid.SweepStart | src/lib.rs:125-127 | before the loops run, the sweep has written nothing |
| Grid.Column | src/lib.rs:128-130 | the remaining iterations of the inner loop over one slice column, as a fold of clipped single-pixel writes top to bottom, keep the buffer's length |
| Grid.Columns | src/lib.rs:127-131 | the remaining iterations of the outer loop, column by column left to right, keep the buffer's length |
| Grid.ColumnSweeps | src/lib.rs:128-130 | finishing the inner loop over column i from row j completes exactly that column, clipped |
| Grid.ColumnsSweep | src/lib.rs:127-131 | finishing the outer loop from column i completes the remaining columns, clipped |
| Grid.ColumnsBlit | src/lib.rs:123-131 | the whole loop nest, run from the first column, produces the clipped blit |
| Grid.BlitInside | src/lib.rs:123-131 | every covered in-bounds destination (ox + i, oy + j) holds the packed slice pixel at j * w + i |
| Grid.BlitOutside | src/lib.rs:123-131 | every cell outside the slice's rectangle keeps its value |
| Grid.BlitTargetsDistinct | src/lib.rs:127-131 | distinct slice pixels land on distinct destination cells, so no cell is written twice |
| Offbrand.PixelBuffer.constructor | src/lib.rs:43-45 | the buffer has width * height cells, all zero |
| Offbrand.PixelBuffer.AsRef | src/lib.rs:62-64 | the read-only view has width * height elements |
| Offbrand.PixelBuffer.At | src/lib.rs:48-52 | callable only for x < width and y < height; returns the cell at index y * width + x, the one whose remainder and quotient are (x, y) |
| Offbrand.PixelBuffer.AtCell | src/lib.rs:51 | the only cell with coordinates (x, y) is the one at y * width + x |
| Offbrand.PixelBuffer.AtMut | src/lib.rs:55-59 | callable only for x < width and y < height; returns an in-range location whose coordinates are (x, y) |
| Offbrand.PixelBuffer.AsMutRef | src/lib.rs:67-69 | the mutable view is the whole buffer, of width * height cells |
| Offbrand.Context.constructor | src/lib.rs:83-95 | the context's buffer has width * height zero cells and the context's width and height equal the buffer's |
| Offbrand.Context.Clear | src/lib.rs:104-107 | every cell becomes the packed color, or packed BLACK (0) when no color is given; the length is unchanged |
| Offbrand.Context.InsertPixel | src/lib.rs:115-119 | never aborts; in bounds, pixel (x, y) reads back as the packed color and every other pixel is unchanged; out of bounds, nothing changes |
| Offbrand.Context.InsertSlice | src/lib.rs:123-132 | callable only when w * h equals the slice length; the loop nest turns the buffer into the clipped blit of the slice at (ox, oy) over the old buffer |
| Offbrand.Context.Render | src/lib.rs:135-143 | same effect as InsertSlice with the renderable's dimensions and data |

## Left out

- The host window is left out: creating it (`Window::new`, and the error `Context::new` returns when that fails), `limit_update_rate`, `present`, `is_open`, `get_mouse_pos` and `get_mouse_down`. These pass through to the windowing library and do I/O.
- The `scale` field and the `title` parameter of `Context::new` are left out: they only size and label the host window and never affect buffer addressing.
- The `Error` and `Result` types are left out: they only wrap the windowing and image libraries' errors.
- `Image` (src/img.rs) is left out: it is file decoding through the image library. Its `Renderable` impl is two getters, which the `Renderable` record already models.
- Machine-width overflow of `usize` is not modelled: coordinates are unbounded naturals, so `x + ox`, `y * width + x` and `w * h` cannot wrap.
- Colors.AsU32Arithmetic: states the weighted-sum identity in 32-bit arithmetic rather than over unbounded integers. `AsU32Bound` shows the sum stays below 2^24, so the two readings agree.
- `Renderable` is a closed record, not an open interface. Any implementation's `dimensions()` and `data()` reach `render` only as these two values.
