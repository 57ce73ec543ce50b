/**
 The full-frame render pass: for every visible pixel, run the variant's
 escape loop, quantise the count to a colour, pack it to 5-6-5 and write it
 into the framebuffer. The pass visits columns in the outer loop and rows in
 the inner one; its postcondition is stated without reference to that
 order.
 */
module Render {
  import opened Escape
  import opened Palette
  import opened Framebuffer

  /** The two fractals, each with its own escape-time encoding. */
  datatype Variant = Mandelbrot | Julia

  /** Both variants cap the orbit at 32 iterations. */
  const Iterations: nat := 32

  /**
   The escape tests of every pixel: `field(x, y)(k)` is the variant's test
   on the orbit of pixel (x, y) after k updates (`|z| > 2` for Mandelbrot,
   `|z|^2 < 4` for Julia). It stands for the floating-point mapping of the
   pixel to the complex plane and the orbit arithmetic.
   */
  type Field = (nat, nat) -> (nat -> bool)

  /** The counter value the variant's loop ends with. */
  function Index(v: Variant, tests: nat -> bool): (i: nat)
    ensures v == Mandelbrot ==> i <= Iterations - 1
    ensures v == Julia ==> 1 <= i <= Iterations
  {
    match v
    case Mandelbrot => MandelbrotIndex(Iterations, tests)
    case Julia => JuliaIndex(Iterations, tests)
  }

  /** Runs the variant's escape loop on one pixel's tests. */
  method Count(v: Variant, tests: nat -> bool) returns (i: nat)
    ensures i == Index(v, tests)
    ensures v == Mandelbrot ==> i < Iterations
    ensures v == Julia ==> 1 <= i <= Iterations
  {
    match v
    case Mandelbrot =>
      i := MandelbrotCount(Iterations, tests);
    case Julia =>
      var steps;
      i, steps := JuliaCount(Iterations, tests);
  }

  /**
   The packed 5-6-5 colour of an escape count: unpacked again it is the
   quantised colour with its low 3, 2 and 3 bits cleared, and it repeats
   every 32 counts.
   */
  function Shade(i: nat): (n: bv16)
    ensures var c := Quantise(i); NativeToRgb(n) == Rgb(c.red & 0xf8, c.green & 0xfc, c.blue & 0xf8)
    ensures i == 0 || i == 32 ==> n == 0
  {
    var c := Quantise(i);
    UnpackPack(c.red, c.green, c.blue);
    JuliaTopCountIsBlack();
    RgbToNative(c.red, c.green, c.blue)
  }

  /**
   The per-pixel pipeline: run the escape loop, quantise the counter and
   pack the colour. The result is the shade of the variant's reference
   index, and it is black when the Julia test fails at once.
   */
  method PixelColour(v: Variant, tests: nat -> bool) returns (native: bv16)
    ensures native == Shade(Index(v, tests))
    ensures v == Julia && !tests(0) ==> native == 0
  {
    var i := Count(v, tests);
    var c := Quantise(i);
    native := RgbToNative(c.red, c.green, c.blue);
  }

  /** The colour every pixel of a frame should end up with: the shade of the pixel's escape count. */
  function Colours(v: Variant, field: Field): (nat, nat) -> bv16
  {
    (x: nat, y: nat) => Shade(Index(v, field(x, y)))
  }

  /**
   A Mandelbrot orbit starts at z = 0, so the first check cannot escape; a
   pixel whose orbit escapes at the first check after one update (|c| > 2)
   gets index 0. A Julia pixel that starts outside the disk keeps the count
   32. Both are drawn black.
   */
  lemma ImmediateEscapeIsBlack(v: Variant, field: Field, x: nat, y: nat)
    ensures v == Mandelbrot && !field(x, y)(0) && field(x, y)(1) ==> Colours(v, field)(x, y) == 0
    ensures v == Julia && !field(x, y)(0) ==> Colours(v, field)(x, y) == 0
  {
  }

  /** The two ways of walking the pixel grid: columns outside (as drawn) or rows outside. */
  datatype Order = ColumnMajor | RowMajor

  /** Pixel (x, y) comes before the cursor (cx, cy) when the grid is walked in the given order. */
  predicate Done(order: Order, x: nat, y: nat, cx: nat, cy: nat)
  {
    match order
    case ColumnMajor => x < cx || (x == cx && y < cy)
    case RowMajor => y < cy || (y == cy && x < cx)
  }

  /** The cursor after the pixel at (cx, cy): one row down in a column, or one column right in a row. */
  function Next(order: Order, cx: nat, cy: nat): (nat, nat)
  {
    match order
    case ColumnMajor => (cx, cy + 1)
    case RowMajor => (cx + 1, cy)
  }

  /** Byte j belongs to the two-byte window of a visible pixel before the cursor. */
  ghost predicate Covered(order: Order, g: Geometry, j: int, cx: nat, cy: nat)
  {
    exists x: nat, y: nat | InRange(g, x, y) && Done(order, x, y, cx, cy) ::
      j == Offset(g, x, y) || j == Offset(g, x, y) + 1
  }

  /** Byte j belongs to the two-byte window of some visible pixel. */
  ghost predicate Visible(g: Geometry, j: int)
  {
    exists x: nat, y: nat | InRange(g, x, y) :: j == Offset(g, x, y) || j == Offset(g, x, y) + 1
  }

  /**
   `out` is `buf` with every visible pixel before the cursor holding its
   colour, and every byte outside those pixels' windows as it was.
   */
  ghost predicate Painted(order: Order, buf: seq<bv8>, out: seq<bv8>, g: Geometry, colour: (nat, nat) -> bv16, cx: nat, cy: nat)
  {
    && |out| == |buf|
    && (forall x: nat, y: nat | InRange(g, x, y) && Done(order, x, y, cx, cy) ::
          Offset(g, x, y) + 1 < |out| && ReadPixel(out, g, x, y) == colour(x, y))
    && (forall j | 0 <= j < |buf| && !Covered(order, g, j, cx, cy) :: out[j] == buf[j])
  }

  /**
   The whole-frame postcondition, independent of any visiting order: every
   visible pixel holds its colour and every byte outside the visible pixels'
   windows is as it was.
   */
  ghost predicate Rendered(buf: seq<bv8>, out: seq<bv8>, g: Geometry, colour: (nat, nat) -> bv16)
  {
    && |out| == |buf|
    && (forall x: nat, y: nat | InRange(g, x, y) ::
          Offset(g, x, y) + 1 < |out| && ReadPixel(out, g, x, y) == colour(x, y))
    && (forall j | 0 <= j < |buf| && !Visible(g, j) :: out[j] == buf[j])
  }

  /** Writing the pixel at the cursor moves the cursor to the next pixel of the walk. */
  lemma PaintStep(order: Order, buf: seq<bv8>, out: seq<bv8>, g: Geometry, colour: (nat, nat) -> bv16, cx: nat, cy: nat)
    requires Valid(g) && FrameFits(g, |buf|) && InRange(g, cx, cy)
    requires Painted(order, buf, out, g, colour, cx, cy)
    ensures PixelFits(g, cx, cy, |out|)
    ensures Painted(order, buf, PutPixel(out, g, cx, cy, colour(cx, cy)), g, colour, Next(order, cx, cy).0, Next(order, cx, cy).1)
  {
    VisiblePixelFits(g, |out|, cx, cy);
    var (nx, ny) := Next(order, cx, cy);
    var at := Offset(g, cx, cy);
    var out' := PutPixel(out, g, cx, cy, colour(cx, cy));
    ReadAfterPut(out, g, cx, cy, colour(cx, cy));
    forall x: nat, y: nat | InRange(g, x, y) && Done(order, x, y, nx, ny)
      ensures Offset(g, x, y) + 1 < |out'| && ReadPixel(out', g, x, y) == colour(x, y)
    {
      if (x, y) != (cx, cy) {
        assert Done(order, x, y, cx, cy);
        PutPixelKeepsOthers(out, g, cx, cy, colour(cx, cy), x, y);
      }
    }
    forall j | 0 <= j < |buf| && !Covered(order, g, j, nx, ny)
      ensures out'[j] == buf[j]
    {
      assert j != at && j != at + 1 by {
        assert InRange(g, cx, cy) && Done(order, cx, cy, nx, ny);
      }
    }
  }

  /** A finished column: the cursor moves to the top of the next one. */
  lemma NextColumn(buf: seq<bv8>, out: seq<bv8>, g: Geometry, colour: (nat, nat) -> bv16, cx: nat)
    requires Painted(ColumnMajor, buf, out, g, colour, cx, g.height)
    ensures Painted(ColumnMajor, buf, out, g, colour, cx + 1, 0)
  {
  }

  /** A finished row: the cursor moves to the start of the next one. */
  lemma NextRow(buf: seq<bv8>, out: seq<bv8>, g: Geometry, colour: (nat, nat) -> bv16, cy: nat)
    requires Painted(RowMajor, buf, out, g, colour, g.width, cy)
    ensures Painted(RowMajor, buf, out, g, colour, 0, cy + 1)
  {
  }

  /** Once the walk has passed every visible pixel, in either order, the whole frame is rendered. */
  lemma WalkComplete(order: Order, buf: seq<bv8>, out: seq<bv8>, g: Geometry, colour: (nat, nat) -> bv16)
    requires order == ColumnMajor ==> Painted(order, buf, out, g, colour, g.width, 0)
    requires order == RowMajor ==> Painted(order, buf, out, g, colour, 0, g.height)
    ensures Rendered(buf, out, g, colour)
  {
    var (cx, cy) := if order == ColumnMajor then (g.width, 0) else (0, g.height);
    forall x: nat, y: nat | InRange(g, x, y)
      ensures Offset(g, x, y) + 1 < |out| && ReadPixel(out, g, x, y) == colour(x, y)
    {
      assert Done(order, x, y, cx, cy);
    }
    forall j | 0 <= j < |buf| && !Visible(g, j)
      ensures out[j] == buf[j]
    {
      assert !Covered(order, g, j, cx, cy);
    }
  }

  /** One iteration of the inner loop: compute the pixel's colour and write it, moving the cursor on. */
  method DrawPixel(order: Order, buf: seq<bv8>, out: seq<bv8>, g: Geometry, v: Variant, field: Field, x: nat, y: nat)
    returns (out': seq<bv8>)
    requires Valid(g) && FrameFits(g, |buf|) && InRange(g, x, y)
    requires Painted(order, buf, out, g, Colours(v, field), x, y)
    ensures Painted(order, buf, out', g, Colours(v, field), Next(order, x, y).0, Next(order, x, y).1)
  {
    var native := PixelColour(v, field(x, y));
    assert native == Colours(v, field)(x, y);
    PaintStep(order, buf, out, g, Colours(v, field), x, y);
    out' := PutPixel(out, g, x, y, native);
  }

  /**
   The render pass of src/main.rs: columns outer, rows inner, one escape
   loop and one pixel write per visible pixel. Afterwards every visible
   pixel holds the packed colour of its count and no other byte has changed.
   The layout must give each pixel at least two bytes and each row at least
   a row's worth of pixels, so that no two writes overlap.
   */
  method Render(buf: seq<bv8>, g: Geometry, v: Variant, field: Field) returns (out: seq<bv8>)
    requires Valid(g) && FrameFits(g, |buf|)
    ensures Rendered(buf, out, g, Colours(v, field))
  {
    var colour := Colours(v, field);
    out := buf;
    for x := 0 to g.width
      invariant Painted(ColumnMajor, buf, out, g, colour, x, 0)
    {
      for y := 0 to g.height
        invariant Painted(ColumnMajor, buf, out, g, colour, x, y)
      {
        out := DrawPixel(ColumnMajor, buf, out, g, v, field, x, y);
      }
      NextColumn(buf, out, g, colour, x);
    }
    WalkComplete(ColumnMajor, buf, out, g, colour);
  }

  /**
   The same pass with the loops swapped: rows outer, columns inner. It
   establishes the same whole-frame postcondition.
   */
  method RenderRowMajor(buf: seq<bv8>, g: Geometry, v: Variant, field: Field) returns (out: seq<bv8>)
    requires Valid(g) && FrameFits(g, |buf|)
    ensures Rendered(buf, out, g, Colours(v, field))
  {
    var colour := Colours(v, field);
    out := buf;
    for y := 0 to g.height
      invariant Painted(RowMajor, buf, out, g, colour, 0, y)
    {
      for x := 0 to g.width
        invariant Painted(RowMajor, buf, out, g, colour, x, y)
      {
        out := DrawPixel(RowMajor, buf, out, g, v, field, x, y);
      }
      NextRow(buf, out, g, colour, y);
    }
    WalkComplete(RowMajor, buf, out, g, colour);
  }

  /** Drawing columns first or rows first yields byte-identical frames. */
  method OrderIrrelevant(buf: seq<bv8>, g: Geometry, v: Variant, field: Field) returns (byColumns: seq<bv8>, byRows: seq<bv8>)
    requires Valid(g) && FrameFits(g, |buf|)
    ensures byColumns == byRows
    ensures Rendered(buf, byColumns, g, Colours(v, field))
  {
    byColumns := Render(buf, g, v, field);
    byRows := RenderRowMajor(buf, g, v, field);
    RenderedIsUnique(buf, byColumns, byRows, g, Colours(v, field));
  }

  /** `mandelbrot`: the render pass with the ascending "last index wins" counter. */
  method RenderMandelbrot(buf: seq<bv8>, g: Geometry, field: Field) returns (out: seq<bv8>)
    requires Valid(g) && FrameFits(g, |buf|)
    ensures Rendered(buf, out, g, Colours(Mandelbrot, field))
  {
    out := Render(buf, g, Mandelbrot, field);
  }

  /** `julia`: the render pass with the descending counter. */
  method RenderJulia(buf: seq<bv8>, g: Geometry, field: Field) returns (out: seq<bv8>)
    requires Valid(g) && FrameFits(g, |buf|)
    ensures Rendered(buf, out, g, Colours(Julia, field))
  {
    out := Render(buf, g, Julia, field);
  }

  /** In a rendered frame each visible pixel holds its colour little-endian: low byte first. */
  lemma RenderedBytes(buf: seq<bv8>, out: seq<bv8>, g: Geometry, colour: (nat, nat) -> bv16, x: nat, y: nat)
    requires Rendered(buf, out, g, colour) && InRange(g, x, y)
    ensures Offset(g, x, y) + 1 < |out|
    ensures out[Offset(g, x, y)] == Low(colour(x, y)) && out[Offset(g, x, y) + 1] == High(colour(x, y))
  {
  }

  /** Two buffers that both satisfy the whole-frame postcondition are equal, whatever order drew them. */
  lemma RenderedIsUnique(buf: seq<bv8>, out1: seq<bv8>, out2: seq<bv8>, g: Geometry, colour: (nat, nat) -> bv16)
    requires Rendered(buf, out1, g, colour) && Rendered(buf, out2, g, colour)
    ensures out1 == out2
  {
  }

  /** A 1 x 1 frame writes exactly the two bytes at offset 0. */
  lemma SinglePixelFrame(buf: seq<bv8>, out: seq<bv8>, g: Geometry, colour: (nat, nat) -> bv16)
    requires g.width == 1 && g.height == 1
    requires Rendered(buf, out, g, colour)
    ensures 2 <= |out| == |buf|
    ensures out[0] == Low(colour(0, 0)) && out[1] == High(colour(0, 0))
    ensures forall j | 2 <= j < |buf| :: out[j] == buf[j]
  {
    assert InRange(g, 0, 0);
    assert Offset(g, 0, 0) == 0;
    WordOfBytes(colour(0, 0));
  }
}
