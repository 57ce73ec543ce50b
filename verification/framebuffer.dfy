/**
 The raw framebuffer and the one write the fractal pipeline makes into it.
 The display driver's memory is modelled as a sequence of bytes and the
 screen geometry it reports is passed in explicitly.
 */
module Framebuffer {

  /**
   Screen geometry as the display driver reports it: visible width and
   height in pixels, the stride of one row in bytes (`line_length`, which
   may include padding) and the colour depth in bits.
   */
  datatype Geometry = Geometry(width: nat, height: nat, lineLength: nat, bitsPerPixel: nat)

  /** Bytes per pixel, derived from the colour depth by integer division as the driver code does. */
  function BytesPerPixel(g: Geometry): (b: nat)
    ensures 8 * b <= g.bitsPerPixel < 8 * b + 8
  {
    g.bitsPerPixel / 8
  }

  predicate InRange(g: Geometry, x: nat, y: nat)
  {
    x < g.width && y < g.height
  }

  /** Byte offset of pixel (x, y): whole rows of `lineLength` bytes, then x pixels into the row. */
  function Offset(g: Geometry, x: nat, y: nat): (at: nat)
    ensures Valid(g) && x < g.width ==> y * g.lineLength <= at && at + 2 <= (y + 1) * g.lineLength
  {
    PixelWithinRow(g, x, y);
    y * g.lineLength + x * BytesPerPixel(g)
  }

  /** In a valid layout both bytes of a visible column lie inside their row's stride. */
  lemma PixelWithinRow(g: Geometry, x: nat, y: nat)
    ensures Valid(g) && x < g.width ==>
      y * g.lineLength + x * BytesPerPixel(g) + 2 <= (y + 1) * g.lineLength
  {
    if Valid(g) && x < g.width {
      var b := BytesPerPixel(g);
      MulMonotone(x + 1, g.width, b);
      assert (x + 1) * b == x * b + b;
      assert (y + 1) * g.lineLength == y * g.lineLength + g.lineLength;
    }
  }

  /**
   A layout in which every pixel has room for a 16-bit value and rows do not
   overlap: at least two bytes per pixel, and a stride of at least a row's
   worth of pixels.
   */
  predicate Valid(g: Geometry)
  {
    BytesPerPixel(g) >= 2 && g.lineLength >= g.width * BytesPerPixel(g)
  }

  /** A buffer of `size` bytes holds both bytes of the last visible pixel, and so of every visible pixel. */
  predicate FrameFits(g: Geometry, size: nat)
  {
    g.width == 0 || g.height == 0 || Offset(g, g.width - 1, g.height - 1) + 1 < size
  }

  /** Pixel (x, y), when visible, has both of its bytes inside a buffer of `size` bytes. */
  predicate PixelFits(g: Geometry, x: nat, y: nat, size: nat)
  {
    InRange(g, x, y) ==> Offset(g, x, y) + 1 < size
  }

  /** The low byte of a 16-bit word (`native as u8`). */
  function Low(n: bv16): (b: bv8)
    ensures b as bv16 == n & 0x00ff
  {
    (n & 0xff) as bv8
  }

  /** The high byte of a 16-bit word (`(native >> 8) as u8`). */
  function High(n: bv16): (b: bv8)
    ensures (b as bv16) << 8 == n & 0xff00
  {
    (n >> 8) as bv8
  }

  /** The 16-bit word stored little-endian as the byte pair (lo, hi). */
  function Word(lo: bv8, hi: bv8): (n: bv16)
    ensures Low(n) == lo && High(n) == hi
  {
    lo as bv16 | (hi as bv16 << 8)
  }

  /** Splitting a word into its two bytes and joining them gives the word back. */
  lemma WordOfBytes(n: bv16)
    ensures Word(Low(n), High(n)) == n
  {
  }

  /** Stores a 16-bit word little-endian at byte `at`: low byte first, then the high byte. */
  function StoreWord(buf: seq<bv8>, at: nat, native: bv16): (r: seq<bv8>)
    requires at + 1 < |buf|
    ensures |r| == |buf|
    ensures Word(r[at], r[at + 1]) == native
    ensures forall j | 0 <= j < |buf| && j != at && j != at + 1 :: r[j] == buf[j]
  {
    WordOfBytes(native);
    buf[at := Low(native)][at + 1 := High(native)]
  }

  /**
   Writes a 16-bit pixel value. Coordinates outside the visible area are
   dropped silently and the buffer is left as it was; otherwise the value is
   stored little-endian at the pixel's offset and no other byte changes. The
   driver code does not compare the offset with the buffer's length, so a
   caller must guarantee it.
   */
  function PutPixel(buf: seq<bv8>, g: Geometry, x: nat, y: nat, native: bv16): (r: seq<bv8>)
    requires PixelFits(g, x, y, |buf|)
    ensures |r| == |buf|
    ensures !InRange(g, x, y) ==> r == buf
    ensures InRange(g, x, y) ==>
      r[Offset(g, x, y)] == Low(native) && r[Offset(g, x, y) + 1] == High(native)
    ensures InRange(g, x, y) ==>
      forall j | 0 <= j < |buf| && j != Offset(g, x, y) && j != Offset(g, x, y) + 1 :: r[j] == buf[j]
  {
    if y >= g.height || x >= g.width then buf
    else StoreWord(buf, Offset(g, x, y), native)
  }

  /** Stores into disjoint two-byte windows touch disjoint bytes. */
  lemma StoreWordKeepsOthers(buf: seq<bv8>, at: nat, native: bv16, at': nat)
    requires at + 1 < |buf| && at' + 1 < |buf|
    requires at + 1 < at' || at' + 1 < at
    ensures var r := StoreWord(buf, at, native); r[at'] == buf[at'] && r[at' + 1] == buf[at' + 1]
  {
  }

  /** The 16-bit value stored at a visible pixel. */
  function ReadPixel(buf: seq<bv8>, g: Geometry, x: nat, y: nat): bv16
    requires InRange(g, x, y) && Offset(g, x, y) + 1 < |buf|
  {
    Word(buf[Offset(g, x, y)], buf[Offset(g, x, y) + 1])
  }

  /** Reading a pixel back after writing it gives the value written. */
  lemma ReadAfterPut(buf: seq<bv8>, g: Geometry, x: nat, y: nat, native: bv16)
    requires InRange(g, x, y) && Offset(g, x, y) + 1 < |buf|
    ensures ReadPixel(PutPixel(buf, g, x, y, native), g, x, y) == native
  {
    WordOfBytes(native);
  }

  lemma MulMonotone(a: nat, b: nat, c: nat)
    requires a <= b
    ensures a * c <= b * c
  {
  }

  /** Pixel offsets grow with both coordinates, so every visible pixel fits once the last one does. */
  lemma {:induction false} VisiblePixelFits(g: Geometry, size: nat, x: nat, y: nat)
    requires FrameFits(g, size)
    ensures PixelFits(g, x, y, size)
  {
    if InRange(g, x, y) {
      MulMonotone(y, g.height - 1, g.lineLength);
      MulMonotone(x, g.width - 1, BytesPerPixel(g));
    }
  }

  /** Two visible pixels, the first before the second in row-major order, have byte windows at least two apart. */
  lemma {:induction false} OrderedWindowsApart(g: Geometry, x1: nat, y1: nat, x2: nat, y2: nat)
    requires Valid(g) && InRange(g, x1, y1) && InRange(g, x2, y2)
    requires y1 < y2 || (y1 == y2 && x1 < x2)
    ensures Offset(g, x1, y1) + 2 <= Offset(g, x2, y2)
  {
    var b := BytesPerPixel(g);
    var s := g.lineLength;
    if y1 == y2 {
      MulMonotone(x1 + 1, x2, b);
      assert (x1 + 1) * b == x1 * b + b;
    } else {
      MulMonotone(y1 + 1, y2, s);
      assert (y1 + 1) * s == y1 * s + s;
      MulMonotone(x1 + 1, g.width, b);
      assert (x1 + 1) * b == x1 * b + b;
      assert x1 * b + b <= s;
    }
  }

  /** Distinct visible pixels of a valid layout own disjoint two-byte windows. */
  lemma WindowsDisjoint(g: Geometry, x1: nat, y1: nat, x2: nat, y2: nat)
    requires Valid(g) && InRange(g, x1, y1) && InRange(g, x2, y2)
    requires (x1, y1) != (x2, y2)
    ensures Offset(g, x1, y1) + 1 < Offset(g, x2, y2) || Offset(g, x2, y2) + 1 < Offset(g, x1, y1)
  {
    if y1 < y2 || (y1 == y2 && x1 < x2) {
      OrderedWindowsApart(g, x1, y1, x2, y2);
    } else {
      OrderedWindowsApart(g, x2, y2, x1, y1);
    }
  }

  /** Writing one visible pixel leaves the value of every other visible pixel unchanged. */
  lemma PutPixelKeepsOthers(buf: seq<bv8>, g: Geometry, x: nat, y: nat, native: bv16, x': nat, y': nat)
    requires Valid(g) && FrameFits(g, |buf|)
    requires InRange(g, x, y) && InRange(g, x', y') && (x, y) != (x', y')
    ensures PixelFits(g, x, y, |buf|) && Offset(g, x', y') + 1 < |buf|
    ensures ReadPixel(PutPixel(buf, g, x, y, native), g, x', y') == ReadPixel(buf, g, x', y')
  {
    VisiblePixelFits(g, |buf|, x, y);
    VisiblePixelFits(g, |buf|, x', y');
    WindowsDisjoint(g, x, y, x', y');
    StoreWordKeepsOthers(buf, Offset(g, x, y), native, Offset(g, x', y'));
  }

  /**
   Writes to distinct pixels commute, and of two writes to the same pixel
   the later one wins: the final buffer does not depend on the order in
   which distinct pixels are visited.
   */
  lemma PutPixelCommutes(buf: seq<bv8>, g: Geometry, x1: nat, y1: nat, n1: bv16, x2: nat, y2: nat, n2: bv16)
    requires Valid(g) && PixelFits(g, x1, y1, |buf|) && PixelFits(g, x2, y2, |buf|)
    ensures (x1, y1) != (x2, y2) ==>
      PutPixel(PutPixel(buf, g, x1, y1, n1), g, x2, y2, n2) == PutPixel(PutPixel(buf, g, x2, y2, n2), g, x1, y1, n1)
    ensures (x1, y1) == (x2, y2) ==>
      PutPixel(PutPixel(buf, g, x1, y1, n1), g, x2, y2, n2) == PutPixel(buf, g, x2, y2, n2)
  {
    if InRange(g, x1, y1) && InRange(g, x2, y2) && (x1, y1) != (x2, y2) {
      WindowsDisjoint(g, x1, y1, x2, y2);
    }
    var a := PutPixel(PutPixel(buf, g, x1, y1, n1), g, x2, y2, n2);
    var b := if (x1, y1) != (x2, y2) then PutPixel(PutPixel(buf, g, x2, y2, n2), g, x1, y1, n1)
             else PutPixel(buf, g, x2, y2, n2);
    assert forall j | 0 <= j < |buf| :: a[j] == b[j];
  }
}
