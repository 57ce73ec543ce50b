/**
 The colour half of the fractal pipeline: the escape-time counter is turned
 into an RGB888 triple by truncating shifts, and the triple is packed into the
 16-bit 5-6-5 pixel format the framebuffer stores.
 */
module Palette {

  /** An RGB888 colour; each channel is one unsigned byte. */
  datatype Rgb = Rgb(red: bv8, green: bv8, blue: bv8)

  /** Rust's `v as u8` on a non-negative value: keep the low eight bits. */
  function Truncate8(v: nat): (b: bv8)
    ensures v < 256 ==> b == v as bv8
    ensures v >= 256 ==> b == Truncate8(v - 256)
  {
    (v % 256) as bv8
  }

  /**
   Colour quantisation of an escape count: red, green and blue are the count
   shifted left by 3, 5 and 4 bits and then truncated to a byte, so the
   channels wrap around rather than saturate. The counters of both fractal
   loops stay far below the width of their integer types (at most 32), so the
   shift itself never overflows before the truncation.
   */
  function Quantise(i: nat): (c: Rgb)
    ensures c.red == (8 * (i % 32)) as bv8
    ensures c.green == (32 * (i % 8)) as bv8
    ensures c.blue == (16 * (i % 16)) as bv8
  {
    QuantiseIsPeriodic(i);
    Rgb(Truncate8(i * 8), Truncate8(i * 32), Truncate8(i * 16))
  }

  /** `(i * 2^k) % 256 == 2^k * (i % (256 / 2^k))`, the arithmetic behind Quantise. */
  lemma {:induction false} ScaledModulo(i: nat, m: nat, q: nat)
    requires m > 0 && m * q == 256
    ensures (i * m) % 256 == m * (i % q)
  {
    var k := i / q;
    var rest := i % q;
    ScaleQuotient(k, rest, q, m);
    assert i == k * q + rest;
    assert 0 <= m * rest < 256 by {
      MulStrictlyBelow(rest, q, m);
    }
    ModOfWholeBytes(k, m * rest);
  }

  /** Scaling `k * q + rest` by m, where m * q is one byte's range. */
  lemma ScaleQuotient(k: nat, rest: nat, q: nat, m: nat)
    requires m * q == 256
    ensures (k * q + rest) * m == k * 256 + m * rest
  {
    assert (k * q + rest) * m == (k * q) * m + rest * m;
    assert (k * q) * m == k * (m * q);
  }

  lemma MulStrictlyBelow(a: nat, b: nat, m: nat)
    requires a < b && m > 0
    ensures m * a < m * b
  {
  }

  lemma ModOfWholeBytes(k: nat, low: nat)
    requires low < 256
    ensures (k * 256 + low) % 256 == low
  {
  }

  lemma QuantiseIsPeriodic(i: nat)
    ensures (i * 8) % 256 == 8 * (i % 32)
    ensures (i * 32) % 256 == 32 * (i % 8)
    ensures (i * 16) % 256 == 16 * (i % 16)
  {
    ScaledModulo(i, 8, 32);
    ScaledModulo(i, 32, 8);
    ScaledModulo(i, 16, 16);
  }

  /** Every Mandelbrot index (at most 31) gives red = 8 * i without wrapping. */
  lemma MandelbrotRedDoesNotWrap(i: nat)
    requires i <= 31
    ensures Quantise(i).red == (8 * i) as bv8
  {
  }

  /** The Julia counter's top value 32 wraps every channel to zero: black, not white. */
  lemma JuliaTopCountIsBlack()
    ensures Quantise(32) == Rgb(0, 0, 0)
    ensures RgbToNative(Quantise(32).red, Quantise(32).green, Quantise(32).blue) == 0
  {
  }

  /** Counts 32 apart get the same colour: the palette repeats every 32 steps. */
  lemma QuantiseRepeats(i: nat)
    ensures Quantise(i + 32) == Quantise(i)
  {
    var j := i + 32;
    assert j * 8 == i * 8 + 256;
    assert j * 32 == i * 32 + 4 * 256;
    assert j * 16 == i * 16 + 2 * 256;
    Truncate8Periodic(i * 8, 1);
    Truncate8Periodic(i * 32, 4);
    Truncate8Periodic(i * 16, 2);
  }

  /** Truncation to a byte forgets whole multiples of 256. */
  lemma Truncate8Periodic(v: nat, k: nat)
    ensures Truncate8(v + k * 256) == Truncate8(v)
  {
    assert (v + k * 256) % 256 == v % 256;
  }

  /**
   Packing of an RGB888 colour into RGB565: the top five bits of red go to
   bits 15..11, the top six bits of green to bits 10..5 and the top five
   bits of blue to bits 4..0. Each field decodes back to the channel's top
   bits, and the three fields cover the word without overlapping.
   */
  function RgbToNative(red: bv8, green: bv8, blue: bv8): (n: bv16)
    ensures n >> 11 == (red >> 3) as bv16
    ensures (n >> 5) & 0x3f == (green >> 2) as bv16
    ensures n & 0x1f == (blue >> 3) as bv16
  {
    var r: bv16 := ((red >> 3) & 0x1f) as bv16 << 11;
    var g: bv16 := ((green >> 2) & 0x3f) as bv16 << 5;
    var b: bv16 := ((blue >> 3) & 0x1f) as bv16;
    r | g | b
  }

  /**
   The three fields never overlap: the word is the bitwise or of the
   single-channel packings, and any two of those share no set bit.
   */
  lemma FieldsAreDisjoint(red: bv8, green: bv8, blue: bv8)
    ensures RgbToNative(red, 0, 0) & RgbToNative(0, green, 0) == 0
    ensures RgbToNative(red, 0, 0) & RgbToNative(0, 0, blue) == 0
    ensures RgbToNative(0, green, 0) & RgbToNative(0, 0, blue) == 0
    ensures RgbToNative(red, green, blue) == RgbToNative(red, 0, 0) | RgbToNative(0, green, 0) | RgbToNative(0, 0, blue)
  {
  }

  /** The inverse direction: widen each 5-6-5 field back to a byte by filling the low bits with zeros. */
  function NativeToRgb(n: bv16): (c: Rgb)
    ensures c.red & 0x07 == 0 && c.green & 0x03 == 0 && c.blue & 0x07 == 0
    ensures (c.red >> 3) as bv16 == n >> 11
    ensures (c.green >> 2) as bv16 == (n >> 5) & 0x3f
    ensures (c.blue >> 3) as bv16 == n & 0x1f
  {
    Rgb(((n >> 11) as bv8) << 3, (((n >> 5) & 0x3f) as bv8) << 2, ((n & 0x1f) as bv8) << 3)
  }

  /** Every 16-bit word is the packing of some colour: packing after unpacking is the identity. */
  lemma PackUnpack(n: bv16)
    ensures var c := NativeToRgb(n); RgbToNative(c.red, c.green, c.blue) == n
  {
  }

  /** Unpacking after packing only clears the low 3, 2 and 3 bits of the channels. */
  lemma UnpackPack(red: bv8, green: bv8, blue: bv8)
    ensures NativeToRgb(RgbToNative(red, green, blue)) == Rgb(red & 0xf8, green & 0xfc, blue & 0xf8)
  {
  }

  /** The packed value depends only on the top 5, 6 and 5 bits of the channels. */
  lemma PackIgnoresLowBits(red: bv8, green: bv8, blue: bv8)
    ensures RgbToNative(red & 0xf8, green & 0xfc, blue & 0xf8) == RgbToNative(red, green, blue)
  {
  }

  /** Quantisation only loses low bits: the unpacked channels never exceed the originals. */
  lemma UnpackedNeverExceeds(red: bv8, green: bv8, blue: bv8)
    ensures var c := NativeToRgb(RgbToNative(red, green, blue));
      c.red <= red && c.green <= green && c.blue <= blue
  {
  }

  /** Packing is monotone non-decreasing in each channel separately. */
  lemma PackMonotone(red: bv8, green: bv8, blue: bv8, red': bv8, green': bv8, blue': bv8)
    ensures red <= red' ==> RgbToNative(red, green, blue) <= RgbToNative(red', green, blue)
    ensures green <= green' ==> RgbToNative(red, green, blue) <= RgbToNative(red, green', blue)
    ensures blue <= blue' ==> RgbToNative(red, green, blue) <= RgbToNative(red, green, blue')
  {
  }

  /** Black packs to 0 and white to 0xffff. */
  lemma PackExtremes()
    ensures RgbToNative(0, 0, 0) == 0
    ensures RgbToNative(0xff, 0xff, 0xff) == 0xffff
  {
  }
}
