# reMarkable fractals: the integer pixel pipeline

A Dafny model of the integer core of a small program that draws the
Mandelbrot and Julia sets on the reMarkable tablet's framebuffer. For every
visible pixel the program runs an escape-time loop, turns the loop's counter
into an RGB888 colour with truncating shifts, packs the colour into a 16-bit
RGB565 word and writes that word, little-endian, into the raw framebuffer
memory at `y * line_length + x * bytes_per_pixel`, dropping coordinates
outside the visible area.

The model has four modules, one per stage:

- `Escape` (`escape.dfy`): the two counter loops. The floating-point orbit is
  replaced by the loop's test as a function of the number of updates made so
  far: `escaped(t)` for Mandelbrot's `|z| > 2`, `inside(k)` for Julia's
  `|z|^2 < 4`. Each loop is a method, proved equal to a declarative
  reference (`MandelbrotIndex`, `JuliaIndex`) built on `FirstWith`, the first
  step at which a test takes a given value.
- `Palette` (`palette.dfy`): `Quantise` (counter to RGB888, wrapping modulo
  256), `RgbToNative` (RGB888 to 5-6-5, on bit-vectors with the source's
  shifts and masks) and its inverse `NativeToRgb`.
- `Framebuffer` (`framebuffer.dfy`): screen `Geometry`, pixel offsets,
  `PutPixel` as a function from byte sequence to byte sequence, and
  `ReadPixel`, which reads a pixel back.
- `Render` (`render.dfy`): the nested column-then-row loop that draws a
  whole frame, and its postcondition `Rendered`, which does not depend on the
  visiting order. A twin pass with the loops swapped proves that postcondition
  too, and the two passes produce identical bytes.

The framebuffer is a `seq<bv8>` value. `PutPixel` and the render pass return
the new buffer instead of writing through a pointer. The geometry the display
driver reports (`xres`, `yres`, `line_length`, `bits_per_pixel`) is a
parameter. The per-pixel escape tests are a parameter too: the `Field`
`field(x, y)(k)`.

## Model

| member | source | states |
|---|---|---|
| Escape.MandelbrotIndex | src/main.rs:115-122 | The reported index is in [0, iterations-1]. It is iterations-1 when no step escapes, t-1 when the first escape is at step t >= 1, and 0 when step 0 already escapes. |
| Escape.MandelbrotCount | src/main.rs:115-122 | The ascending loop with `break` and "last index wins" ends with exactly `MandelbrotIndex`. |
| Escape.JuliaIndex | src/main.rs:70-77 | The counter ends in [1, iterations]. It is `iterations` when the in-disk test fails at once, 1 when the test never fails, and iterations-k when the test first fails after k steps. |
| Escape.JuliaCount | src/main.rs:70-77 | The descending loop ends with exactly `JuliaIndex`. The counter falls by exactly the number of loop steps, and the loop ends because the counter strictly decreases. |
| Palette.Truncate8 | src/main.rs:79-81 | The `as u8` cast keeps values below 256 as they are and maps v and v-256 to the same byte. |
| Palette.Quantise | src/main.rs:79-81 | The channels are the counter shifted by 3, 5 and 4 bits and truncated to a byte: red = 8·(i mod 32), green = 32·(i mod 8), blue = 16·(i mod 16). |
| Palette.Truncate8Periodic | src/main.rs:79 | Casting to `u8` forgets whole multiples of 256. |
| Palette.ScaledModulo | src/main.rs:79-81 | Truncating i·m to a byte equals m·(i mod 256/m). This is why the shifted channels wrap. |
| Palette.QuantiseRepeats | src/main.rs:124-126 | Counters 32 apart get the same colour, so the palette wraps around and does not saturate. |
| Palette.MandelbrotRedDoesNotWrap | src/main.rs:124 | Every Mandelbrot index up to 31 gives red = 8·i with no wrap. |
| Palette.JuliaTopCountIsBlack | src/main.rs:79-81 | The Julia counter value 32 wraps every channel to 0 and packs to the word 0. |
| Palette.RgbToNative | src/main.rs:180-186 | Bits 15..11 of the packed word are red>>3, bits 10..5 are green>>2 and bits 4..0 are blue>>3. |
| Palette.FieldsAreDisjoint | src/main.rs:181-185 | The three shifted fields share no bit, and the word is their bitwise or. |
| Palette.NativeToRgb | src/main.rs:180-186 | Unpacking a word gives channels whose low 3/2/3 bits are zero and whose top bits are the word's fields. |
| Palette.PackUnpack | src/main.rs:180-186 | Packing after unpacking is the identity on all 16-bit words, so every word is the packing of some colour. |
| Palette.UnpackPack | src/main.rs:181-183 | Unpacking after packing only clears the low 3, 2 and 3 bits of red, green and blue. |
| Palette.PackIgnoresLowBits | src/main.rs:181-183 | Clearing the low 3/2/3 bits of the channels does not change the packed value. |
| Palette.UnpackedNeverExceeds | src/main.rs:181-183 | Each unpacked channel is at most the original channel: quantisation only loses low bits. |
| Palette.PackMonotone | src/main.rs:180-186 | Packing is monotone non-decreasing in each channel separately. |
| Palette.PackExtremes | src/main.rs:180-186 | Black packs to 0 and white packs to 0xffff. |
| Framebuffer.BytesPerPixel | src/main.rs:200 | Bytes per pixel is bits per pixel divided by 8, rounded down: 8·b <= bits_per_pixel < 8·b + 8. |
| Framebuffer.Offset | src/main.rs:201 | On a valid layout, the two bytes of visible pixel (x, y) lie inside row y's line: from y·line_length up to (y+1)·line_length. |
| Framebuffer.PixelWithinRow | src/main.rs:200-201 | The last byte of a visible pixel's window stays before the start of the next row. |
| Framebuffer.Low | src/main.rs:204 | `native as u8` is the low byte of the word: widened back, it equals native & 0x00ff. |
| Framebuffer.High | src/main.rs:205 | `(native >> 8) as u8` is the high byte: shifted back into place, it equals native & 0xff00. |
| Framebuffer.Word | src/main.rs:204-205 | The word built from a byte pair has that pair as its low and high bytes. |
| Framebuffer.WordOfBytes | src/main.rs:204-205 | Splitting a word into its low and high bytes and joining them gives the word back. |
| Framebuffer.StoreWord | src/main.rs:203-206 | A little-endian store at offset `at` reads back as the stored word and changes no byte other than `at` and `at+1`. |
| Framebuffer.PutPixel | src/main.rs:188-207 | Coordinates with y >= height or x >= width leave the buffer unchanged. Otherwise the low byte goes to y·line_length + x·bytespp, the high byte goes to the next byte, and every other byte is unchanged. |
| Framebuffer.ReadAfterPut | src/main.rs:199-206 | Reading a visible pixel back after writing it gives the value written. |
| Framebuffer.VisiblePixelFits | src/main.rs:199-201 | If the last visible pixel's two bytes fit in the buffer, the two bytes of every visible pixel fit. |
| Framebuffer.OrderedWindowsApart | src/main.rs:199-201 | With bytespp >= 2 and line_length >= width·bytespp, a pixel that comes earlier in row-major order has its offset at least 2 bytes before a later pixel's offset. |
| Framebuffer.WindowsDisjoint | src/main.rs:199-201 | Two distinct visible pixels have disjoint two-byte windows. |
| Framebuffer.PutPixelKeepsOthers | src/main.rs:199-206 | Writing one visible pixel leaves the value of every other visible pixel unchanged. |
| Framebuffer.StoreWordKeepsOthers | src/main.rs:203-206 | A store into one two-byte window leaves a disjoint window unchanged. |
| Framebuffer.PutPixelCommutes | src/main.rs:188-207 | Writes to distinct pixels commute. Of two writes to the same pixel, the later one wins. |
| Render.Index | src/main.rs:70-122 | The counter that colours a pixel is in [0, 31] for Mandelbrot and in [1, 32] for Julia. |
| Render.Count | src/main.rs:70-122 | Running a variant's loop on a pixel's tests yields that variant's reference index, inside the variant's range. |
| Render.Shade | src/main.rs:79-83 | The packed colour of a count unpacks to the quantised colour with its low 3, 2 and 3 bits cleared. Counts 0 and 32 are black (word 0). |
| Render.PixelColour | src/main.rs:70-83 | Running the loop, quantising and packing gives the shade of the variant's reference index. A Julia pixel whose test fails at once is black. |
| Render.ImmediateEscapeIsBlack | src/main.rs:113-128 | The orbit starts at z = 0, so step 0 never escapes. A Mandelbrot pixel that escapes at the first check after one update (\|c\| > 2) gets index 0. A Julia pixel that starts outside the disk keeps the count 32. Both are drawn as the word 0. |
| Render.PaintStep | src/main.rs:63-84 | Writing the pixel at the cursor extends the painted region by one pixel and keeps every byte outside the painted windows as it was. |
| Render.NextColumn | src/main.rs:62-85 | A finished column is the same painted region as the start of the next column. |
| Render.NextRow | src/main.rs:62-85 | With the loops swapped, a finished row is the same painted region as the start of the next row. |
| Render.WalkComplete | src/main.rs:62-85 | Once the cursor has passed every visible pixel, in either visiting order, the whole-frame postcondition holds. |
| Render.DrawPixel | src/main.rs:108-128 | One inner-loop step colours the pixel at the cursor and moves the cursor on, keeping every earlier pixel's colour and every untouched byte. |
| Render.Render | src/main.rs:107-130 | After the column-then-row pass, every visible pixel reads back as the packed colour of its count, and every byte outside the visible pixels' windows is unchanged. |
| Render.RenderRowMajor | src/main.rs:107-130 | The pass with rows outer and columns inner establishes the same whole-frame postcondition. |
| Render.OrderIrrelevant | src/main.rs:107-130 | The column-then-row pass and the row-then-column pass produce byte-identical buffers. |
| Render.RenderMandelbrot | src/main.rs:89-133 | The Mandelbrot pass establishes that whole-frame postcondition with the ascending index. |
| Render.RenderJulia | src/main.rs:48-87 | The Julia pass establishes that whole-frame postcondition with the descending counter. |
| Render.RenderedBytes | src/main.rs:83 | In a rendered frame, each visible pixel stores its colour's low byte at its offset and its high byte at the next byte. |
| Render.RenderedIsUnique | src/main.rs:107-130 | The whole-frame postcondition determines the buffer: two buffers that both satisfy it for the same start buffer and colouring are equal. |
| Render.SinglePixelFrame | src/main.rs:188-207 | A 1×1 frame writes exactly the two bytes at offset 0 and leaves all other bytes as they were. |

## Left out

- The floating-point orbit arithmetic (`z * z + c`, `norm`, the `zx`/`zy` update) is not modelled. Each loop takes its escape test as a function of the step number instead. The Julia constants `cx` and `cy` (src/main.rs:56-57) belong to it.
- The pixel-to-complex-plane mapping is not modelled (src/main.rs:67-68 and 97-113). Its only role is to feed the escape tests, so it is folded into the `Field` parameter. The Mandelbrot constants `cxmin` and `cxmax` and the per-pixel `cx`, `cy` of src/main.rs:109-110 belong to it.
- `num_complex::Complex` and every `libremarkable` call are not modelled: the application context, `full_refresh`, `draw_text`, `clear` and `dispatch_events`. They are device and display APIs. The screen geometry they report is a parameter instead.
- The event handlers (`on_button_press`, `on_wacom_input`, `on_touch_handler`), `main` and the `println!` logging are not modelled. They are I/O and lifecycle plumbing.
- The raw-pointer write is not modelled as a pointer write. It becomes an update of a byte sequence.
- Framebuffer.PutPixel: the source does no length check, and writing past the buffer is undefined behaviour. The model requires both bytes of a visible pixel to lie inside the buffer instead.
- Render.Render: requires at least two bytes per pixel, a line length of at least width·bytespp, and a buffer that holds the last visible pixel. The source checks none of these. Without them, writes may overlap or fall outside the buffer, and the whole-frame postcondition does not hold.
- Framebuffer.Offset: computed on unbounded integers. The source computes it in `usize`, where it could overflow only for buffers far larger than any framebuffer.
- Palette.Quantise: takes the counter as an unbounded natural number. The source shifts an `i32` (Julia) or a `u16` (Mandelbrot). Both counters are at most 32, so the shift cannot overflow before the cast to `u8`.
