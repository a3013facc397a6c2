# BmpPixelSnoop in Dafny

A model of `BmpPixelSnoop` from DotNetPixelSnoop. `BmpPixelSnoop` locks a
bitmap in 32-bit ARGB format. It then reads and writes the pixel bytes
directly, using pointer arithmetic instead of `Bitmap.GetPixel`/`SetPixel`.

- `layout.dfy`, module `PixelLayout`, is pure. It holds the `byte` type and the
  `Color` and `NovaCol` values. It defines the address formulas: `Offset` for a
  coordinate, `LinearOffset` for a row-major index, and `PixelOffset` for rows
  of `width * 4` bytes. `ColorAt` and `StoreColor` read and write one pixel's
  4-byte window of a byte sequence, in the order Blue, Green, Red, Alpha. The
  lemmas state bounds, disjointness, tiling, the agreement of the two
  addressing modes, and the write round trip and frame.
- `snoop.dfy`, module `PixelSnoop`, holds the class `BmpPixelSnoop`. Its locked
  memory is the field `scan0: array<byte>`. It also has the fields `depth` and
  `lineBytes`, the immutable `width` and `height`, and a ghost lock state. The
  getters only read `scan0`. `SetPixel` overwrites four bytes of it in place.

The locked memory is a parameter of the constructor. The model requires it to
be `width * height * 4` bytes long, the length the code's row arithmetic
(`lineBytes = width * depth`) assumes. For a 32-bit-per-pixel bitmap a row
needs no padding, so this equals the lock's stride times the height. The
stride itself is never read. The pointer accesses are
unchecked, so the model turns them into preconditions: the coordinate is in
range, and the bits are still locked (no `Dispose` yet).

## Model

| member | source | states |
|---|---|---|
| `PixelLayout.ToByte` | DotNetPixelSnoop/BmpPixelSnoop.cs:95-98 | the `(byte)` cast keeps the value modulo 256 and is the identity on 0..255 |
| `PixelLayout.MakeNovaCol` | DotNetPixelSnoop/BmpPixelSnoop.cs:93-99 | the NovaCol constructor stores its parameters, taken in (r, g, b, a) order, into R, G, B, A |
| `PixelLayout.Offset` | DotNetPixelSnoop/BmpPixelSnoop.cs:62 | the address y * lineBytes + x * depth; when a row holds a whole number of pixels it is the linear address of index y * (lineBytes / depth) + x |
| `PixelLayout.LinearOffset` | DotNetPixelSnoop/BmpPixelSnoop.cs:69 | the address offset * depth is pixel-aligned and divides back to the index |
| `PixelLayout.AddressFormula` | DotNetPixelSnoop/BmpPixelSnoop.cs:62 | pixel (x, y) starts at y * (width * 4) + x * 4, which is its row-major index times 4 |
| `PixelLayout.WindowInBounds` | DotNetPixelSnoop/BmpPixelSnoop.cs:25-31 | for every in-range (x, y), bytes offset..offset+3 lie inside a width * height * 4 buffer |
| `PixelLayout.WindowsDisjoint` | DotNetPixelSnoop/BmpPixelSnoop.cs:62 | distinct in-range coordinates get disjoint 4-byte windows |
| `PixelLayout.WindowOwner` | DotNetPixelSnoop/BmpPixelSnoop.cs:62 | every byte of the buffer lies in the window of some in-range pixel, so the windows tile the buffer with no padding |
| `PixelLayout.IndexToCoords` | DotNetPixelSnoop/BmpPixelSnoop.cs:69 | index y * width + x gives back x as the remainder and y as the quotient by width |
| `PixelLayout.LinearAddressing` | DotNetPixelSnoop/BmpPixelSnoop.cs:69 | an in-range linear index i names the in-range pixel (i % width, i / width), and its byte offset i * 4 equals that pixel's 2-D offset |
| `PixelLayout.CoordsAddressing` | DotNetPixelSnoop/BmpPixelSnoop.cs:62-69 | an in-range (x, y) has linear index y * width + x below width * height, with the same byte offset |
| `PixelLayout.ColorAt` | DotNetPixelSnoop/BmpPixelSnoop.cs:76-83 | the colour read as Blue, Green, Red, Alpha from p..p+3; storing it back leaves the bytes unchanged, which is what the harness does at Program.cs:227-228 |
| `PixelLayout.StoreColor` | DotNetPixelSnoop/BmpPixelSnoop.cs:151-158 | writes B, G, R, A to offset..offset+3; length and every other byte unchanged |
| `PixelLayout.Pixels` | DotNetPixelSnoop/BmpPixelSnoop.cs:67-70 | decodes a buffer into one colour per 4-byte window, in row-major order; one colour for every 4 bytes of the buffer |
| `PixelLayout.PixelsAt` | DotNetPixelSnoop/BmpPixelSnoop.cs:117-131 | pixel i of the decoded image is the colour read from the window at byte i * 4 |
| `PixelLayout.PixelsStore` | DotNetPixelSnoop/BmpPixelSnoop.cs:151-158 | storing a colour at pixel i's window replaces pixel i of the decoded image and no other |
| `PixelLayout.ReadAfterStore` | DotNetPixelSnoop/BmpPixelSnoop.cs:151-158 | reading a window just written returns the colour written |
| `PixelLayout.ReadOtherAfterStore` | DotNetPixelSnoop/BmpPixelSnoop.cs:151-158 | a write leaves every non-overlapping window reading as before |
| `PixelLayout.SetLeavesOthers` | DotNetPixelSnoop/BmpPixelSnoop.cs:151-158 | setting pixel (x1, y1) leaves every other in-range pixel's colour as it was |
| `PixelLayout.NovaAt` | DotNetPixelSnoop/BmpPixelSnoop.cs:106-113 | as written, the NovaCol built from a window has R = alpha, G = red, B = green, A = blue |
| `PixelLayout.NovaShiftWitness` | DotNetPixelSnoop/Program.cs:153-154 | for the window (blue 1, green 2, red 3, alpha 4), NovaCol's R is not the red byte, and R + G + B differs from r + g + b |
| `PixelLayout.IntendedNovaAt` | DotNetPixelSnoop/BmpPixelSnoop.cs:86-99 | with the arguments in (r, g, b, a) order, each NovaCol field holds its own channel of the pixel |
| `PixelSnoop.BmpPixelSnoop.constructor` | DotNetPixelSnoop/BmpPixelSnoop.cs:19-32 | records width and height, sets depth to the format's bits / 8 and lineBytes to width * depth, keeps the locked bytes, and starts locked; the row size and the buffer must fit a 32-bit int |
| `PixelSnoop.BmpPixelSnoop.Valid` | DotNetPixelSnoop/BmpPixelSnoop.cs:22-31 | the fixed layout: depth 4, lineBytes = width * 4, buffer length width * height * 4, both at most 2^31 - 1 |
| `PixelSnoop.BmpPixelSnoop.Image` | DotNetPixelSnoop/BmpPixelSnoop.cs:22-31 | the locked bytes hold exactly width * height pixels |
| `PixelSnoop.BmpPixelSnoop.PixelOfWindow` | DotNetPixelSnoop/BmpPixelSnoop.cs:72-84 | the image's colour at (x, y) is the colour read from the window at PixelPointer(x, y) |
| `PixelSnoop.BmpPixelSnoop.Dispose` | DotNetPixelSnoop/BmpPixelSnoop.cs:34-48 | unlocks and counts one more unlock on every call, so it is not idempotent |
| `PixelSnoop.BmpPixelSnoop.PixelPointer` | DotNetPixelSnoop/BmpPixelSnoop.cs:52-65 | address y * (width * 4) + x * 4; for in-range (x, y) the window lies inside the buffer and no partial sum exceeds 2^31 - 1 |
| `PixelSnoop.BmpPixelSnoop.PixelPointerLinear` | DotNetPixelSnoop/BmpPixelSnoop.cs:67-70 | address offset * 4, equal to PixelPointer(offset % width, offset / width) for an in-range index, with the window inside the buffer |
| `PixelSnoop.BmpPixelSnoop.GetPixel` | DotNetPixelSnoop/BmpPixelSnoop.cs:72-84 | returns Blue from offset, Green from offset+1, Red from offset+2 and Alpha from offset+3, and changes nothing |
| `PixelSnoop.BmpPixelSnoop.NovaGetPixel` | DotNetPixelSnoop/BmpPixelSnoop.cs:102-114 | returns R = alpha byte, G = red byte, B = green byte, A = blue byte |
| `PixelSnoop.BmpPixelSnoop.GetPixelLinear` | DotNetPixelSnoop/BmpPixelSnoop.cs:117-132 | reads the B, G, R, A bytes at offset * 4, giving pixel `offset` of the image, which is the colour of (offset % width, offset / width) |
| `PixelSnoop.BmpPixelSnoop.LinearNamesCoords` | DotNetPixelSnoop/Program.cs:107-111 | index y * width + x is in range, maps back to (x, y), and addresses the same window as (x, y) |
| `PixelSnoop.BmpPixelSnoop.GetRed` | DotNetPixelSnoop/BmpPixelSnoop.cs:136-139 | reads offset+2, which is the R of the pixel's colour |
| `PixelSnoop.BmpPixelSnoop.GetGreen` | DotNetPixelSnoop/BmpPixelSnoop.cs:141-144 | reads offset+1, which is the G of the pixel's colour |
| `PixelSnoop.BmpPixelSnoop.GetBlue` | DotNetPixelSnoop/BmpPixelSnoop.cs:146-149 | reads offset, which is the B of the pixel's colour |
| `PixelSnoop.BmpPixelSnoop.SetPixel` | DotNetPixelSnoop/BmpPixelSnoop.cs:151-159 | the buffer becomes the old one with col's B, G, R, A stored at the window; the image becomes the old image with pixel y * width + x replaced by col; the pixel reads back as col; no other byte and no other pixel changes |
| `PixelSnoop.BmpPixelSnoop.Width` | DotNetPixelSnoop/BmpPixelSnoop.cs:161 | the width captured at construction, from which lineBytes was computed |
| `PixelSnoop.BmpPixelSnoop.Height` | DotNetPixelSnoop/BmpPixelSnoop.cs:162 | the height captured at construction; lineBytes * height is the buffer's length |

`width` and `height` are `const` fields, assigned only by the constructor. No
method can change them (DotNetPixelSnoop/BmpPixelSnoop.cs:15-16).

## Left out

- GDI+ calls (`LockBits`, `UnlockBits`, `GetPixelFormatSize`, `Scan0.ToPointer`): these are foreign calls. The locked memory, the bitmap's size and the format's bit size are constructor parameters, and unlocking is a ghost lock state.
- Format check: the code performs none. It only assumes 32-bit ARGB, as a comment says. Bytes per pixel equal to 4 is therefore a constructor precondition, not an error result.
- Row padding and stride: the code never reads the lock's stride, so no padding exists in the model.
- Out-of-range coordinates and use after `Dispose`: the source dereferences unchecked pointers, so these are preconditions and not modelled behaviour.
- `GC.SuppressFinalize` and the `Dispose(bool)` pattern: this is runtime plumbing. `bmp` is never null after construction, so every `Dispose` call calls `UnlockBits` again. What `UnlockBits` does on a second call is GDI+ behaviour the ghost counter does not model. The counter records only that the call is made again.
- The commented-out `lineStarts` cache and the unused `var c` in `GetPixel(int)`: dead code.
- `System.Drawing.Color` beyond its four ARGB bytes (its name, known-colour state and equality rules): a colour is a plain 4-byte value. `Color.FromArgb` cannot fail here because its arguments are bytes.
- DotNetPixelSnoop/Program.cs (the benchmark and test driver): its timing loops and comparisons are not modelled. The properties they rely on are stated by the lemmas above.
- PixelPointer, PixelPointerLinear: 32-bit int wrap-around of `width * depth`, `y * lineBytes + x * depth` and `offset * depth` is not modelled. The constructor requires the row size and the buffer length to be at most 2^31 - 1 bytes (under 2 GiB). There no offset wraps, so the model matches the source only for such buffers.
- Overloads: Dafny has none, so the `GetPixel(int)` overload is `GetPixelLinear` and the `PixelPointer(int)` overload is `PixelPointerLinear`.
- Error results: BmpPixelSnoop checks nothing itself. A failing LockBits, for example on a bitmap already locked, throws out of the constructor. The model covers only a successful lock (see the GDI+ line).

## Findings

| source | as written | input that shows it | evidently intended | confidence | as-written member | corrected member |
|---|---|---|---|---|---|---|
| DotNetPixelSnoop/BmpPixelSnoop.cs:113 | `new NovaCol(a, r, g, b)` passes alpha, red, green, blue to a constructor whose parameters are `(r, g, b, a)`, so `R` gets alpha, `G` red, `B` green, `A` blue | a pixel with blue 1, green 2, red 3, alpha 4 gives R = 4, G = 3, B = 2, A = 1; the benchmark's `col.R + col.G + col.B` (Program.cs:154) sums 9 instead of 6 | `new NovaCol(r, g, b, a)`, so each field holds its own channel, like `GetPixel` | medium, not executed | `PixelLayout.NovaShiftWitness` | `PixelLayout.IntendedNovaAt` |

The class method `NovaGetPixel` models the code as written. `IntendedNovaAt`
is the corrected reading, and its contract states that it agrees channel by
channel with the colour `GetPixel` returns.
