/** Byte layout of a locked 32-bit ARGB bitmap: colours, pixel addresses and the
    4-byte window that holds one pixel, read and written as Blue, Green, Red,
    Alpha in increasing address order. Everything here is pure; the class in
    snoop.dfy applies it to the locked buffer. */
module PixelLayout {

  newtype byte = v: int | 0 <= v < 256

  /** Bytes per pixel of the one supported format (32 bits per pixel). */
  const BYTES_PER_PIXEL := 4

  /** Largest value of the source's 32-bit int, in which every offset is computed. */
  const INT32_MAX := 0x7fff_ffff

  /** Position of each channel inside a pixel's window. */
  const BLUE := 0
  const GREEN := 1
  const RED := 2
  const ALPHA := 3

  /** A colour as built by Color.FromArgb(a, r, g, b): four channel bytes. */
  datatype Color = Argb(a: byte, r: byte, g: byte, b: byte)

  /** The NovaCol struct: four byte fields in R, G, B, A order. */
  datatype NovaCol = NovaCol(R: byte, G: byte, B: byte, A: byte)

  /** An unchecked C# (byte) cast keeps the low eight bits of an int. */
  function ToByte(v: int): (r: byte)
    ensures 0 <= v < 256 ==> r as int == v
    ensures (v - r as int) % 256 == 0
  {
    (v % 256) as byte
  }

  /** The NovaCol constructor: its parameters come in (r, g, b, a) order. */
  function MakeNovaCol(r: int, g: int, b: int, a: int): (n: NovaCol)
    ensures 0 <= r < 256 ==> n.R as int == r
    ensures 0 <= g < 256 ==> n.G as int == g
    ensures 0 <= b < 256 ==> n.B as int == b
    ensures 0 <= a < 256 ==> n.A as int == a
  {
    NovaCol(ToByte(r), ToByte(g), ToByte(b), ToByte(a))
  }

  // ---------------------------------------------------------------------
  // Addresses

  /** Byte offset of pixel (x, y) for rows of lineBytes bytes and pixels of depth bytes. */
  function Offset(x: int, y: int, lineBytes: int, depth: int): (r: int)
    ensures 0 < depth && lineBytes % depth == 0 ==> r == LinearOffset(y * (lineBytes / depth) + x, depth)
  {
    assert 0 < depth && lineBytes % depth == 0 ==> lineBytes == (lineBytes / depth) * depth;
    y * lineBytes + x * depth
  }

  /** Byte offset of the pixel with row-major index i (no gaps between rows). */
  function LinearOffset(i: int, depth: int): (r: int)
    ensures 0 < depth ==> r % depth == 0 && r / depth == i
  {
    if 0 < depth then MulDivExact(i, depth); i * depth else i * depth
  }

  /** Offset of (x, y) in a width-by-height image whose rows are width * 4 bytes long. */
  function PixelOffset(width: int, x: int, y: int): int
  {
    Offset(x, y, width * BYTES_PER_PIXEL, BYTES_PER_PIXEL)
  }

  predicate InImage(width: int, height: int, x: int, y: int)
  {
    0 <= x < width && 0 <= y < height
  }

  /** Row-major index of (x, y); in range for every in-range coordinate. */
  function PixelIndex(width: int, x: int, y: int): int
  {
    y * width + x
  }

  lemma {:induction false} IndexBelowCount(width: int, height: int, x: int, y: int)
    requires InImage(width, height, x, y)
    ensures 0 <= PixelIndex(width, x, y) < width * height
  {
    calc {
      PixelIndex(width, x, y);
      y * width + x;
    <
      y * width + width;
      (y + 1) * width;
    <= { MulLeftMono(y + 1, height, width); }
      height * width;
    }
  }

  lemma {:induction false} MulLeftMono(a: int, b: int, c: int)
    requires a <= b && 0 <= c
    ensures a * c <= b * c
  {
    assert b * c - a * c == (b - a) * c;
  }

  /** Multiplying by a positive d and dividing by d again gives the number back. */
  lemma {:induction false} MulDivExact(i: int, d: int)
    requires 0 < d
    ensures (i * d) % d == 0 && (i * d) / d == i
  {
    var q, rem := (i * d) / d, (i * d) % d;
    assert (i - q) * d == rem;
    if i - q >= 1 {
      MulLeftMono(1, i - q, d);
    } else if i - q <= -1 {
      MulLeftMono(i - q, -1, d);
    }
  }

  /** Coordinates whose columns lie inside the row have distinct row-major
      indices unless they are equal. */
  lemma {:induction false} IndexInjective(width: int, x1: int, y1: int, x2: int, y2: int)
    requires 0 <= x1 < width && 0 <= x2 < width
    requires PixelIndex(width, x1, y1) == PixelIndex(width, x2, y2)
    ensures x1 == x2 && y1 == y2
  {
    if y1 < y2 {
      MulLeftMono(y1 + 1, y2, width);
      assert false;
    } else if y2 < y1 {
      MulLeftMono(y2 + 1, y1, width);
      assert false;
    }
  }

  /** The row-major index of (x, y) gives back x and y by remainder and quotient. */
  lemma {:induction false} IndexToCoords(width: int, x: int, y: int)
    requires 0 <= x < width
    ensures PixelIndex(width, x, y) % width == x
    ensures PixelIndex(width, x, y) / width == y
  {
    var i := PixelIndex(width, x, y);
    var q, r := i / width, i % width;
    assert i == q * width + r;
    IndexInjective(width, r, q, x, y);
  }

  /** Address formula: the window of (x, y) starts at y * (width * 4) + x * 4. */
  lemma {:induction false} AddressFormula(width: int, x: int, y: int)
    ensures PixelOffset(width, x, y) == y * (width * BYTES_PER_PIXEL) + x * BYTES_PER_PIXEL
    ensures PixelOffset(width, x, y) == PixelIndex(width, x, y) * BYTES_PER_PIXEL
  {
  }

  /** Every in-range pixel's 4-byte window lies inside a width * height * 4 buffer. */
  lemma {:induction false} WindowInBounds(width: int, height: int, x: int, y: int)
    requires 0 <= width && 0 <= height
    ensures InImage(width, height, x, y) ==>
      0 <= PixelOffset(width, x, y) && PixelOffset(width, x, y) + BYTES_PER_PIXEL <= width * height * BYTES_PER_PIXEL
  {
    if InImage(width, height, x, y) {
      IndexBelowCount(width, height, x, y);
      AddressFormula(width, x, y);
      MulLeftMono(PixelIndex(width, x, y) + 1, width * height, BYTES_PER_PIXEL);
    }
  }

  /** Distinct in-range pixels own disjoint 4-byte windows. */
  lemma {:induction false} WindowsDisjoint(width: int, height: int, x1: int, y1: int, x2: int, y2: int)
    requires InImage(width, height, x1, y1) && InImage(width, height, x2, y2)
    requires x1 != x2 || y1 != y2
    ensures PixelOffset(width, x1, y1) + BYTES_PER_PIXEL <= PixelOffset(width, x2, y2) ||
            PixelOffset(width, x2, y2) + BYTES_PER_PIXEL <= PixelOffset(width, x1, y1)
  {
    var i1, i2 := PixelIndex(width, x1, y1), PixelIndex(width, x2, y2);
    if i1 == i2 {
      IndexInjective(width, x1, y1, x2, y2);
    }
    AddressFormula(width, x1, y1);
    AddressFormula(width, x2, y2);
  }

  /** The windows tile the buffer: byte k of a width * height * 4 buffer belongs to
      the window of pixel ((k / 4) % width, (k / 4) / width). */
  lemma {:induction false} WindowOwner(width: int, height: int, k: int)
    requires 0 <= width && 0 <= height
    requires 0 <= k < width * height * BYTES_PER_PIXEL
    ensures 0 < width
    ensures InImage(width, height, (k / BYTES_PER_PIXEL) % width, (k / BYTES_PER_PIXEL) / width)
    ensures PixelOffset(width, (k / BYTES_PER_PIXEL) % width, (k / BYTES_PER_PIXEL) / width) <= k
    ensures k < PixelOffset(width, (k / BYTES_PER_PIXEL) % width, (k / BYTES_PER_PIXEL) / width) + BYTES_PER_PIXEL
  {
    var i := k / BYTES_PER_PIXEL;
    assert k == i * BYTES_PER_PIXEL + k % BYTES_PER_PIXEL;
    assert i < width * height by {
      if i >= width * height {
        MulLeftMono(width * height, i, BYTES_PER_PIXEL);
      }
    }
    LinearAddressing(width, height, i);
    AddressFormula(width, i % width, i / width);
  }

  /** Linear addressing agrees with 2-D addressing: index i names the pixel
      (i % width, i / width), and the window starts at the same byte. */
  lemma {:induction false} LinearAddressing(width: int, height: int, i: int)
    requires 0 <= width && 0 <= height
    ensures 0 <= i < width * height ==>
      0 < width && InImage(width, height, i % width, i / width) &&
      LinearOffset(i, BYTES_PER_PIXEL) == PixelOffset(width, i % width, i / width)
  {
    if 0 <= i < width * height {
      var x, y := i % width, i / width;
      assert i == y * width + x;
      assert y < height by {
        if y >= height {
          MulLeftMono(height, y, width);
        }
      }
      AddressFormula(width, x, y);
    }
  }

  /** 2-D addressing agrees with linear addressing: pixel (x, y) is index y * width + x. */
  lemma {:induction false} CoordsAddressing(width: int, height: int, x: int, y: int)
    requires InImage(width, height, x, y)
    ensures 0 <= PixelIndex(width, x, y) < width * height
    ensures LinearOffset(PixelIndex(width, x, y), BYTES_PER_PIXEL) == PixelOffset(width, x, y)
  {
    IndexBelowCount(width, height, x, y);
    AddressFormula(width, x, y);
  }

  // ---------------------------------------------------------------------
  // Reading and writing a pixel's window

  predicate WindowFits(s: seq<byte>, p: int)
  {
    0 <= p && p + BYTES_PER_PIXEL <= |s|
  }

  /** The colour whose Blue, Green, Red and Alpha bytes sit at p, p+1, p+2, p+3. */
  function ColorAt(s: seq<byte>, p: int): (c: Color)
    requires WindowFits(s, p)
    ensures StoreColor(s, p, c) == s
  {
    var c := Argb(s[p + ALPHA], s[p + RED], s[p + GREEN], s[p + BLUE]);
    assert forall k | 0 <= k < |s| :: StoreColor(s, p, c)[k] == s[k];
    c
  }

  /** s with c's Blue, Green, Red and Alpha bytes written at p, p+1, p+2, p+3. */
  function StoreColor(s: seq<byte>, p: int, c: Color): (t: seq<byte>)
    requires WindowFits(s, p)
    ensures |t| == |s|
    ensures t[p + BLUE] == c.b && t[p + GREEN] == c.g && t[p + RED] == c.r && t[p + ALPHA] == c.a
    ensures forall k :: 0 <= k < |s| && !(p <= k < p + BYTES_PER_PIXEL) ==> t[k] == s[k]
  {
    s[p + BLUE := c.b][p + GREEN := c.g][p + RED := c.r][p + ALPHA := c.a]
  }

  /** The pixels a buffer holds, in row-major order: one colour per 4-byte
      window, trailing bytes that fill no window ignored. */
  function Pixels(s: seq<byte>): (cs: seq<Color>)
    ensures |cs| == |s| / BYTES_PER_PIXEL
    decreases |s|
  {
    if |s| < BYTES_PER_PIXEL then [] else [ColorAt(s, 0)] + Pixels(s[BYTES_PER_PIXEL..])
  }

  /** Pixel i of the buffer is the colour read from its window at byte i * 4. */
  lemma {:induction false} PixelsAt(s: seq<byte>, i: int)
    requires 0 <= i < |s| / BYTES_PER_PIXEL
    ensures WindowFits(s, i * BYTES_PER_PIXEL)
    ensures Pixels(s)[i] == ColorAt(s, i * BYTES_PER_PIXEL)
  {
    if i > 0 {
      PixelsAt(s[BYTES_PER_PIXEL..], i - 1);
    }
  }

  /** Storing a colour at pixel i's window replaces pixel i and no other. */
  lemma {:induction false} PixelsStore(s: seq<byte>, i: int, c: Color)
    requires 0 <= i < |s| / BYTES_PER_PIXEL
    ensures WindowFits(s, i * BYTES_PER_PIXEL)
    ensures Pixels(StoreColor(s, i * BYTES_PER_PIXEL, c)) == Pixels(s)[i := c]
  {
    var t := StoreColor(s, i * BYTES_PER_PIXEL, c);
    if i == 0 {
      assert t[BYTES_PER_PIXEL..] == s[BYTES_PER_PIXEL..];
    } else {
      assert t[BYTES_PER_PIXEL..] == StoreColor(s[BYTES_PER_PIXEL..], (i - 1) * BYTES_PER_PIXEL, c);
      PixelsStore(s[BYTES_PER_PIXEL..], i - 1, c);
    }
  }

  /** What NovaGetPixel builds from the window at p: the bytes are read as b, g,
      r, a and passed to the (r, g, b, a) constructor in the order (a, r, g, b). */
  function NovaAt(s: seq<byte>, p: int): (n: NovaCol)
    requires WindowFits(s, p)
    ensures n == NovaCol(ColorAt(s, p).a, ColorAt(s, p).r, ColorAt(s, p).g, ColorAt(s, p).b)
  {
    var b, g, r, a := s[p] as int, s[p + 1] as int, s[p + 2] as int, s[p + 3] as int;
    MakeNovaCol(a, r, g, b)
  }

  /** Storing a colour and reading it back gives the colour. */
  lemma {:induction false} ReadAfterStore(s: seq<byte>, p: int, c: Color)
    requires WindowFits(s, p)
    ensures ColorAt(StoreColor(s, p, c), p) == c
  {
  }

  /** Storing a colour leaves every window that does not overlap it unchanged. */
  lemma {:induction false} ReadOtherAfterStore(s: seq<byte>, p: int, q: int, c: Color)
    requires WindowFits(s, p) && WindowFits(s, q)
    requires p + BYTES_PER_PIXEL <= q || q + BYTES_PER_PIXEL <= p
    ensures ColorAt(StoreColor(s, p, c), q) == ColorAt(s, q)
  {
    var t := StoreColor(s, p, c);
    assert t[q] == s[q] && t[q + 1] == s[q + 1] && t[q + 2] == s[q + 2] && t[q + 3] == s[q + 3];
  }

  /** Setting pixel (x1, y1) leaves every other in-range pixel of the image as it was. */
  lemma {:induction false} SetLeavesOthers(width: int, height: int, s: seq<byte>, x1: int, y1: int, x2: int, y2: int, c: Color)
    requires |s| == width * height * BYTES_PER_PIXEL
    requires InImage(width, height, x1, y1) && InImage(width, height, x2, y2)
    requires x1 != x2 || y1 != y2
    ensures WindowFits(s, PixelOffset(width, x1, y1)) && WindowFits(s, PixelOffset(width, x2, y2))
    ensures ColorAt(StoreColor(s, PixelOffset(width, x1, y1), c), PixelOffset(width, x2, y2))
         == ColorAt(s, PixelOffset(width, x2, y2))
  {
    WindowInBounds(width, height, x1, y1);
    WindowInBounds(width, height, x2, y2);
    WindowsDisjoint(width, height, x1, y1, x2, y2);
    ReadOtherAfterStore(s, PixelOffset(width, x1, y1), PixelOffset(width, x2, y2), c);
  }

  /** A window where the shift is visible: blue 1, green 2, red 3, alpha 4 comes
      back from NovaGetPixel with R == 4 rather than 3. */
  lemma NovaShiftWitness()
    ensures NovaAt([1, 2, 3, 4], 0).R != ColorAt([1, 2, 3, 4], 0).r
    ensures NovaAt([1, 2, 3, 4], 0).R as int + NovaAt([1, 2, 3, 4], 0).G as int + NovaAt([1, 2, 3, 4], 0).B as int
         != ColorAt([1, 2, 3, 4], 0).r as int + ColorAt([1, 2, 3, 4], 0).g as int + ColorAt([1, 2, 3, 4], 0).b as int
  {
  }

  /** The NovaCol the field names ask for: the constructor called as (r, g, b, a),
      so that every field holds its own channel. */
  function IntendedNovaAt(s: seq<byte>, p: int): (n: NovaCol)
    requires WindowFits(s, p)
    ensures n == NovaCol(ColorAt(s, p).r, ColorAt(s, p).g, ColorAt(s, p).b, ColorAt(s, p).a)
  {
    var b, g, r, a := s[p] as int, s[p + 1] as int, s[p + 2] as int, s[p + 3] as int;
    MakeNovaCol(r, g, b, a)
  }
}
