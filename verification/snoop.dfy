/** BmpPixelSnoop: direct read/write access to the pixel bytes of a bitmap
    locked in 32-bit ARGB format. The locked memory is the array scan0; every
    access is plain offset arithmetic on it, with no bounds check, so the
    in-range conditions are preconditions. */
module PixelSnoop {
  import opened PixelLayout

  class BmpPixelSnoop {
    /** The locked pixel bytes, starting at the first byte of row 0. */
    var scan0: array<byte>
    /** Bytes per pixel, from the locked format's bit size. */
    var depth: int
    /** Bytes per row, computed as width * depth (the lock's stride is not used). */
    var lineBytes: int

    const width: int
    const height: int

    /** Whether the bits are still locked, and how many times they were unlocked. */
    ghost var locked: bool
    ghost var unlocks: nat

    /** The layout the constructor fixes. Row size and buffer length fit the
        source's 32-bit int, so no offset computed below wraps around. */
    ghost predicate Valid()
      reads this
      ensures Valid() ==> scan0.Length == width * height * BYTES_PER_PIXEL <= INT32_MAX
      ensures Valid() ==> lineBytes == width * BYTES_PER_PIXEL <= INT32_MAX
    {
      0 <= width && 0 <= height &&
      depth == BYTES_PER_PIXEL &&
      lineBytes == width * depth && lineBytes <= INT32_MAX &&
      scan0.Length == lineBytes * height && scan0.Length <= INT32_MAX
    }

    predicate InRange(x: int, y: int)
    {
      InImage(width, height, x, y)
    }

    /** Locks the bitmap's bits: bitmapWidth and bitmapHeight are the bitmap's
        size, pixelFormatSize the bit size of its format and bits the memory
        that LockBits hands back. */
    constructor (bitmapWidth: int, bitmapHeight: int, pixelFormatSize: int, bits: array<byte>)
      requires 0 <= bitmapWidth && 0 <= bitmapHeight
      requires pixelFormatSize / 8 == BYTES_PER_PIXEL
      requires bits.Length == bitmapWidth * bitmapHeight * BYTES_PER_PIXEL
      requires bitmapWidth * BYTES_PER_PIXEL <= INT32_MAX && bits.Length <= INT32_MAX
      ensures Valid()
      ensures width == bitmapWidth && height == bitmapHeight
      ensures depth == pixelFormatSize / 8 && lineBytes == bitmapWidth * depth
      ensures scan0 == bits
      ensures locked && unlocks == 0
    {
      width := bitmapWidth;
      height := bitmapHeight;
      var bytesPerPixel := pixelFormatSize / 8;
      depth := bytesPerPixel;
      scan0 := bits;
      lineBytes := bitmapWidth * bytesPerPixel;
      locked := true;
      unlocks := 0;
    }

    /** Unlocks the bits. Nothing prevents a second call, which calls UnlockBits
        again; the ghost counter records the call, not what GDI+ then does. */
    method Dispose()
      modifies this`locked, this`unlocks
      ensures !locked && unlocks == old(unlocks) + 1
    {
      locked := false;
      unlocks := unlocks + 1;
    }

    /** Address of pixel (x, y): rows are width * 4 bytes apart, pixels 4. */
    function PixelPointer(x: int, y: int): (p: int)
      reads this
      requires Valid()
      ensures p == PixelOffset(width, x, y)
      ensures InRange(x, y) ==> 0 <= p && p + BYTES_PER_PIXEL <= scan0.Length
      ensures InRange(x, y) ==> 0 <= y * lineBytes <= p && 0 <= x * depth <= p && p + BYTES_PER_PIXEL <= INT32_MAX
    {
      WindowInBounds(width, height, x, y);
      y * lineBytes + x * depth
    }

    /** Address of the pixel with row-major index offset; for an in-range index
        it is the address of pixel (offset % width, offset / width). */
    function PixelPointerLinear(offset: int): (p: int)
      reads this
      requires Valid()
      ensures p == LinearOffset(offset, BYTES_PER_PIXEL)
      ensures 0 <= offset < width * height ==>
        0 < width && InRange(offset % width, offset / width) &&
        p == PixelPointer(offset % width, offset / width)
      ensures 0 <= offset < width * height ==> 0 <= p && p + BYTES_PER_PIXEL <= scan0.Length <= INT32_MAX
    {
      LinearAddressing(width, height, offset);
      offset * depth
    }

    /** The image the locked bytes hold: width * height colours in row-major order. */
    ghost function Image(): (cs: seq<Color>)
      reads this, scan0
      requires Valid()
      ensures |cs| == width * height
    {
      assert scan0.Length == width * height * BYTES_PER_PIXEL;
      Pixels(scan0[..])
    }

    /** The colour of pixel (x, y) in the image. */
    ghost function PixelOf(x: int, y: int): Color
      reads this, scan0
      requires Valid() && InRange(x, y)
    {
      IndexBelowCount(width, height, x, y);
      Image()[PixelIndex(width, x, y)]
    }

    /** The bytes at pixel (x, y)'s window decode to the image's colour there. */
    lemma PixelOfWindow(x: int, y: int)
      requires Valid() && InRange(x, y)
      ensures PixelOf(x, y) == ColorAt(scan0[..], PixelPointer(x, y))
    {
      IndexBelowCount(width, height, x, y);
      AddressFormula(width, x, y);
      PixelsAt(scan0[..], PixelIndex(width, x, y));
    }

    method GetPixel(x: int, y: int) returns (c: Color)
      requires Valid() && locked && InRange(x, y)
      ensures c.b == scan0[PixelPointer(x, y) + BLUE]
      ensures c.g == scan0[PixelPointer(x, y) + GREEN]
      ensures c.r == scan0[PixelPointer(x, y) + RED]
      ensures c.a == scan0[PixelPointer(x, y) + ALPHA]
      ensures c == PixelOf(x, y)
    {
      var p := PixelPointer(x, y);
      var b := scan0[p];
      p := p + 1;
      var g := scan0[p];
      p := p + 1;
      var r := scan0[p];
      p := p + 1;
      var a := scan0[p];
      c := Argb(a, r, g, b);
      PixelOfWindow(x, y);
    }

    /** NovaGetPixel, as written: reads b, g, r, a and passes them to the
        (r, g, b, a) constructor as (a, r, g, b). */
    method NovaGetPixel(x: int, y: int) returns (n: NovaCol)
      requires Valid() && locked && InRange(x, y)
      ensures n.R == scan0[PixelPointer(x, y) + ALPHA]
      ensures n.G == scan0[PixelPointer(x, y) + RED]
      ensures n.B == scan0[PixelPointer(x, y) + GREEN]
      ensures n.A == scan0[PixelPointer(x, y) + BLUE]
      ensures n == NovaAt(scan0[..], PixelPointer(x, y))
    {
      var p := PixelPointer(x, y);
      var b: int := scan0[p] as int;
      p := p + 1;
      var g: int := scan0[p] as int;
      p := p + 1;
      var r: int := scan0[p] as int;
      p := p + 1;
      var a: int := scan0[p] as int;
      n := MakeNovaCol(a, r, g, b);
    }

    /** The pixel with row-major index pixelOffset: the same colour as GetPixel
        at (pixelOffset % width, pixelOffset / width). */
    method GetPixelLinear(pixelOffset: int) returns (c: Color)
      requires Valid() && locked && 0 <= pixelOffset < width * height
      ensures 0 < width && InRange(pixelOffset % width, pixelOffset / width)
      ensures c.b == scan0[PixelPointerLinear(pixelOffset) + BLUE]
      ensures c.g == scan0[PixelPointerLinear(pixelOffset) + GREEN]
      ensures c.r == scan0[PixelPointerLinear(pixelOffset) + RED]
      ensures c.a == scan0[PixelPointerLinear(pixelOffset) + ALPHA]
      ensures c == Image()[pixelOffset]
      ensures c == PixelOf(pixelOffset % width, pixelOffset / width)
    {
      var p := PixelPointerLinear(pixelOffset);
      var b := scan0[p];
      p := p + 1;
      var g := scan0[p];
      p := p + 1;
      var r := scan0[p];
      p := p + 1;
      var a := scan0[p];
      c := Argb(a, r, g, b);
      PixelsAt(scan0[..], pixelOffset);
      PixelOfWindow(pixelOffset % width, pixelOffset / width);
    }

    /** Linear index y * width + x names pixel (x, y): GetPixelLinear at that
        index reads the same window as GetPixel(x, y). */
    lemma LinearNamesCoords(x: int, y: int)
      requires Valid() && InRange(x, y)
      ensures 0 <= PixelIndex(width, x, y) < width * height
      ensures PixelIndex(width, x, y) % width == x && PixelIndex(width, x, y) / width == y
      ensures PixelPointerLinear(PixelIndex(width, x, y)) == PixelPointer(x, y)
    {
      CoordsAddressing(width, height, x, y);
      IndexToCoords(width, x, y);
    }

    method GetRed(x: int, y: int) returns (v: byte)
      requires Valid() && locked && InRange(x, y)
      ensures v == scan0[PixelPointer(x, y) + RED]
      ensures v == PixelOf(x, y).r
    {
      v := scan0[PixelPointer(x, y) + RED];
      PixelOfWindow(x, y);
    }

    method GetGreen(x: int, y: int) returns (v: byte)
      requires Valid() && locked && InRange(x, y)
      ensures v == scan0[PixelPointer(x, y) + GREEN]
      ensures v == PixelOf(x, y).g
    {
      v := scan0[PixelPointer(x, y) + GREEN];
      PixelOfWindow(x, y);
    }

    method GetBlue(x: int, y: int) returns (v: byte)
      requires Valid() && locked && InRange(x, y)
      ensures v == scan0[PixelPointer(x, y) + BLUE]
      ensures v == PixelOf(x, y).b
    {
      v := scan0[PixelPointer(x, y)];
      PixelOfWindow(x, y);
    }

    /** Writes col's Blue, Green, Red and Alpha bytes to pixel (x, y)'s window,
        so that (x, y) reads back as col and no other byte changes. */
    method SetPixel(x: int, y: int, col: Color)
      requires Valid() && locked && InRange(x, y)
      modifies scan0
      ensures scan0[..] == StoreColor(old(scan0[..]), PixelPointer(x, y), col)
      ensures Image() == old(Image())[PixelIndex(width, x, y) := col]
      ensures PixelOf(x, y) == col
      ensures forall k :: 0 <= k < scan0.Length && !(PixelPointer(x, y) <= k < PixelPointer(x, y) + BYTES_PER_PIXEL) ==>
        scan0[k] == old(scan0[k])
      ensures forall x2, y2 :: InRange(x2, y2) && (x2 != x || y2 != y) ==> PixelOf(x2, y2) == old(PixelOf(x2, y2))
    {
      ghost var before := scan0[..];
      var p := PixelPointer(x, y);
      scan0[p] := col.b;
      p := p + 1;
      scan0[p] := col.g;
      p := p + 1;
      scan0[p] := col.r;
      p := p + 1;
      scan0[p] := col.a;
      assert scan0[..] == StoreColor(before, PixelPointer(x, y), col);
      IndexBelowCount(width, height, x, y);
      AddressFormula(width, x, y);
      PixelsStore(before, PixelIndex(width, x, y), col);
      forall x2, y2 | InRange(x2, y2) && (x2 != x || y2 != y)
        ensures PixelOf(x2, y2) == old(PixelOf(x2, y2))
      {
        IndexBelowCount(width, height, x2, y2);
        if PixelIndex(width, x2, y2) == PixelIndex(width, x, y) {
          IndexInjective(width, x2, y2, x, y);
        }
      }
    }

    /** The width the row layout was computed from. */
    function Width(): (w: int)
      reads this
      requires Valid()
      ensures w * depth == lineBytes && w == width
    {
      width
    }

    /** The height the locked buffer was sized for. */
    function Height(): (h: int)
      reads this
      requires Valid()
      ensures lineBytes * h == scan0.Length && h == height
    {
      height
    }
  }
}
