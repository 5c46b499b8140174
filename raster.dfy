/**
 * The System.Drawing types the imaging code works on: 32-bit ARGB colours and
 * bitmaps whose pixels live row-major in one buffer, pixel (x, y) at offset
 * y * Width + x.
 */
module Raster {

  /** One 8-bit colour channel. */
  type Byte = x: int | 0 <= x < 0x100

  /** The number of distinct ushort values. */
  const UShortRange := 0x1_0000

  /** System.UInt16 (ushort). */
  type UShort = x: int | 0 <= x < 0x1_0000

  /** System.Drawing.Color: alpha, red, green, blue. */
  datatype Color = Color(a: Byte, r: Byte, g: Byte, b: Byte)

  /** The colour of every pixel of a newly allocated bitmap. */
  const Transparent := Color(0, 0, 0, 0)

  lemma MulMonotone(a: int, b: int, c: nat)
    requires a <= b
    ensures a * c <= b * c
  {
    assert b * c == a * c + (b - a) * c;
  }

  /** Offset of pixel (x, y) in the buffer of a raster `w` pixels wide. */
  function Offset(w: nat, x: nat, y: nat): nat
  {
    y * w + x
  }

  lemma OffsetInBounds(w: nat, h: nat, x: nat, y: nat)
    requires x < w && y < h
    ensures Offset(w, x, y) < w * h
  {
    MulMonotone(y + 1, h, w);
    assert (y + 1) * w == y * w + w;
  }

  /** Euclidean division is determined by any quotient/remainder pair. */
  lemma DivModUnique(n: int, d: int, q: int, r: int)
    requires d > 0 && 0 <= r < d && n == q * d + r
    ensures n / d == q && n % d == r
  {
    var q' := n / d;
    assert n == q' * d + n % d;
    if q' > q {
      MulMonotone(q + 1, q', d);
    } else if q' < q {
      MulMonotone(q' + 1, q, d);
    }
    assert q' == q;
  }

  /** An offset gives back the coordinates it was computed from. */
  lemma OffsetCoordinates(w: nat, x: nat, y: nat)
    requires x < w
    ensures Offset(w, x, y) / w == y && Offset(w, x, y) % w == x
  {
    DivModUnique(Offset(w, x, y), w, y, x);
  }

  /** Every offset of a w-by-h buffer is the offset of an in-bounds pixel. */
  lemma OffsetDecomposes(w: nat, h: nat, k: nat)
    requires k < w * h
    ensures w > 0 && k % w < w && k / w < h && Offset(w, k % w, k / w) == k
  {
    if k / w >= h {
      MulMonotone(h, k / w, w);
    }
  }

  /** Bitmap.GetPixel on a pixel buffer. */
  function PixelAt(px: seq<Color>, w: nat, h: nat, x: nat, y: nat): Color
    requires |px| == w * h && x < w && y < h
  {
    OffsetInBounds(w, h, x, y);
    px[Offset(w, x, y)]
  }

  /** Bitmap.SetPixel on a pixel buffer. */
  function SetPixelAt(px: seq<Color>, w: nat, h: nat, x: nat, y: nat, c: Color): (r: seq<Color>)
    requires |px| == w * h && x < w && y < h
    ensures |r| == |px|
  {
    OffsetInBounds(w, h, x, y);
    px[Offset(w, x, y) := c]
  }

  /** Setting one pixel leaves every other pixel as it was. */
  lemma PixelAtUpdate(px: seq<Color>, w: nat, h: nat, x: nat, y: nat, c: Color, i: nat, j: nat)
    requires |px| == w * h && x < w && y < h && i < w && j < h
    ensures PixelAt(SetPixelAt(px, w, h, x, y, c), w, h, i, j)
            == if i == x && j == y then c else PixelAt(px, w, h, i, j)
  {
    OffsetInBounds(w, h, x, y);
    OffsetInBounds(w, h, i, j);
    if i != x || j != y {
      OffsetCoordinates(w, x, y);
      OffsetCoordinates(w, i, j);
      assert Offset(w, i, j) != Offset(w, x, y);
    }
  }

  /** Two buffers of one size that agree on every pixel are equal. */
  lemma PixelsEqual(a: seq<Color>, b: seq<Color>, w: nat, h: nat)
    requires |a| == w * h && |b| == w * h
    requires forall i: nat, j: nat :: i < w && j < h ==> PixelAt(a, w, h, i, j) == PixelAt(b, w, h, i, j)
    ensures a == b
  {
    forall k | 0 <= k < |a|
      ensures a[k] == b[k]
    {
      OffsetDecomposes(w, h, k);
      assert PixelAt(a, w, h, k % w, k / w) == PixelAt(b, w, h, k % w, k / w);
    }
  }

  /**
   * How far a column-major scan (outer loop on x, inner loop on y) has got:
   * the pixels before (x, y) already hold their value in `done`, the others
   * still hold their value in `rest`.
   */
  ghost predicate ScannedTo(cur: seq<Color>, done: seq<Color>, rest: seq<Color>, w: nat, h: nat, x: nat, y: nat)
    requires |cur| == w * h && |done| == w * h && |rest| == w * h
  {
    forall i: nat, j: nat :: i < w && j < h ==>
      PixelAt(cur, w, h, i, j) == if i < x || (i == x && j < y) then PixelAt(done, w, h, i, j) else PixelAt(rest, w, h, i, j)
  }

  /** Writing the pixel at (x, y) its final value moves the scan one pixel on. */
  lemma ScanStep(cur: seq<Color>, done: seq<Color>, rest: seq<Color>, w: nat, h: nat, x: nat, y: nat)
    requires |cur| == w * h && |done| == w * h && |rest| == w * h && x < w && y < h
    requires ScannedTo(cur, done, rest, w, h, x, y)
    ensures ScannedTo(SetPixelAt(cur, w, h, x, y, PixelAt(done, w, h, x, y)), done, rest, w, h, x, y + 1)
  {
    var c := PixelAt(done, w, h, x, y);
    forall i: nat, j: nat | i < w && j < h
      ensures PixelAt(SetPixelAt(cur, w, h, x, y, c), w, h, i, j)
              == if i < x || (i == x && j < y + 1) then PixelAt(done, w, h, i, j) else PixelAt(rest, w, h, i, j)
    {
      PixelAtUpdate(cur, w, h, x, y, c, i, j);
    }
  }

  /** A pixel whose final value is the one it already holds is passed over. */
  lemma ScanSkip(cur: seq<Color>, done: seq<Color>, rest: seq<Color>, w: nat, h: nat, x: nat, y: nat)
    requires |cur| == w * h && |done| == w * h && |rest| == w * h && x < w && y < h
    requires ScannedTo(cur, done, rest, w, h, x, y)
    requires PixelAt(done, w, h, x, y) == PixelAt(rest, w, h, x, y)
    ensures ScannedTo(cur, done, rest, w, h, x, y + 1)
  {
  }

  /** A finished column hands over to the next. */
  lemma ScanNextColumn(cur: seq<Color>, done: seq<Color>, rest: seq<Color>, w: nat, h: nat, x: nat)
    requires |cur| == w * h && |done| == w * h && |rest| == w * h
    requires ScannedTo(cur, done, rest, w, h, x, h)
    ensures ScannedTo(cur, done, rest, w, h, x + 1, 0)
  {
  }

  /** After the last column the buffer is the final one. */
  lemma ScanFinished(cur: seq<Color>, done: seq<Color>, rest: seq<Color>, w: nat, h: nat, x: nat)
    requires |cur| == w * h && |done| == w * h && |rest| == w * h && x >= w
    requires ScannedTo(cur, done, rest, w, h, x, 0)
    ensures cur == done
  {
    PixelsEqual(cur, done, w, h);
  }

  /** A System.Drawing.Bitmap in 32-bit ARGB format. */
  class Bitmap {
    const Width: nat
    const Height: nat
    const Pixels: array<Color>

    ghost predicate Valid()
    {
      Pixels.Length == Width * Height
    }

    /** A bitmap holding the given buffer. */
    constructor FromPixels(width: nat, height: nat, px: seq<Color>)
      requires |px| == width * height
      ensures Valid() && Width == width && Height == height && fresh(Pixels)
      ensures Pixels[..] == px
    {
      Width, Height := width, height;
      Pixels := new Color[|px|](k requires 0 <= k < |px| => px[k]);
    }

    /** Bitmap.Clone(): an independent copy. */
    method Clone() returns (c: Bitmap)
      requires Valid()
      ensures fresh(c) && fresh(c.Pixels) && c.Valid()
      ensures c.Width == Width && c.Height == Height && c.Pixels[..] == Pixels[..]
    {
      c := new Bitmap.FromPixels(Width, Height, Pixels[..]);
    }

    function GetPixel(x: nat, y: nat): Color
      reads Pixels
      requires Valid() && x < Width && y < Height
    {
      PixelAt(Pixels[..], Width, Height, x, y)
    }

    method SetPixel(x: nat, y: nat, c: Color)
      requires Valid() && x < Width && y < Height
      modifies Pixels
      ensures Pixels[..] == SetPixelAt(old(Pixels[..]), Width, Height, x, y, c)
    {
      OffsetInBounds(Width, Height, x, y);
      Pixels[Offset(Width, x, y)] := c;
    }
  }
}
