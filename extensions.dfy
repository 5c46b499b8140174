/**
 * The smaller bitmap extensions: the margin placement of Add, IsEmpty, the file
 * name normalisation of SavePng, and the pixel walks ForEach and ForEachPixel.
 * Drawing (Graphics.DrawImage) and file output are foreign: Add is modelled by
 * where it draws, SavePng by the name it writes to, and the callbacks of the
 * walks by the sequence of (x, y) arguments they receive.
 */
module Extensions {
  import opened Raster

  /** The gap Add leaves between the drawn bitmap and the right and bottom edges. */
  const Margin := 4

  /** Add(source, bitmap): the point where `bitmap` is drawn onto `source`. */
  function AddOrigin(sourceWidth: int, sourceHeight: int, width: int, height: int): (int, int)
  {
    (sourceWidth - width - Margin, sourceHeight - height - Margin)
  }

  /**
   * The drawn bitmap ends exactly Margin pixels before the right and bottom edges,
   * and it lies wholly inside the source exactly when it is at most
   * source - Margin wide and high.
   */
  lemma AddAnchorsBottomRight(sourceWidth: int, sourceHeight: int, width: nat, height: nat)
    ensures AddOrigin(sourceWidth, sourceHeight, width, height).0 + width + Margin == sourceWidth
    ensures AddOrigin(sourceWidth, sourceHeight, width, height).1 + height + Margin == sourceHeight
    ensures AddOrigin(sourceWidth, sourceHeight, width, height).0 >= 0 <==> width + Margin <= sourceWidth
    ensures AddOrigin(sourceWidth, sourceHeight, width, height).1 >= 0 <==> height + Margin <= sourceHeight
  {
  }

  /** The four bytes of a pixel in a locked 32-bit ARGB buffer: blue, green, red, alpha. */
  function Channel(c: Color, i: nat): Byte
    requires i < 4
  {
    if i == 0 then c.b else if i == 1 then c.g else if i == 2 then c.r else c.a
  }

  /** The bytes LockBits exposes for a 32-bit ARGB bitmap (its stride is 4 * Width). */
  function LockedBytes(px: seq<Color>): (bytes: seq<Byte>)
    ensures |bytes| == 4 * |px|
  {
    seq(4 * |px|, i requires 0 <= i < 4 * |px| => Channel(px[i / 4], i % 4))
  }

  /** IsEmpty: every byte of the bitmap is 0, that is, every pixel is transparent black. */
  function IsEmpty(image: Bitmap): (r: bool)
    reads image.Pixels
    ensures r <==> forall k :: 0 <= k < image.Pixels.Length ==> image.Pixels[k] == Transparent
  {
    var bytes := LockedBytes(image.Pixels[..]);
    var all := forall i :: 0 <= i < |bytes| ==> bytes[i] == 0;
    assert all ==> forall k :: 0 <= k < image.Pixels.Length ==> image.Pixels[k] == Transparent by {
      if all {
        forall k | 0 <= k < image.Pixels.Length
          ensures image.Pixels[k] == Transparent
        {
          assert bytes[4 * k] == 0 && bytes[4 * k + 1] == 0 && bytes[4 * k + 2] == 0 && bytes[4 * k + 3] == 0;
        }
      }
    }
    all
  }

  predicate EndsWith(s: string, suffix: string)
  {
    |suffix| <= |s| && s[|s| - |suffix|..] == suffix
  }

  /** The name SavePng writes to: ".png" is appended unless the name already ends with it. */
  function PngName(name: string): (r: string)
    ensures EndsWith(r, ".png")
    ensures |name| <= |r| && r[..|name|] == name
    ensures EndsWith(name, ".png") <==> r == name
  {
    if EndsWith(name, ".png") then name else name + ".png"
  }

  /** Normalising a name twice gives what normalising it once gave. */
  lemma PngNameIdempotent(name: string)
    ensures PngName(PngName(name)) == PngName(name)
  {
  }

  /** A pixel position as the callbacks receive it. */
  datatype Point = Point(x: int, y: int)

  /** Row y of a walk `cols` wide: (0, y), (1, y), ... */
  function Row(cols: nat, y: int): (r: seq<Point>)
    ensures |r| == cols
  {
    seq(cols, x requires 0 <= x < cols => Point(x, y))
  }

  /** One more step along row y extends the visited prefix by (x, y). */
  lemma RowPrefixStep(cols: nat, y: int, x: nat)
    requires x < cols
    ensures Row(cols, y)[..x + 1] == Row(cols, y)[..x] + [Point(x, y)]
  {
  }

  /** A `cols`-by-`rows` walk with the outer loop on y and the inner loop on x. */
  function Walk(cols: nat, rows: nat): (r: seq<Point>)
  {
    if rows == 0 then [] else Walk(cols, rows - 1) + Row(cols, rows - 1)
  }

  /** The walk is row-major: call k receives (k % cols, k / cols). */
  lemma {:induction false} WalkIsRowMajor(cols: nat, rows: nat)
    ensures |Walk(cols, rows)| == cols * rows
    ensures forall k :: 0 <= k < |Walk(cols, rows)| ==> Walk(cols, rows)[k] == Point(k % cols, k / cols)
  {
    if rows > 0 {
      WalkIsRowMajor(cols, rows - 1);
      var before := Walk(cols, rows - 1);
      assert |before| == cols * (rows - 1) == cols * rows - cols;
      forall k | cols * (rows - 1) <= k < cols * rows
        ensures Walk(cols, rows)[k] == Point(k % cols, k / cols)
      {
        var x := k - cols * (rows - 1);
        assert k == Offset(cols, x, rows - 1);
        OffsetCoordinates(cols, x, rows - 1);
      }
    }
  }

  /** Call k of a cols-by-rows walk lands inside the box, and two different calls land on different points. */
  lemma WalkStepInBox(cols: nat, rows: nat, k: nat, k': nat)
    requires k < k' < cols * rows
    ensures 0 <= k % cols < cols && 0 <= k / cols < rows
    ensures Point(k % cols, k / cols) != Point(k' % cols, k' / cols)
  {
    OffsetDecomposes(cols, rows, k);
    OffsetDecomposes(cols, rows, k');
  }

  /** The walk visits every point of the cols-by-rows box exactly once, and nothing outside it. */
  lemma {:induction false} WalkCoversBox(cols: nat, rows: nat, x: int, y: int)
    ensures forall k :: 0 <= k < |Walk(cols, rows)| ==> 0 <= Walk(cols, rows)[k].x < cols && 0 <= Walk(cols, rows)[k].y < rows
    ensures 0 <= x < cols && 0 <= y < rows ==> Point(x, y) in Walk(cols, rows)
    ensures forall k, k' :: 0 <= k < k' < |Walk(cols, rows)| ==> Walk(cols, rows)[k] != Walk(cols, rows)[k']
  {
    WalkIsRowMajor(cols, rows);
    var walk := Walk(cols, rows);
    forall k | 0 <= k < |walk|
      ensures 0 <= walk[k].x < cols && 0 <= walk[k].y < rows
    {
      OffsetDecomposes(cols, rows, k);
    }
    if 0 <= x < cols && 0 <= y < rows {
      OffsetInBounds(cols, rows, x, y);
      OffsetCoordinates(cols, x, y);
      assert walk[Offset(cols, x, y)] == Point(x, y);
    }
    forall k, k' | 0 <= k < k' < |walk|
      ensures walk[k] != walk[k']
    {
      WalkStepInBox(cols, rows, k, k');
    }
  }

  /**
   * ForEach(bitmap, action) as written: both loops are bounded by Height, so the
   * action receives the points of a Height-by-Height box, row by row.
   */
  method ForEach(bitmap: Bitmap) returns (calls: seq<Point>)
    ensures calls == Walk(bitmap.Height, bitmap.Height)
  {
    var n := bitmap.Height;
    calls := [];
    var y := 0;
    while y < n
      invariant 0 <= y <= n
      invariant calls == Walk(n, y)
    {
      var x := 0;
      assert Walk(n, y) + Row(n, y)[..0] == Walk(n, y);
      while x < n
        invariant 0 <= x <= n
        invariant calls == Walk(n, y) + Row(n, y)[..x]
      {
        RowPrefixStep(n, y, x);
        calls := calls + [Point(x, y)];
        x := x + 1;
      }
      assert Walk(n, y) + Row(n, y)[..n] == Walk(n, y + 1);
      y := y + 1;
    }
  }

  /** A 2-by-1 bitmap shows the wrong bound: ForEach never reaches its pixel (1, 0). */
  lemma ForEachMissesColumn(bitmap: Bitmap)
    requires bitmap.Width == 2 && bitmap.Height == 1
    ensures Point(1, 0) !in Walk(bitmap.Height, bitmap.Height)
  {
    WalkCoversBox(1, 1, 1, 0);
  }

  /** ForEach as evidently intended: x bounded by Width. */
  method ForEachInBounds(bitmap: Bitmap) returns (calls: seq<Point>)
    ensures calls == Walk(bitmap.Width, bitmap.Height)
  {
    var w, h := bitmap.Width, bitmap.Height;
    calls := [];
    var y := 0;
    while y < h
      invariant 0 <= y <= h
      invariant calls == Walk(w, y)
    {
      var x := 0;
      assert Walk(w, y) + Row(w, y)[..0] == Walk(w, y);
      while x < w
        invariant 0 <= x <= w
        invariant calls == Walk(w, y) + Row(w, y)[..x]
      {
        RowPrefixStep(w, y, x);
        calls := calls + [Point(x, y)];
        x := x + 1;
      }
      assert Walk(w, y) + Row(w, y)[..w] == Walk(w, y + 1);
      y := y + 1;
    }
  }

  /** The points of `pts` inside the bitmap whose pixel satisfies `wanted`, in order. */
  function Selected(pts: seq<Point>, px: seq<Color>, w: nat, h: nat, wanted: Color -> bool): seq<Point>
    requires |px| == w * h
  {
    if pts == [] then []
    else
      var p := pts[|pts| - 1];
      var keep := 0 <= p.x < w && 0 <= p.y < h && wanted(PixelAt(px, w, h, p.x, p.y));
      Selected(pts[..|pts| - 1], px, w, h, wanted) + (if keep then [p] else [])
  }

  /** Visiting one more in-bounds point appends it exactly when its pixel is wanted. */
  lemma SelectedStep(pts: seq<Point>, p: Point, px: seq<Color>, w: nat, h: nat, wanted: Color -> bool)
    requires |px| == w * h && 0 <= p.x < w && 0 <= p.y < h
    ensures Selected(pts + [p], px, w, h, wanted)
         == Selected(pts, px, w, h, wanted) + (if wanted(PixelAt(px, w, h, p.x, p.y)) then [p] else [])
  {
    assert (pts + [p])[..|pts|] == pts;
  }

  /**
   * ForEachPixel(bitmap, action, predicate) as written: the same Height-by-Height walk,
   * calling the action where `wanted` holds. GetPixel throws on an x beyond the
   * width, so the walk faults exactly when the bitmap is narrower than it is high,
   * after the action has run on the wanted pixels of row 0.
   */
  method ForEachPixel(bitmap: Bitmap, wanted: Color -> bool) returns (calls: seq<Point>, faulted: bool)
    requires bitmap.Valid()
    ensures faulted <==> bitmap.Width < bitmap.Height
    ensures !faulted ==> calls == Selected(Walk(bitmap.Height, bitmap.Height), bitmap.Pixels[..], bitmap.Width, bitmap.Height, wanted)
    ensures faulted ==> calls == Selected(Row(bitmap.Height, 0)[..bitmap.Width], bitmap.Pixels[..], bitmap.Width, bitmap.Height, wanted)
  {
    var w, n := bitmap.Width, bitmap.Height;
    ghost var px := bitmap.Pixels[..];
    ghost var visited: seq<Point> := [];
    calls := [];
    var y := 0;
    while y < n
      invariant 0 <= y <= n
      invariant y > 0 ==> n <= w
      invariant visited == Walk(n, y)
      invariant calls == Selected(visited, px, w, n, wanted)
    {
      var x := 0;
      while x < n
        invariant 0 <= x <= n && x <= w
        invariant visited == Walk(n, y) + Row(n, y)[..x]
        invariant calls == Selected(visited, px, w, n, wanted)
      {
        if x >= w {
          assert y == 0 && x == w;
          assert Walk(n, 0) == [];
          assert visited == Row(n, 0)[..w];
          return calls, true;
        }
        SelectedStep(visited, Point(x, y), px, w, n, wanted);
        var c := bitmap.GetPixel(x, y);
        assert c == PixelAt(px, w, n, x, y);
        if wanted(c) {
          calls := calls + [Point(x, y)];
        }
        RowPrefixStep(n, y, x);
        visited := visited + [Point(x, y)];
        x := x + 1;
      }
      assert Row(n, y)[..n] == Row(n, y);
      y := y + 1;
    }
    faulted := false;
  }

  /** A 1-by-2 bitmap shows the wrong bound: ForEachPixel faults on it. */
  lemma ForEachPixelFaults(bitmap: Bitmap)
    requires bitmap.Width == 1 && bitmap.Height == 2
    ensures Point(1, 0) in Walk(bitmap.Height, bitmap.Height) && !(Point(1, 0).x < bitmap.Width)
  {
    WalkCoversBox(2, 2, 1, 0);
  }

  /** ForEachPixel as evidently intended: x bounded by Width; it never faults. */
  method ForEachPixelInBounds(bitmap: Bitmap, wanted: Color -> bool) returns (calls: seq<Point>)
    requires bitmap.Valid()
    ensures calls == Selected(Walk(bitmap.Width, bitmap.Height), bitmap.Pixels[..], bitmap.Width, bitmap.Height, wanted)
  {
    var w, h := bitmap.Width, bitmap.Height;
    ghost var px := bitmap.Pixels[..];
    ghost var visited: seq<Point> := [];
    calls := [];
    var y := 0;
    while y < h
      invariant 0 <= y <= h
      invariant visited == Walk(w, y)
      invariant calls == Selected(visited, px, w, h, wanted)
    {
      var x := 0;
      while x < w
        invariant 0 <= x <= w
        invariant visited == Walk(w, y) + Row(w, y)[..x]
        invariant calls == Selected(visited, px, w, h, wanted)
      {
        SelectedStep(visited, Point(x, y), px, w, h, wanted);
        var c := bitmap.GetPixel(x, y);
        assert c == PixelAt(px, w, h, x, y);
        if wanted(c) {
          calls := calls + [Point(x, y)];
        }
        RowPrefixStep(w, y, x);
        visited := visited + [Point(x, y)];
        x := x + 1;
      }
      assert Row(w, y)[..w] == Row(w, y);
      y := y + 1;
    }
  }
}
