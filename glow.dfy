/**
 * The outline-and-glow effect every sprite tile goes through: Extensions.OutlineGlow
 * (the outline pass) and Extensions.applyOutlineGlow (shadow recolour, blur and
 * composite). The Gaussian blur and the floating-point alpha scaling are foreign
 * and enter as uninterpreted function parameters.
 */
module Glow {
  import opened Raster

  /** The colour argument that switches a pass off. */
  const NoColor := -1

  /**
   * Color.FromArgb(r, g, b) of bits 16-23, 8-15 and 0-7 of a packed colour
   * (`(v >> 16) & 0xFF` and so on; an arithmetic shift is a floor division).
   */
  function FromRgb(v: int): (c: Color)
    ensures c.a == 255
    ensures 0 <= v < 0x100_0000 ==> c.r * 0x1_0000 + c.g * 0x100 + c.b == v
  {
    Color(255, (v / 0x1_0000) % 0x100, (v / 0x100) % 0x100, v % 0x100)
  }

  /** Color.FromArgb(alpha, baseColor): the RGB of `base` under a new alpha. */
  function WithAlpha(alpha: Byte, base: Color): Color
  {
    Color(alpha, base.r, base.g, base.b)
  }

  /** The neighbour offsets, in the order the outline pass visits them. */
  const Neighbours: seq<(int, int)> := [(-1, -1), (0, -1), (1, -1), (1, 0), (1, 1), (0, 1), (-1, 1), (-1, 0)]

  /** Neighbour `k` of (x, y) lies inside a w-by-h raster. */
  predicate NeighbourInside(w: nat, h: nat, x: nat, y: nat, k: nat)
    requires k < |Neighbours|
  {
    0 <= x + Neighbours[k].0 < w && 0 <= y + Neighbours[k].1 < h
  }

  /** Alpha of the in-bounds neighbour `k` of (x, y). */
  function NeighbourAlpha(px: seq<Color>, w: nat, h: nat, x: nat, y: nat, k: nat): Byte
    requires |px| == w * h && k < |Neighbours| && NeighbourInside(w, h, x, y, k)
  {
    PixelAt(px, w, h, x + Neighbours[k].0, y + Neighbours[k].1).a
  }

  /** `transparentFound`: some in-bounds neighbour has alpha 0. */
  predicate TransparentAround(px: seq<Color>, w: nat, h: nat, x: nat, y: nat)
    requires |px| == w * h
  {
    exists k :: 0 <= k < |Neighbours| && NeighbourInside(w, h, x, y, k) && NeighbourAlpha(px, w, h, x, y, k) == 0
  }

  /** `hasSomethingAround`: some in-bounds neighbour has alpha other than 0. */
  predicate SomethingAround(px: seq<Color>, w: nat, h: nat, x: nat, y: nat)
    requires |px| == w * h
  {
    exists k :: 0 <= k < |Neighbours| && NeighbourInside(w, h, x, y, k) && NeighbourAlpha(px, w, h, x, y, k) != 0
  }

  /** The outline rule at one pixel, decided on the original raster `px`. */
  function OutlinePixel(px: seq<Color>, w: nat, h: nat, x: nat, y: nat, outline: Color): Color
    requires |px| == w * h && x < w && y < h
  {
    var p := PixelAt(px, w, h, x, y);
    if p.a == 0 && TransparentAround(px, w, h, x, y) && SomethingAround(px, w, h, x, y) then outline else p
  }

  function OutlineAt(px: seq<Color>, w: nat, h: nat, k: nat, outline: Color): Color
    requires |px| == w * h && k < |px|
  {
    OffsetDecomposes(w, h, k);
    OutlinePixel(px, w, h, k % w, k / w, outline)
  }

  /** What the outline pass leaves in `copy`. */
  function Outlined(px: seq<Color>, w: nat, h: nat, outline: Color): (r: seq<Color>)
    requires |px| == w * h
    ensures |r| == |px|
  {
    seq(|px|, k requires 0 <= k < |px| => OutlineAt(px, w, h, k, outline))
  }

  lemma OutlinedAt(px: seq<Color>, w: nat, h: nat, x: nat, y: nat, outline: Color)
    requires |px| == w * h && x < w && y < h
    ensures PixelAt(Outlined(px, w, h, outline), w, h, x, y) == OutlinePixel(px, w, h, x, y, outline)
  {
    OffsetInBounds(w, h, x, y);
    OffsetCoordinates(w, x, y);
  }

  /** GaussianBlur(sigma, size).ApplyInPlace: the blurred colour at offset k of a w-by-h raster. */
  type Blur = (nat, nat, seq<Color>, nat) -> Color

  /** `(int)(shadowPixel.A * alpha)`: the floating-point alpha scaling. */
  type AlphaScale = Byte -> Byte

  /** The recoloured shadow: each pixel keeps its alpha and takes the shadow's RGB. */
  function Shadowed(px: seq<Color>, shadow: Color): (r: seq<Color>)
    ensures |r| == |px|
  {
    seq(|px|, k requires 0 <= k < |px| => WithAlpha(px[k].a, shadow))
  }

  function Blurred(px: seq<Color>, w: nat, h: nat, blur: Blur): (r: seq<Color>)
    ensures |r| == |px|
  {
    seq(|px|, k requires 0 <= k < |px| => blur(w, h, px, k))
  }

  /** The composite rule at one pixel. */
  function CompositePixel(original: Color, shadow: Color, scale: AlphaScale): Color
  {
    if original.a != 0 then original
    else if shadow.a != 0 then WithAlpha(scale(shadow.a), shadow)
    else shadow
  }

  function Composited(originals: seq<Color>, shadows: seq<Color>, scale: AlphaScale): (r: seq<Color>)
    requires |originals| == |shadows|
    ensures |r| == |originals|
  {
    seq(|originals|, k requires 0 <= k < |originals| => CompositePixel(originals[k], shadows[k], scale))
  }

  /** What applyOutlineGlow returns for the raster `px`. */
  function Glowed(px: seq<Color>, w: nat, h: nat, shadow: Color, scale: AlphaScale, blur: Blur): (r: seq<Color>)
    ensures |r| == |px|
  {
    Composited(px, Blurred(Shadowed(px, shadow), w, h, blur), scale)
  }

  /** What OutlineGlow returns for the raster `px`. */
  function OutlineGlowed(px: seq<Color>, w: nat, h: nat, outlineColor: int, glowColor: int,
                         scale: AlphaScale, blur: Blur): (r: seq<Color>)
    requires |px| == w * h
    ensures |r| == |px|
  {
    if outlineColor == NoColor && glowColor == NoColor then px
    else if outlineColor == NoColor then Glowed(px, w, h, FromRgb(glowColor), scale, blur)
    else Glowed(Outlined(px, w, h, FromRgb(outlineColor)), w, h, FromRgb(glowColor), scale, blur)
  }

  /** The neighbour loop of the outline pass: both flags, read from `bitmap`. */
  method ScanNeighbours(bitmap: Bitmap, x: nat, y: nat) returns (transparentFound: bool, hasSomethingAround: bool)
    requires bitmap.Valid() && x < bitmap.Width && y < bitmap.Height
    ensures transparentFound <==> TransparentAround(bitmap.Pixels[..], bitmap.Width, bitmap.Height, x, y)
    ensures hasSomethingAround <==> SomethingAround(bitmap.Pixels[..], bitmap.Width, bitmap.Height, x, y)
  {
    ghost var px := bitmap.Pixels[..];
    var w, h := bitmap.Width, bitmap.Height;
    transparentFound, hasSomethingAround := false, false;
    var i := 0;
    while i < |Neighbours|
      invariant 0 <= i <= |Neighbours|
      invariant transparentFound <==>
        exists k :: 0 <= k < i && NeighbourInside(w, h, x, y, k) && NeighbourAlpha(px, w, h, x, y, k) == 0
      invariant hasSomethingAround <==>
        exists k :: 0 <= k < i && NeighbourInside(w, h, x, y, k) && NeighbourAlpha(px, w, h, x, y, k) != 0
    {
      var dx, dy := x + Neighbours[i].0, y + Neighbours[i].1;
      if dx < 0 || dy < 0 || dx >= w || dy >= h {
        i := i + 1;
        continue;
      }
      var alpha := bitmap.GetPixel(dx, dy).a;
      assert NeighbourInside(w, h, x, y, i) && NeighbourAlpha(px, w, h, x, y, i) == alpha;
      if alpha == 0 {
        transparentFound := true;
      }
      if alpha != 0 {
        hasSomethingAround := true;
      }
      i := i + 1;
    }
  }

  /**
   * The outline pass: every pixel is decided on the original `bitmap` and written
   * to `copy`, so the scan order cannot matter.
   */
  method OutlinePass(bitmap: Bitmap, copy: Bitmap, outline: Color)
    requires bitmap.Valid() && copy.Valid() && copy.Pixels != bitmap.Pixels
    requires copy.Width == bitmap.Width && copy.Height == bitmap.Height
    requires copy.Pixels[..] == bitmap.Pixels[..]
    modifies copy.Pixels
    ensures copy.Pixels[..] == Outlined(bitmap.Pixels[..], bitmap.Width, bitmap.Height, outline)
  {
    var w, h := bitmap.Width, bitmap.Height;
    ghost var original := bitmap.Pixels[..];
    ghost var target := Outlined(original, w, h, outline);
    var x := 0;
    while x < w
      invariant 0 <= x <= w
      invariant bitmap.Pixels[..] == original
      invariant ScannedTo(copy.Pixels[..], target, original, w, h, x, 0)
    {
      var y := 0;
      while y < h
        invariant 0 <= y <= h
        invariant bitmap.Pixels[..] == original
        invariant ScannedTo(copy.Pixels[..], target, original, w, h, x, y)
      {
        OutlinedAt(original, w, h, x, y, outline);
        if bitmap.GetPixel(x, y).a != 0 {
          ScanSkip(copy.Pixels[..], target, original, w, h, x, y);
          y := y + 1;
          continue;
        }
        var transparentFound, hasSomethingAround := ScanNeighbours(bitmap, x, y);
        if transparentFound && hasSomethingAround {
          ScanStep(copy.Pixels[..], target, original, w, h, x, y);
          copy.SetPixel(x, y, outline);
        } else {
          ScanSkip(copy.Pixels[..], target, original, w, h, x, y);
        }
        y := y + 1;
      }
      ScanNextColumn(copy.Pixels[..], target, original, w, h, x);
      x := x + 1;
    }
    ScanFinished(copy.Pixels[..], target, original, w, h, x);
  }

  /** applyOutlineGlow: recolour a copy into the shadow, blur it, then composite. */
  method ApplyOutlineGlow(bitmap: Bitmap, shadowColor: Color, scale: AlphaScale, blur: Blur) returns (shadow: Bitmap)
    requires bitmap.Valid()
    ensures fresh(shadow) && fresh(shadow.Pixels) && shadow.Valid()
    ensures shadow.Width == bitmap.Width && shadow.Height == bitmap.Height
    ensures shadow.Pixels[..] == Glowed(bitmap.Pixels[..], bitmap.Width, bitmap.Height, shadowColor, scale, blur)
  {
    var w, h := bitmap.Width, bitmap.Height;
    ghost var original := bitmap.Pixels[..];
    var copy := bitmap.Clone();
    ghost var recoloured := Shadowed(original, shadowColor);
    var x := 0;
    while x < w
      invariant 0 <= x <= w
      invariant ScannedTo(copy.Pixels[..], recoloured, original, w, h, x, 0)
    {
      var y := 0;
      while y < h
        invariant 0 <= y <= h
        invariant ScannedTo(copy.Pixels[..], recoloured, original, w, h, x, y)
      {
        var pixel := copy.GetPixel(x, y);
        OffsetInBounds(w, h, x, y);
        ScanStep(copy.Pixels[..], recoloured, original, w, h, x, y);
        copy.SetPixel(x, y, WithAlpha(pixel.a, shadowColor));
        y := y + 1;
      }
      ScanNextColumn(copy.Pixels[..], recoloured, original, w, h, x);
      x := x + 1;
    }
    ScanFinished(copy.Pixels[..], recoloured, original, w, h, x);

    shadow := copy;
    var before := shadow.Pixels[..];
    forall k | 0 <= k < shadow.Pixels.Length {
      shadow.Pixels[k] := blur(w, h, before, k);
    }
    ghost var blurred := Blurred(recoloured, w, h, blur);
    assert shadow.Pixels[..] == blurred;

    ghost var target := Composited(original, blurred, scale);
    x := 0;
    while x < w
      invariant 0 <= x <= w
      invariant ScannedTo(shadow.Pixels[..], target, blurred, w, h, x, 0)
    {
      var y := 0;
      while y < h
        invariant 0 <= y <= h
        invariant ScannedTo(shadow.Pixels[..], target, blurred, w, h, x, y)
      {
        OffsetInBounds(w, h, x, y);
        var originalPixel := bitmap.GetPixel(x, y);
        if originalPixel.a != 0 {
          ScanStep(shadow.Pixels[..], target, blurred, w, h, x, y);
          shadow.SetPixel(x, y, originalPixel);
        } else {
          var shadowPixel := shadow.GetPixel(x, y);
          if shadowPixel.a != 0 {
            ScanStep(shadow.Pixels[..], target, blurred, w, h, x, y);
            shadow.SetPixel(x, y, WithAlpha(scale(shadowPixel.a), shadowPixel));
          } else {
            ScanSkip(shadow.Pixels[..], target, blurred, w, h, x, y);
          }
        }
        y := y + 1;
      }
      ScanNextColumn(shadow.Pixels[..], target, blurred, w, h, x);
      x := x + 1;
    }
    ScanFinished(shadow.Pixels[..], target, blurred, w, h, x);
    assert bitmap.Pixels[..] == original;
  }

  /**
   * OutlineGlow(bitmap, outlineColor, glowColor, ...): with both colours NoColor the
   * input object itself comes back; otherwise a new bitmap, outlined unless the
   * outline colour is NoColor, then glowed. The input is never written.
   */
  method OutlineGlow(bitmap: Bitmap, outlineColor: int, glowColor: int, scale: AlphaScale, blur: Blur)
    returns (r: Bitmap)
    requires bitmap.Valid()
    ensures r.Valid() && r.Width == bitmap.Width && r.Height == bitmap.Height
    ensures outlineColor == NoColor && glowColor == NoColor ==> r == bitmap
    ensures r.Pixels[..] == OutlineGlowed(bitmap.Pixels[..], bitmap.Width, bitmap.Height, outlineColor, glowColor, scale, blur)
  {
    var copy := bitmap.Clone();
    if outlineColor == NoColor {
      if glowColor == NoColor {
        return bitmap;
      }
      r := ApplyOutlineGlow(copy, FromRgb(glowColor), scale, blur);
      return;
    }
    OutlinePass(bitmap, copy, FromRgb(outlineColor));
    r := ApplyOutlineGlow(copy, FromRgb(glowColor), scale, blur);
  }

  /** The outline pass never recolours a pixel whose alpha is not 0. */
  lemma {:induction false} OutlineKeepsVisible(px: seq<Color>, w: nat, h: nat, outline: Color, k: nat)
    requires |px| == w * h && k < |px| && px[k].a != 0
    ensures Outlined(px, w, h, outline)[k] == px[k]
  {
    OffsetDecomposes(w, h, k);
    assert PixelAt(px, w, h, k % w, k / w) == px[k];
  }

  /**
   * The recolour rule, both ways: the outline pass changes a pixel exactly when it is
   * transparent and its in-bounds neighbours include both a transparent and a
   * non-transparent one; a changed pixel takes the (opaque) outline colour.
   */
  lemma OutlineChangesIff(px: seq<Color>, w: nat, h: nat, x: nat, y: nat, outline: Color)
    requires |px| == w * h && x < w && y < h && outline.a != 0
    ensures PixelAt(Outlined(px, w, h, outline), w, h, x, y) != PixelAt(px, w, h, x, y)
            <==> PixelAt(px, w, h, x, y).a == 0 && TransparentAround(px, w, h, x, y) && SomethingAround(px, w, h, x, y)
    ensures PixelAt(Outlined(px, w, h, outline), w, h, x, y) != PixelAt(px, w, h, x, y)
            ==> PixelAt(Outlined(px, w, h, outline), w, h, x, y) == outline
  {
    OutlinedAt(px, w, h, x, y, outline);
  }

  /**
   * The outline pass is local: the result at (x, y) depends only on that pixel and the
   * alphas of its in-bounds neighbours in the original, so no write of the pass can
   * influence another pixel's decision.
   */
  lemma OutlineIsLocal(px: seq<Color>, qx: seq<Color>, w: nat, h: nat, x: nat, y: nat, outline: Color)
    requires |px| == w * h && |qx| == w * h && x < w && y < h
    requires PixelAt(px, w, h, x, y) == PixelAt(qx, w, h, x, y)
    requires forall k :: 0 <= k < |Neighbours| && NeighbourInside(w, h, x, y, k) ==>
               NeighbourAlpha(px, w, h, x, y, k) == NeighbourAlpha(qx, w, h, x, y, k)
    ensures OutlinePixel(px, w, h, x, y, outline) == OutlinePixel(qx, w, h, x, y, outline)
  {
    assert TransparentAround(px, w, h, x, y) <==> TransparentAround(qx, w, h, x, y);
    assert SomethingAround(px, w, h, x, y) <==> SomethingAround(qx, w, h, x, y);
  }

  /** The shadow recolour keeps every pixel's alpha and takes the shadow colour's RGB. */
  lemma ShadowKeepsAlpha(px: seq<Color>, shadow: Color, k: nat)
    requires k < |px|
    ensures Shadowed(px, shadow)[k].a == px[k].a
    ensures Shadowed(px, shadow)[k].r == shadow.r && Shadowed(px, shadow)[k].g == shadow.g
    ensures Shadowed(px, shadow)[k].b == shadow.b
  {
  }

  /** Composite precedence: a non-transparent pixel comes out as it went in, whatever the blur. */
  lemma GlowKeepsVisible(px: seq<Color>, w: nat, h: nat, shadow: Color, scale: AlphaScale, blur: Blur, k: nat)
    requires k < |px| && px[k].a != 0
    ensures Glowed(px, w, h, shadow, scale, blur)[k] == px[k]
  {
  }

  /** A transparent pixel whose blurred shadow is transparent stays that shadow pixel. */
  lemma GlowLeavesClearShadow(px: seq<Color>, w: nat, h: nat, shadow: Color, scale: AlphaScale, blur: Blur, k: nat)
    requires k < |px| && px[k].a == 0
    requires Blurred(Shadowed(px, shadow), w, h, blur)[k].a == 0
    ensures Glowed(px, w, h, shadow, scale, blur)[k] == Blurred(Shadowed(px, shadow), w, h, blur)[k]
    ensures Glowed(px, w, h, shadow, scale, blur)[k].a == 0
  {
  }

  /** A transparent pixel under a visible blurred shadow takes the shadow with scaled alpha. */
  lemma GlowShowsShadow(px: seq<Color>, w: nat, h: nat, shadow: Color, scale: AlphaScale, blur: Blur, k: nat)
    requires k < |px| && px[k].a == 0
    requires Blurred(Shadowed(px, shadow), w, h, blur)[k].a != 0
    ensures Glowed(px, w, h, shadow, scale, blur)[k]
            == WithAlpha(scale(Blurred(Shadowed(px, shadow), w, h, blur)[k].a), Blurred(Shadowed(px, shadow), w, h, blur)[k])
  {
  }

  /** With both colours NoColor the effect is the identity. */
  lemma NoColorsNoEffect(px: seq<Color>, w: nat, h: nat, scale: AlphaScale, blur: Blur)
    requires |px| == w * h
    ensures OutlineGlowed(px, w, h, NoColor, NoColor, scale, blur) == px
  {
  }

  /** The whole effect never touches a pixel whose alpha is not 0. */
  lemma {:induction false} OutlineGlowKeepsVisible(px: seq<Color>, w: nat, h: nat, outlineColor: int, glowColor: int,
                                                   scale: AlphaScale, blur: Blur, k: nat)
    requires |px| == w * h && k < |px| && px[k].a != 0
    ensures OutlineGlowed(px, w, h, outlineColor, glowColor, scale, blur)[k] == px[k]
  {
    if outlineColor != NoColor {
      var outlined := Outlined(px, w, h, FromRgb(outlineColor));
      OutlineKeepsVisible(px, w, h, FromRgb(outlineColor), k);
      GlowKeepsVisible(outlined, w, h, FromRgb(glowColor), scale, blur, k);
    }
  }

  /**
   * An outline pixel survives the glow: a pixel the outline pass recolours comes out of
   * the whole effect as the opaque outline colour.
   */
  lemma {:induction false} OutlineRingSurvives(px: seq<Color>, w: nat, h: nat, outlineColor: int, glowColor: int,
                                               scale: AlphaScale, blur: Blur, x: nat, y: nat)
    requires |px| == w * h && x < w && y < h && outlineColor != NoColor
    requires PixelAt(px, w, h, x, y).a == 0 && TransparentAround(px, w, h, x, y) && SomethingAround(px, w, h, x, y)
    ensures PixelAt(OutlineGlowed(px, w, h, outlineColor, glowColor, scale, blur), w, h, x, y) == FromRgb(outlineColor)
  {
    var outline := FromRgb(outlineColor);
    var outlined := Outlined(px, w, h, outline);
    OutlinedAt(px, w, h, x, y, outline);
    OffsetInBounds(w, h, x, y);
    GlowKeepsVisible(outlined, w, h, FromRgb(glowColor), scale, blur, Offset(w, x, y));
  }

  /**
   * A gap with no transparent neighbour is not outlined: in the row
   * [transparent, opaque, transparent] the ends see only the opaque middle pixel.
   */
  lemma {:induction false} LoneGapStaysClear(outline: Color)
    ensures Outlined([Transparent, Color(255, 0, 0, 0), Transparent], 3, 1, outline)[0] == Transparent
  {
    var px := [Transparent, Color(255, 0, 0, 0), Transparent];
    OutlinedAt(px, 3, 1, 0, 0, outline);
    forall k | 0 <= k < |Neighbours| && NeighbourInside(3, 1, 0, 0, k)
      ensures NeighbourAlpha(px, 3, 1, 0, 0, k) != 0
    {
      assert k == 3;
    }
  }
}
