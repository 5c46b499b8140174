/**
 * The skin sheet and its mask: one 56x24 strip per player class, rows 0..13, then one
 * strip per skin in ascending Index order from row 14 on, each cut from the class's or
 * skin's own sprite sheet and mask sheet.
 *
 * Pixels are not modelled here: a strip is drawn as a Blit naming the file, the crop
 * rectangle and the destination point.
 */
module SkinSheet {
  import opened Raster

  const StripWidth := 56
  const StripHeight := 24
  /** The rows reserved for classes before the first skin. */
  const ClassRows := 14

  /** The texture of a class or a skin: the sheet's name and the strip's index in it. */
  datatype Strip = Strip(sheet: string, sheetIndex: UShort)

  /** A skin record; index is the SkinData.Counter value it was given when loaded. */
  datatype Skin = Skin(index: UShort, strip: Strip)

  datatype Rect = Rect(x: int, y: int, width: int, height: int)

  /** Crop `crop` out of the image in `file` and draw it with its top-left corner at `dest`. */
  datatype Blit = Blit(file: string, crop: Rect, dest: (int, int))

  /** One strip drawn twice: from the sprite sheet onto the skin canvas, from the mask sheet onto the mask canvas. */
  datatype StripDraw = StripDraw(onSheet: Blit, onMask: Blit)

  /** The rows drawn by one loop: either the strips drawn until the loop ended, or the mask file that was missing. */
  datatype Rows = Drawn(placed: seq<StripDraw>) | MaskMissing(file: string)

  /** The skin sheet: canvas size and the class and skin rows drawn onto it, or the file whose absence crashed it. */
  datatype Layout =
    | Sheet(width: int, height: int, classRows: seq<StripDraw>, skinRows: seq<StripDraw>)
    | Crashed(missing: string)

  function SheetPath(sheet: string): string
  {
    "sheets/" + sheet + ".png"
  }

  function MaskPath(sheet: string): string
  {
    "sheets/" + sheet + "Mask.png"
  }

  /** The strip of a sheet holding sprite `sheetIndex`: full width, 24 rows starting at row sheetIndex*24. */
  function CropOf(s: Strip): Rect
  {
    Rect(0, s.sheetIndex * StripHeight, StripWidth, StripHeight)
  }

  function DrawAt(s: Strip, row: int): StripDraw
  {
    StripDraw(Blit(SheetPath(s.sheet), CropOf(s), (0, row * StripHeight)),
              Blit(MaskPath(s.sheet), CropOf(s), (0, row * StripHeight)))
  }

  /**
   * One layout loop from strip 0 and canvas row `row`: stop at the first strip whose
   * sheet file does not exist, crash at the first strip whose mask file does not.
   */
  function RowsFrom(strips: seq<Strip>, row: int, files: set<string>): Rows
    decreases |strips|
  {
    if strips == [] || SheetPath(strips[0].sheet) !in files then Drawn([])
    else if MaskPath(strips[0].sheet) !in files then MaskMissing(MaskPath(strips[0].sheet))
    else match RowsFrom(strips[1..], row + 1, files)
      case MaskMissing(f) => MaskMissing(f)
      case Drawn(rest) => Drawn([DrawAt(strips[0], row)] + rest)
  }

  /** `before` drawn ahead of the rows `r`. */
  function Prepend(before: seq<StripDraw>, r: Rows): Rows
  {
    match r
    case MaskMissing(f) => MaskMissing(f)
    case Drawn(rest) => Drawn(before + rest)
  }

  /** The foreach loop over classes or sorted skins, its counter `index` starting at 0. */
  method DrawRows(strips: seq<Strip>, firstRow: int, files: set<string>) returns (r: Rows)
    ensures r == RowsFrom(strips, firstRow, files)
  {
    var placed: seq<StripDraw> := [];
    var index := 0;
    while index < |strips|
      invariant 0 <= index <= |strips|
      invariant RowsFrom(strips, firstRow, files) == Prepend(placed, RowsFrom(strips[index..], firstRow + index, files))
    {
      var s := strips[index];
      if SheetPath(s.sheet) !in files {
        break;
      }
      if MaskPath(s.sheet) !in files {
        return MaskMissing(MaskPath(s.sheet));
      }
      assert strips[index..][1..] == strips[index + 1..];
      placed := placed + [DrawAt(s, firstRow + index)];
      index := index + 1;
    }
    return Drawn(placed);
  }

  /** The first strip whose sheet or mask file is missing, or the number of strips if there is none. */
  function FirstGap(strips: seq<Strip>, files: set<string>): (g: nat)
    ensures g <= |strips|
    ensures forall i :: 0 <= i < g ==> SheetPath(strips[i].sheet) in files && MaskPath(strips[i].sheet) in files
    ensures g < |strips| ==> SheetPath(strips[g].sheet) !in files || MaskPath(strips[g].sheet) !in files
    decreases |strips|
  {
    if strips == [] || SheetPath(strips[0].sheet) !in files || MaskPath(strips[0].sheet) !in files then 0
    else 1 + FirstGap(strips[1..], files)
  }

  /**
   * A loop draws exactly the strips before the first gap, the i-th at row firstRow + i
   * with the crop at SheetIndex*24 on both canvases; it crashes exactly when that gap is
   * a missing mask beside an existing sheet.
   */
  lemma {:induction false} RowsLayout(strips: seq<Strip>, firstRow: int, files: set<string>)
    ensures var r := RowsFrom(strips, firstRow, files);
      var g := FirstGap(strips, files);
      && (r.MaskMissing? <==> g < |strips| && SheetPath(strips[g].sheet) in files)
      && (r.MaskMissing? ==> r.file == MaskPath(strips[g].sheet))
      && (r.Drawn? ==> |r.placed| == g)
      && (r.Drawn? ==> forall i :: 0 <= i < g ==>
            && r.placed[i].onSheet == Blit(SheetPath(strips[i].sheet), Rect(0, strips[i].sheetIndex * 24, 56, 24), (0, (firstRow + i) * 24))
            && r.placed[i].onMask == Blit(MaskPath(strips[i].sheet), Rect(0, strips[i].sheetIndex * 24, 56, 24), (0, (firstRow + i) * 24)))
    decreases |strips|
  {
    if strips != [] && SheetPath(strips[0].sheet) in files && MaskPath(strips[0].sheet) in files {
      RowsLayout(strips[1..], firstRow + 1, files);
      var r := RowsFrom(strips, firstRow, files);
      var g := FirstGap(strips, files);
      if r.Drawn? {
        forall i | 0 <= i < g
          ensures r.placed[i] == DrawAt(strips[i], firstRow + i)
        {
          if i > 0 {
            assert strips[1..][i - 1] == strips[i];
          }
        }
      }
    }
  }

  // ---- Ordering the skins (skins.OrderBy(skin => skin.Index)) ----

  predicate SortedByIndex(s: seq<Skin>)
  {
    forall i, j :: 0 <= i < j < |s| ==> s[i].index <= s[j].index
  }

  /** Put x after every element whose index is not above its own, scanning from the back. */
  function Insert(t: seq<Skin>, x: Skin): (r: seq<Skin>)
    ensures |r| == |t| + 1
    ensures multiset(r) == multiset(t) + multiset{x}
    decreases |t|
  {
    if t == [] || t[|t| - 1].index <= x.index then t + [x]
    else
      assert t == t[..|t| - 1] + [t[|t| - 1]];
      Insert(t[..|t| - 1], x) + [t[|t| - 1]]
  }

  /** A stable sort by Index, as LINQ's OrderBy is. */
  function OrderByIndex(s: seq<Skin>): (r: seq<Skin>)
    ensures |r| == |s|
    ensures multiset(r) == multiset(s)
    decreases |s|
  {
    if s == [] then []
    else
      assert s == s[..|s| - 1] + [s[|s| - 1]];
      Insert(OrderByIndex(s[..|s| - 1]), s[|s| - 1])
  }

  lemma {:induction false} InsertSorted(t: seq<Skin>, x: Skin)
    requires SortedByIndex(t)
    ensures SortedByIndex(Insert(t, x))
    decreases |t|
  {
    if t != [] && t[|t| - 1].index > x.index {
      var init := t[..|t| - 1];
      var last := t[|t| - 1];
      assert SortedByIndex(init);
      InsertSorted(init, x);
      var r := Insert(init, x);
      forall y | y in r
        ensures y.index <= last.index
      {
        assert y in multiset(r);
        if y != x {
          assert y in multiset(init);
          var k :| 0 <= k < |init| && init[k] == y;
          assert t[k] == y;
        }
      }
      var u := r + [last];
      forall i, j | 0 <= i < j < |u|
        ensures u[i].index <= u[j].index
      {
        assert u[i] == r[i];
        if j == |r| {
          assert r[i] in r;
        } else {
          assert u[j] == r[j];
        }
      }
      assert Insert(t, x) == u;
    }
  }

  /** The sorted order is ascending by Index and a permutation of the skins. */
  lemma {:induction false} OrderBySorts(s: seq<Skin>)
    ensures SortedByIndex(OrderByIndex(s)) && multiset(OrderByIndex(s)) == multiset(s)
    decreases |s|
  {
    if s != [] {
      OrderBySorts(s[..|s| - 1]);
      InsertSorted(OrderByIndex(s[..|s| - 1]), s[|s| - 1]);
    }
  }

  /** The skins with Index k, in list order. */
  function WithIndex(s: seq<Skin>, k: UShort): seq<Skin>
    decreases |s|
  {
    if s == [] then []
    else WithIndex(s[..|s| - 1], k) + (if s[|s| - 1].index == k then [s[|s| - 1]] else [])
  }

  lemma {:induction false} InsertStable(t: seq<Skin>, x: Skin, k: UShort)
    ensures WithIndex(Insert(t, x), k) == WithIndex(t, k) + (if x.index == k then [x] else [])
    decreases |t|
  {
    if t == [] || t[|t| - 1].index <= x.index {
      assert (t + [x])[..|t|] == t;
    } else {
      var init := t[..|t| - 1];
      var last := t[|t| - 1];
      InsertStable(init, x, k);
      var r := Insert(init, x);
      assert (r + [last])[..|r|] == r;
    }
  }

  /** Skins with equal Index keep their relative order. */
  lemma {:induction false} OrderByIsStable(s: seq<Skin>, k: UShort)
    ensures WithIndex(OrderByIndex(s), k) == WithIndex(s, k)
    decreases |s|
  {
    if s != [] {
      OrderByIsStable(s[..|s| - 1], k);
      InsertStable(OrderByIndex(s[..|s| - 1]), s[|s| - 1], k);
    }
  }

  /**
   * Skins already in Index order, as the load counter numbers them until it wraps
   * past 65535, keep their list order.
   */
  lemma {:induction false} OrderByKeepsSorted(s: seq<Skin>)
    requires SortedByIndex(s)
    ensures OrderByIndex(s) == s
    decreases |s|
  {
    if s != [] {
      var init := s[..|s| - 1];
      assert SortedByIndex(init);
      OrderByKeepsSorted(init);
      if init != [] {
        assert init[|init| - 1].index <= s[|s| - 1].index;
      }
      assert s == init + [s[|s| - 1]];
    }
  }

  /** Once the counter has wrapped, a later skin is drawn ahead of an earlier one. */
  lemma OrderByAfterWrap(a: Strip, b: Strip)
    ensures OrderByIndex([Skin(65535, a), Skin(0, b)]) == [Skin(0, b), Skin(65535, a)]
  {
    var s := [Skin(65535, a), Skin(0, b)];
    assert s[..1] == [Skin(65535, a)];
    assert [Skin(65535, a)][..0] == [];
  }

  // ---- The whole sheet ----

  function Strips(skins: seq<Skin>): (r: seq<Strip>)
    ensures |r| == |skins| && forall i :: 0 <= i < |r| ==> r[i] == skins[i].strip
  {
    seq(|skins|, i requires 0 <= i < |skins| => skins[i].strip)
  }

  /** The skin and mask canvases, 56 wide and (skins + 14) strips high, with the class loop and then the skin loop drawn on them. */
  function SkinSheetLayout(classes: seq<Strip>, skins: seq<Skin>, files: set<string>): Layout
  {
    match RowsFrom(classes, 0, files)
    case MaskMissing(f) => Crashed(f)
    case Drawn(classRows) =>
      match RowsFrom(Strips(OrderByIndex(skins)), ClassRows, files)
      case MaskMissing(f) => Crashed(f)
      case Drawn(skinRows) => Sheet(StripWidth, (|skins| + ClassRows) * StripHeight, classRows, skinRows)
  }

  method LayoutSkinSheet(classes: seq<Strip>, skins: seq<Skin>, files: set<string>) returns (layout: Layout)
    ensures layout == SkinSheetLayout(classes, skins, files)
  {
    var classRows := DrawRows(classes, 0, files);
    if classRows.MaskMissing? {
      return Crashed(classRows.file);
    }
    var skinRows := DrawRows(Strips(OrderByIndex(skins)), ClassRows, files);
    if skinRows.MaskMissing? {
      return Crashed(skinRows.file);
    }
    return Sheet(StripWidth, (|skins| + ClassRows) * StripHeight, classRows.placed, skinRows.placed);
  }

  /**
   * The i-th class strip lies at row i*24; with at most 14 classes every class strip
   * lies inside the canvas above the first skin row.
   */
  lemma ClassRowsPlaced(classes: seq<Strip>, skins: seq<Skin>, files: set<string>)
    ensures var l := SkinSheetLayout(classes, skins, files);
      l.Sheet? ==>
        && |l.classRows| <= |classes|
        && (forall i :: 0 <= i < |l.classRows| ==> l.classRows[i] == DrawAt(classes[i], i))
        && (|classes| <= 14 ==> forall i :: 0 <= i < |l.classRows| ==>
              0 <= l.classRows[i].onSheet.dest.1 && l.classRows[i].onSheet.dest.1 + 24 <= 14 * 24)
  {
    RowsLayout(classes, 0, files);
    var l := SkinSheetLayout(classes, skins, files);
    if l.Sheet? {
      assert l.classRows == RowsFrom(classes, 0, files).placed;
      forall i | 0 <= i < |l.classRows| && |classes| <= 14
        ensures l.classRows[i].onSheet.dest.1 + 24 <= 14 * 24
      {
        assert i + 1 <= 14;
      }
    }
  }

  /**
   * The canvas is 56 wide and (skins + 14) strips high, and the i-th skin in ascending
   * Index order lies at row (i+14)*24, inside it.
   */
  lemma SkinRowsPlaced(classes: seq<Strip>, skins: seq<Skin>, files: set<string>)
    ensures var l := SkinSheetLayout(classes, skins, files);
      l.Sheet? ==>
        && l.width == 56 && l.height == (|skins| + 14) * 24 && |l.skinRows| <= |skins|
        && (forall i :: 0 <= i < |l.skinRows| ==> l.skinRows[i] == DrawAt(OrderByIndex(skins)[i].strip, i + 14))
        && (forall i :: 0 <= i < |l.skinRows| ==>
              14 * 24 <= l.skinRows[i].onSheet.dest.1 && l.skinRows[i].onSheet.dest.1 + 24 <= l.height)
  {
    var sorted := Strips(OrderByIndex(skins));
    RowsLayout(sorted, ClassRows, files);
    var l := SkinSheetLayout(classes, skins, files);
    if l.Sheet? {
      assert l.skinRows == RowsFrom(sorted, ClassRows, files).placed;
      forall i | 0 <= i < |l.skinRows|
        ensures l.skinRows[i].onSheet.dest.1 + 24 <= l.height
      {
        assert i + 1 <= |skins|;
      }
    }
  }

  predicate FilesPresent(s: Strip, files: set<string>)
  {
    SheetPath(s.sheet) in files && MaskPath(s.sheet) in files
  }

  /** With every sheet and mask file present, a loop draws every strip. */
  lemma NoGapDrawsAll(strips: seq<Strip>, firstRow: int, files: set<string>)
    requires forall i :: 0 <= i < |strips| ==> FilesPresent(strips[i], files)
    ensures RowsFrom(strips, firstRow, files).Drawn? && |RowsFrom(strips, firstRow, files).placed| == |strips|
  {
    RowsLayout(strips, firstRow, files);
  }

  /** With every class's and skin's files present the sheet does not crash and draws every strip. */
  lemma AllFilesPresent(classes: seq<Strip>, skins: seq<Skin>, files: set<string>)
    requires forall c :: c in classes ==> FilesPresent(c, files)
    requires forall s :: s in skins ==> FilesPresent(s.strip, files)
    ensures var l := SkinSheetLayout(classes, skins, files);
      l.Sheet? && |l.classRows| == |classes| && |l.skinRows| == |skins|
  {
    forall i | 0 <= i < |classes|
      ensures FilesPresent(classes[i], files)
    {
      assert classes[i] in classes;
    }
    NoGapDrawsAll(classes, 0, files);
    var ordered := OrderByIndex(skins);
    var sorted := Strips(ordered);
    forall i | 0 <= i < |sorted|
      ensures FilesPresent(sorted[i], files)
    {
      assert ordered[i] in multiset(skins);
    }
    NoGapDrawsAll(sorted, ClassRows, files);
  }

  /** A 15th class is drawn onto the row of the first skin. */
  lemma FifteenthClassMeetsFirstSkin(classes: seq<Strip>, skins: seq<Skin>, files: set<string>)
    requires |classes| == 15 && |skins| > 0
    requires forall c :: c in classes ==> FilesPresent(c, files)
    requires forall s :: s in skins ==> FilesPresent(s.strip, files)
    ensures var l := SkinSheetLayout(classes, skins, files);
      l.Sheet? && |l.classRows| == 15 && |l.skinRows| > 0 && l.classRows[14].onSheet.dest == l.skinRows[0].onSheet.dest
  {
    AllFilesPresent(classes, skins, files);
    ClassRowsPlaced(classes, skins, files);
    SkinRowsPlaced(classes, skins, files);
  }
}
