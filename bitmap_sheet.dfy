/**
 * BitmapSheet.FromImage: a sprite sheet is cut into pieceSize-square tiles, visited
 * row by row, and each tile is recorded in the Bitmaps dictionary under a running
 * index. The pixel work done on a tile (Crop, ResizeNearestNeighbor, DrawImage) is
 * foreign; a tile is modelled by the rectangles and sizes the code computes for it
 * and by the colours it hands to OutlineGlow.
 */
module BitmapSheet {
  import opened Raster
  import opened Extensions
  import Glow

  function Min(a: int, b: int): int
  {
    if a <= b then a else b
  }

  /** What FromImage computes for the tile whose crop rectangle starts at (x, y). */
  datatype Tile = Tile(
    origin: Point,        // top-left corner of the crop rectangle in the sheet
    side: nat,            // side of the crop rectangle
    resizeSide: int,      // side the piece is resized to
    canvasSide: int,      // side of the bitmap the piece is drawn onto
    placed: (int, int),   // where Add draws the resized piece on that bitmap
    preview: Point,       // where the finished tile goes on the preview sheet
    outlineColor: int,    // colours passed to OutlineGlow
    glowColor: int)

  function MakeTile(x: int, y: int, pieceSize: nat): Tile
  {
    var resizeSide := Min(32, pieceSize * 4);
    var canvasSide := Min(40, pieceSize * 5);
    Tile(Point(x, y), pieceSize, resizeSide, canvasSide,
         AddOrigin(canvasSide, canvasSide, resizeSide, resizeSide),
         Point(x * 5, y * 5), 0, 0)
  }

  /** The number of steps of `pieceSize` from 0 that stay below `length`: the ceiling of length / pieceSize. */
  function Columns(length: nat, pieceSize: nat): nat
    requires pieceSize > 0
  {
    (length + pieceSize - 1) / pieceSize
  }

  /** The number of tiles the nested loops visit. */
  function TileCount(width: nat, height: nat, pieceSize: nat): nat
    requires pieceSize > 0
  {
    Columns(width, pieceSize) * Columns(height, pieceSize)
  }

  /** The tile numbered i in a sheet `cols` tiles wide. */
  function TileAt(cols: nat, pieceSize: nat, i: nat): Tile
    requires cols > 0
  {
    MakeTile((i % cols) * pieceSize, (i / cols) * pieceSize, pieceSize)
  }

  /** The dictionary after the first n tiles have been added. */
  function Recorded(cols: nat, pieceSize: nat, n: nat): map<UShort, Tile>
    requires n == 0 || cols > 0
  {
    map i: UShort | i < n :: TileAt(cols, pieceSize, i)
  }

  /** The Bitmaps dictionary of a sheet whose tiles all got a key. */
  function TileMap(width: nat, height: nat, pieceSize: nat): (m: map<UShort, Tile>)
    requires pieceSize > 0
  {
    var n := TileCount(width, height, pieceSize);
    assert n == 0 || Columns(width, pieceSize) > 0;
    Recorded(Columns(width, pieceSize), pieceSize, n)
  }

  /** A loop from 0 stepping by pieceSize is still below `length` at step c exactly when c < Columns. */
  lemma {:induction false} StepsCover(length: nat, pieceSize: nat, c: nat)
    requires pieceSize > 0
    ensures c * pieceSize < length <==> c < Columns(length, pieceSize)
  {
    var q := Columns(length, pieceSize);
    var r := (length + pieceSize - 1) % pieceSize;
    assert length + pieceSize - 1 == q * pieceSize + r;
    if c < q {
      MulMonotone(c + 1, q, pieceSize);
      assert c * pieceSize + pieceSize == (c + 1) * pieceSize;
    } else {
      MulMonotone(q, c, pieceSize);
    }
  }

  lemma RecordedStep(cols: nat, pieceSize: nat, n: nat)
    requires cols > 0 && n < UShortRange
    ensures Recorded(cols, pieceSize, n + 1) == Recorded(cols, pieceSize, n)[n := TileAt(cols, pieceSize, n)]
  {
  }

  class Sheet {
    var Bitmaps: map<UShort, Tile>

    constructor ()
      ensures Bitmaps == map[]
    {
      Bitmaps := map[];
    }

    /**
     * FromImage(path, scale, pieceScale, pieceSize, ...) on an image of the given size.
     * `ok` is false where Dictionary.Add throws: the 65537th tile wraps round to the
     * ushort key 0, which is already present.
     */
    static method FromImage(width: nat, height: nat, scale: int, pieceSize: nat) returns (sheet: Sheet, ok: bool)
      requires width > 0 && height > 0 && scale > 0 && pieceSize > 0
      ensures fresh(sheet)
      ensures ok <==> TileCount(width, height, pieceSize) <= UShortRange
      ensures ok ==> sheet.Bitmaps == TileMap(width, height, pieceSize)
    {
      sheet := new Sheet();
      ghost var cols, rows := Columns(width, pieceSize), Columns(height, pieceSize);
      StepsCover(width, pieceSize, 0);
      var index := 0;
      var y := 0;
      ghost var row := 0;
      while y < height
        invariant 0 <= row <= rows && y == row * pieceSize
        invariant index == row * cols && index <= UShortRange
        invariant sheet.Bitmaps == Recorded(cols, pieceSize, index)
        decreases rows - row
      {
        StepsCover(height, pieceSize, row);
        var x := 0;
        ghost var col := 0;
        while x < width
          invariant 0 <= col <= cols && x == col * pieceSize
          invariant index == Offset(cols, col, row) && index <= UShortRange
          invariant sheet.Bitmaps == Recorded(cols, pieceSize, index)
          decreases cols - col
        {
          StepsCover(width, pieceSize, col);
          OffsetInBounds(cols, rows, col, row);
          var tile := MakeTile(x, y, pieceSize);
          var key := index % UShortRange;
          if key in sheet.Bitmaps {
            return sheet, false;
          }
          OffsetCoordinates(cols, col, row);
          RecordedStep(cols, pieceSize, index);
          sheet.Bitmaps := sheet.Bitmaps[key := tile];
          index := index + 1;
          assert x + pieceSize == (col + 1) * pieceSize;
          x := x + pieceSize;
          col := col + 1;
        }
        StepsCover(width, pieceSize, col);
        assert index == (row + 1) * cols;
        assert y + pieceSize == (row + 1) * pieceSize;
        y := y + pieceSize;
        row := row + 1;
      }
      StepsCover(height, pieceSize, row);
      assert index == TileCount(width, height, pieceSize);
      ok := true;
    }
  }

  /**
   * The keys are exactly 0 .. n-1, and tile i starts at column i % cols and row i / cols
   * of the piece grid.
   */
  lemma TileMapIsDense(width: nat, height: nat, pieceSize: nat, i: int)
    requires pieceSize > 0 && TileCount(width, height, pieceSize) <= UShortRange
    ensures i in TileMap(width, height, pieceSize) <==> 0 <= i < TileCount(width, height, pieceSize)
    ensures 0 <= i < TileCount(width, height, pieceSize) ==>
              TileMap(width, height, pieceSize)[i].origin
              == Point((i % Columns(width, pieceSize)) * pieceSize, (i / Columns(width, pieceSize)) * pieceSize)
  {
  }

  /** Grid cell i of a cols-by-rows grid of pieceSize squares starts inside the image. */
  lemma GridCellInside(width: nat, height: nat, pieceSize: nat, i: int)
    requires pieceSize > 0 && 0 <= i < TileCount(width, height, pieceSize)
    ensures 0 <= (i % Columns(width, pieceSize)) * pieceSize < width
    ensures 0 <= (i / Columns(width, pieceSize)) * pieceSize < height
  {
    var cols, rows := Columns(width, pieceSize), Columns(height, pieceSize);
    OffsetDecomposes(cols, rows, i);
    StepsCover(width, pieceSize, i % cols);
    StepsCover(height, pieceSize, i / cols);
  }

  /** Different grid cells start at different points. */
  lemma GridCellsDistinct(cols: nat, pieceSize: nat, i: nat, j: nat)
    requires cols > 0 && pieceSize > 0 && i != j
    ensures (i % cols) * pieceSize != (j % cols) * pieceSize || (i / cols) * pieceSize != (j / cols) * pieceSize
  {
    if i % cols != j % cols {
      MulInjective(i % cols, j % cols, pieceSize);
    } else {
      assert i == (i / cols) * cols + i % cols && j == (j / cols) * cols + j % cols;
      MulInjective(i / cols, j / cols, pieceSize);
    }
  }

  /** Every tile's origin lies inside the image. */
  lemma TileInside(width: nat, height: nat, pieceSize: nat, i: int)
    requires pieceSize > 0 && TileCount(width, height, pieceSize) <= UShortRange
    requires i in TileMap(width, height, pieceSize)
    ensures 0 <= TileMap(width, height, pieceSize)[i].origin.x < width
    ensures 0 <= TileMap(width, height, pieceSize)[i].origin.y < height
  {
    TileMapIsDense(width, height, pieceSize, i);
    GridCellInside(width, height, pieceSize, i);
  }

  /** Different keys have different origins. */
  lemma TilesDistinct(width: nat, height: nat, pieceSize: nat, i: int, j: int)
    requires pieceSize > 0 && TileCount(width, height, pieceSize) <= UShortRange
    requires i in TileMap(width, height, pieceSize) && j in TileMap(width, height, pieceSize) && i != j
    ensures TileMap(width, height, pieceSize)[i].origin != TileMap(width, height, pieceSize)[j].origin
  {
    TileMapIsDense(width, height, pieceSize, i);
    TileMapIsDense(width, height, pieceSize, j);
    GridCellsDistinct(Columns(width, pieceSize), pieceSize, i, j);
  }

  /** Every pieceSize-grid point inside the image is the origin of the tile numbered row * cols + column. */
  lemma TilesCoverSheet(width: nat, height: nat, pieceSize: nat, c: nat, r: nat)
    requires pieceSize > 0 && TileCount(width, height, pieceSize) <= UShortRange
    requires c * pieceSize < width && r * pieceSize < height
    ensures var i := r * Columns(width, pieceSize) + c;
      i in TileMap(width, height, pieceSize) && TileMap(width, height, pieceSize)[i].origin == Point(c * pieceSize, r * pieceSize)
  {
    var cols, rows := Columns(width, pieceSize), Columns(height, pieceSize);
    StepsCover(width, pieceSize, c);
    StepsCover(height, pieceSize, r);
    OffsetInBounds(cols, rows, c, r);
    OffsetCoordinates(cols, c, r);
  }

  lemma MulInjective(a: nat, b: nat, k: nat)
    requires k > 0 && a != b
    ensures a * k != b * k
  {
    if a < b {
      MulMonotone(a + 1, b, k);
    } else {
      MulMonotone(b + 1, a, k);
    }
  }

  /**
   * The resize side is min(32, 4 * pieceSize) and the canvas side min(40, 5 * pieceSize):
   * 32 and 40 from a piece size of 8 up, 4 * pieceSize and 5 * pieceSize below it.
   */
  lemma TileSizes(x: int, y: int, pieceSize: nat)
    ensures pieceSize >= 8 <==> MakeTile(x, y, pieceSize).resizeSide == 32 && MakeTile(x, y, pieceSize).canvasSide == 40
    ensures pieceSize < 8 ==> MakeTile(x, y, pieceSize).resizeSide == 4 * pieceSize && MakeTile(x, y, pieceSize).canvasSide == 5 * pieceSize
    ensures pieceSize == 8 || pieceSize == 16 ==> MakeTile(x, y, pieceSize).resizeSide == 32 && MakeTile(x, y, pieceSize).canvasSide == 40
  {
  }

  /**
   * The resized piece ends 4 pixels before the right and bottom edges of its canvas; it
   * is drawn at (4, 4) exactly when the piece size is at least 8, and it starts inside
   * the canvas exactly when the piece size is at least 4.
   */
  lemma {:induction false} PiecePlacement(x: int, y: int, pieceSize: nat)
    ensures MakeTile(x, y, pieceSize).placed.0 + MakeTile(x, y, pieceSize).resizeSide + Margin == MakeTile(x, y, pieceSize).canvasSide
    ensures MakeTile(x, y, pieceSize).placed == (4, 4) <==> pieceSize >= 8
    ensures MakeTile(x, y, pieceSize).placed.0 >= 0 <==> pieceSize >= 4
  {
    var t := MakeTile(x, y, pieceSize);
    AddAnchorsBottomRight(t.canvasSide, t.canvasSide, t.resizeSide, t.resizeSide);
    TileSizes(x, y, pieceSize);
  }

  /**
   * On the preview sheet (width * scale by height * scale) a tile is drawn at five times
   * its crop origin, so with scale 5 it starts inside the sheet; when the piece size is
   * at least 8 and divides both sides of the image, the whole framed tile fits.
   */
  lemma {:induction false} PreviewInside(width: nat, height: nat, scale: int, pieceSize: nat, i: int)
    requires pieceSize > 0 && TileCount(width, height, pieceSize) <= UShortRange
    requires scale == 5 && i in TileMap(width, height, pieceSize)
    ensures var t := TileMap(width, height, pieceSize)[i];
            0 <= t.preview.x < width * scale && 0 <= t.preview.y < height * scale
    ensures var t := TileMap(width, height, pieceSize)[i];
            pieceSize >= 8 && width % pieceSize == 0 && height % pieceSize == 0 ==>
              t.preview.x + t.canvasSide <= width * scale && t.preview.y + t.canvasSide <= height * scale
  {
    var t := TileMap(width, height, pieceSize)[i];
    TileInside(width, height, pieceSize, i);
    TileSizes(t.origin.x, t.origin.y, pieceSize);
    if pieceSize >= 8 && width % pieceSize == 0 && height % pieceSize == 0 {
      var cols := Columns(width, pieceSize);
      TileMapIsDense(width, height, pieceSize, i);
      AlignedTileFits(width, pieceSize, i % cols);
      AlignedTileFits(height, pieceSize, i / cols);
      assert t.origin.x + pieceSize <= width && t.origin.y + pieceSize <= height;
    }
  }

  /** A grid step below a multiple of pieceSize is at least a whole piece below it. */
  lemma AlignedTileFits(length: nat, pieceSize: nat, c: nat)
    requires pieceSize > 0 && length % pieceSize == 0 && c * pieceSize < length
    ensures c * pieceSize + pieceSize <= length
  {
    var n := length / pieceSize;
    assert length == n * pieceSize;
    if c >= n {
      MulMonotone(n, c, pieceSize);
    } else {
      MulMonotone(c + 1, n, pieceSize);
      assert (c + 1) * pieceSize == c * pieceSize + pieceSize;
    }
  }

  /**
   * Every tile goes through OutlineGlow with outline and glow colour 0: the no-op path is
   * never taken, and the effect is the black outline followed by the black glow.
   */
  lemma TileIsOutlinedAndGlowed(px: seq<Color>, w: nat, h: nat, scale: Glow.AlphaScale, blur: Glow.Blur, t: Tile)
    requires |px| == w * h && t == MakeTile(t.origin.x, t.origin.y, t.side)
    ensures Glow.OutlineGlowed(px, w, h, t.outlineColor, t.glowColor, scale, blur)
            == Glow.Glowed(Glow.Outlined(px, w, h, Color(255, 0, 0, 0)), w, h, Color(255, 0, 0, 0), scale, blur)
  {
  }
}
