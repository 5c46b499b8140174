# MuledumpDataMaker core, modelled in Dafny

MuledumpDataMaker reads the game's object XML and sprite sheets and writes three
things: an item atlas with a table of where each item's sprite sits, a class/skin
sheet with its mask, and the constants file. This project models the parts of it
that decide placement and pixels:

- **The item atlas** (`atlas.dfy`, module `Atlas`). This covers `indexToCoords` and
  the sheet-width switch. It also covers the item loop of `Main`: the
  `bitmapSheetByName` cache, `addedSprites` deduplication, the slot counter, the
  sprite key for animated sheets and the item table. It ends with the atlas
  bitmap's height.
- **Sheet slicing** (`bitmap_sheet.dfy`, module `BitmapSheet`). `BitmapSheet.FromImage`
  cuts a sheet into `pieceSize` tiles, numbered densely in row-major order. Each
  tile is placed on its canvas through `Add`'s 4-pixel margin and then outlined
  and glowed.
- **The outline-and-glow effect** (`glow.dfy`, module `Glow`). This is
  `OutlineGlow`'s 8-neighbour outline pass and `applyOutlineGlow`'s shadow
  recolour, blur and composite.
- **Bitmap helpers** (`extensions.dfy`, module `Extensions`). These are the `Add`
  margin, `IsEmpty`, the `.png` suffix of `SavePng`, and the `ForEach` and
  `ForEachPixel` walks.
- **The texture index parse** (`texture_index.dfy`, module `TextureIndex`). A
  "0x" prefix means hexadecimal and anything else means decimal, with the
  `ushort.Parse` rules for white space, sign, format and overflow.
- **The class/skin sheet layout** (`skin_sheet.dfy`, module `SkinSheet`). It draws
  one 56x24 strip per class and then one per skin, in stable `Index` order.

Shared definitions:

- `raster.dfy` (module `Raster`) holds the `Bitmap` class. It is a width, a height
  and a row-major `array<Color>`, with the arithmetic lemmas for row-major
  offsets.
- `wrappers.dfy` holds `Option` and `Result`.

The code is imperative, and the model follows it:

- Each loop of the source is a `method` with a `while` loop. Its `ensures` ties
  the result or the new state to a specification function.
- The properties are proved about those functions as lemmas.
- Exceptions the source can throw are explicit outcomes, such as
  `Atlas.Failure`, `SkinSheet.Layout.Crashed` and `TextureIndex.ParseError`.
  Two are not: the zero-size `new Bitmap` in `BitmapSheet.Sheet.FromImage`
  is a precondition, and the alpha range check of `Color.FromArgb` sits inside
  `Glow.AlphaScale`. Both are listed under "## Left out".

Outside inputs are parameters:

- The file system: a map from sheet name to image size, or a set of existing
  paths.
- The Gaussian blur: an uninterpreted function `Glow.Blur`.
- The floating-point alpha scaling: an uninterpreted function `Glow.AlphaScale`.

`indexToCoords` starts at `(40, 0)` and advances one cell per index, so at
width 1000 index 0 gives `(40, 0)`, index 24 gives `(0, 40)` and index 25 gives
`(40, 40)`. `Atlas.AtlasCoords` states these values.

## Model

| member | source | states |
|---|---|---|
| `Raster.Bitmap.Clone` | MuledumpDataMaker/Imaging/Extensions.cs:78 | the clone is a fresh bitmap of the same size with the same pixels |
| `Raster.Bitmap.SetPixel` | MuledumpDataMaker/Imaging/Extensions.cs:130 | exactly pixel (x, y) takes the new colour; every other pixel keeps its value |
| `Glow.FromRgb` | MuledumpDataMaker/Imaging/Extensions.cs:127 | the colour is opaque, and for a 24-bit value its red, green and blue are bits 16-23, 8-15 and 0-7 |
| `Glow.ScanNeighbours` | MuledumpDataMaker/Imaging/Extensions.cs:105-125 | `transparentFound` holds iff some in-bounds 8-neighbour has alpha 0; `hasSomethingAround` holds iff some in-bounds 8-neighbour has alpha other than 0 |
| `Glow.OutlinePass` | MuledumpDataMaker/Imaging/Extensions.cs:101-132 | after the column-by-column scan, the copy holds the outline of the original; all reads come from the original and all writes go to the copy |
| `Glow.Outlined` | MuledumpDataMaker/Imaging/Extensions.cs:101-132 | the outline has one pixel per input pixel (its per-pixel rule is `Glow.OutlinedAt`) |
| `Glow.OutlinedAt` | MuledumpDataMaker/Imaging/Extensions.cs:108-130 | pixel (x, y) of the outline is the recolour rule applied to (x, y) and its in-bounds neighbours |
| `Glow.OutlineKeepsVisible` | MuledumpDataMaker/Imaging/Extensions.cs:108-109 | the outline pass never changes a pixel whose alpha is not 0 |
| `Glow.OutlineChangesIff` | MuledumpDataMaker/Imaging/Extensions.cs:111-130 | a pixel changes iff it is transparent and has both a transparent and a non-transparent in-bounds neighbour; a changed pixel takes the outline colour |
| `Glow.OutlineIsLocal` | MuledumpDataMaker/Imaging/Extensions.cs:108-130 | a pixel's outcome depends only on that pixel and its in-bounds neighbours' alphas, so the scan order does not matter |
| `Glow.LoneGapStaysClear` | MuledumpDataMaker/Imaging/Extensions.cs:116-130 | out-of-bounds neighbours are skipped rather than wrapped: an edge pixel next to only an opaque pixel stays transparent |
| `Glow.Shadowed` | MuledumpDataMaker/Imaging/Extensions.cs:141-149 | the recoloured shadow has one pixel per input pixel |
| `Glow.ShadowKeepsAlpha` | MuledumpDataMaker/Imaging/Extensions.cs:146-147 | each shadow pixel keeps the original alpha and takes the shadow colour's red, green and blue |
| `Glow.Blurred` | MuledumpDataMaker/Imaging/Extensions.cs:152-153 | the blurred shadow has one pixel per input pixel |
| `Glow.Composited` | MuledumpDataMaker/Imaging/Extensions.cs:155-169 | the composite has one pixel per original pixel |
| `Glow.Glowed` | MuledumpDataMaker/Imaging/Extensions.cs:137-172 | the glow result has one pixel per input pixel |
| `Glow.GlowKeepsVisible` | MuledumpDataMaker/Imaging/Extensions.cs:159-161 | a non-transparent original pixel comes out unchanged, whatever the blur does |
| `Glow.GlowLeavesClearShadow` | MuledumpDataMaker/Imaging/Extensions.cs:162-167 | a transparent pixel under a transparent blurred shadow stays that transparent shadow pixel |
| `Glow.GlowShowsShadow` | MuledumpDataMaker/Imaging/Extensions.cs:164-166 | a transparent pixel under a visible blurred shadow takes the shadow's colour with the scaled alpha |
| `Glow.ApplyOutlineGlow` | MuledumpDataMaker/Imaging/Extensions.cs:137-172 | the returned fresh bitmap holds the recoloured, blurred and composited glow of its input |
| `Glow.OutlineGlowed` | MuledumpDataMaker/Imaging/Extensions.cs:76-135 | the effect has one pixel per input pixel |
| `Glow.OutlineGlow` | MuledumpDataMaker/Imaging/Extensions.cs:76-135 | with both colours -1 the input bitmap itself is returned; with only the outline colour -1 the outline pass is skipped; otherwise the result is the outline followed by the glow |
| `Glow.NoColorsNoEffect` | MuledumpDataMaker/Imaging/Extensions.cs:80-83 | with both colours -1 the pixels are unchanged |
| `Glow.OutlineGlowKeepsVisible` | MuledumpDataMaker/Imaging/Extensions.cs:76-172 | the whole effect never changes a pixel whose alpha is not 0 |
| `Glow.OutlineRingSurvives` | MuledumpDataMaker/Imaging/Extensions.cs:129-134 | a pixel the outline pass recolours leaves the whole effect as the opaque outline colour |
| `Extensions.AddAnchorsBottomRight` | MuledumpDataMaker/Imaging/Extensions.cs:41-50 | `Add` places the image 4 pixels from the right and bottom edges; its origin is inside iff the image plus the margin fits |
| `Extensions.LockedBytes` | MuledumpDataMaker/Imaging/Extensions.cs:181-184 | the locked buffer holds four bytes per pixel |
| `Extensions.IsEmpty` | MuledumpDataMaker/Imaging/Extensions.cs:179-187 | a bitmap is empty iff every pixel is fully transparent black (every byte 0) |
| `Extensions.PngName` | MuledumpDataMaker/Imaging/Extensions.cs:25-26 | the file name ends in ".png" and starts with the given name; it is the name itself iff that already ends in ".png" |
| `Extensions.PngNameIdempotent` | MuledumpDataMaker/Imaging/Extensions.cs:25-26 | adding the suffix twice is the same as adding it once |
| `Extensions.Row` | MuledumpDataMaker/Imaging/Extensions.cs:213-214 | one pass of the inner loop visits one point per column |
| `Extensions.WalkIsRowMajor` | MuledumpDataMaker/Imaging/Extensions.cs:212-214 | the nested loops visit cols*rows points, the k-th being (k mod cols, k div cols) |
| `Extensions.WalkCoversBox` | MuledumpDataMaker/Imaging/Extensions.cs:212-214 | the visited points are inside the box, cover all of it and are pairwise distinct |
| `Extensions.ForEach` | MuledumpDataMaker/Imaging/Extensions.cs:210-215 | as written, the action runs on the row-major walk of a Height-by-Height box |
| `Extensions.ForEachMissesColumn` | MuledumpDataMaker/Imaging/Extensions.cs:213 | on a 2x1 bitmap `ForEach` never visits (1, 0) |
| `Extensions.ForEachInBounds` | MuledumpDataMaker/Imaging/Extensions.cs:210-215 | with the inner bound corrected to Width, the action runs on the row-major walk of the Width-by-Height box, so every pixel exactly once |
| `Extensions.ForEachPixel` | MuledumpDataMaker/Imaging/Extensions.cs:195-203 | as written, it faults (GetPixel out of range) iff Width < Height; otherwise the action runs on the points of the Height-by-Height walk whose colour passes the predicate; on a fault it has run on the wanted pixels of row 0, columns 0 .. Width-1 |
| `Extensions.ForEachPixelFaults` | MuledumpDataMaker/Imaging/Extensions.cs:198-200 | on a 1x2 bitmap the walk reaches (1, 0), outside the bitmap |
| `Extensions.ForEachPixelInBounds` | MuledumpDataMaker/Imaging/Extensions.cs:195-203 | with the inner bound corrected to Width, the action runs, in row-major order, on exactly the pixels whose colour passes the predicate |
| `BitmapSheet.StepsCover` | MuledumpDataMaker/Imaging/BitmapSheet.cs:22-23 | the loop `for (v = 0; v < length; v += pieceSize)` takes step c iff c < ceil(length / pieceSize) |
| `BitmapSheet.Sheet.constructor` | MuledumpDataMaker/Imaging/BitmapSheet.cs:16 | a new sheet has no tiles |
| `BitmapSheet.Sheet.FromImage` | MuledumpDataMaker/Imaging/BitmapSheet.cs:14-51 | it succeeds iff there are at most 65536 tiles; on success `Bitmaps` maps 0 .. count-1 to the tiles in row-major order (a 65537th tile repeats key 0 and `Dictionary.Add` throws) |
| `BitmapSheet.TileMapIsDense` | MuledumpDataMaker/Imaging/BitmapSheet.cs:21-45 | the keys are exactly 0 .. count-1, and key i is the tile at column i mod cols, row i div cols |
| `BitmapSheet.TileInside` | MuledumpDataMaker/Imaging/BitmapSheet.cs:22-25 | every tile's origin lies inside the image |
| `BitmapSheet.TilesDistinct` | MuledumpDataMaker/Imaging/BitmapSheet.cs:21-45 | tiles under different keys have different origins |
| `BitmapSheet.TilesCoverSheet` | MuledumpDataMaker/Imaging/BitmapSheet.cs:22-25 | every pieceSize-grid point (c, r) inside the image is the origin of the tile with key r * cols + c |
| `BitmapSheet.TileSizes` | MuledumpDataMaker/Imaging/BitmapSheet.cs:28-31 | tiles are resized to min(32, 4*pieceSize) on a min(40, 5*pieceSize) canvas, which is 32 on 40 for the 8- and 16-pixel sheets |
| `BitmapSheet.PiecePlacement` | MuledumpDataMaker/Imaging/BitmapSheet.cs:36-37 | the resized piece ends 4 pixels before the canvas edge; it sits at (4, 4) iff pieceSize >= 8 and inside the canvas iff pieceSize >= 4 |
| `BitmapSheet.PreviewInside` | MuledumpDataMaker/Imaging/BitmapSheet.cs:19-43 | each tile's preview origin (5x, 5y) lies inside the 5-times sheet, and the whole 40-pixel tile fits when pieceSize >= 8 divides the sheet size |
| `BitmapSheet.TileIsOutlinedAndGlowed` | MuledumpDataMaker/Imaging/BitmapSheet.cs:39 | every tile goes through the effect with outline and glow colour 0, that is opaque black |
| `Atlas.IndexToCoords` | MuledumpDataMaker/Program.cs:271-286 | the loop's result is `Coords(index, width)`, the cell reached by advancing `index` times from (40, 0) |
| `Atlas.CoordsOnGrid` | MuledumpDataMaker/Program.cs:271-286 | results are non-negative multiples of 40, and from index 1 on x is inside the width |
| `Atlas.CoordsClosedForm` | MuledumpDataMaker/Program.cs:271-286 | with c cells per row (c >= 2), index i lands on row-major grid cell i + 1, that is (40 * ((i+1) mod c), 40 * ((i+1) div c)) |
| `Atlas.AdvanceOnGrid` | MuledumpDataMaker/Program.cs:278-283 | one iteration moves from grid cell n to grid cell n + 1 |
| `Atlas.CellInsideRow` | MuledumpDataMaker/Program.cs:279 | cell k starts inside the width iff k is below the number of cells per row |
| `Atlas.CoordsInjective` | MuledumpDataMaker/Program.cs:271-286 | distinct indices give distinct cells |
| `Atlas.AtlasCoords` | MuledumpDataMaker/Program.cs:84 | on the 1000-wide atlas index i is at (40 * ((i+1) mod 25), 40 * ((i+1) div 25)); 0 is at (40, 0), 24 at (0, 40) and 25 at (40, 40) |
| `Atlas.ClassifyWidth` | MuledumpDataMaker/Program.cs:115-140 | a sheet is known iff its width is 128, 56, 256 or 112; a known sheet has sprite size 8 or 16, and its width is size*16 (static) or size*7 (animated) |
| `Atlas.ClassifyWidthComplete` | MuledumpDataMaker/Program.cs:115-140 | each of the four (size, animated) combinations is recognised from its width |
| `Atlas.FramesPerSprite` | MuledumpDataMaker/Program.cs:159 | an animated sprite spans 21 keys on a "player" sheet and 7 otherwise |
| `Atlas.SpriteKeyRecoversIndex` | MuledumpDataMaker/Program.cs:157-160 | while index * frames fits a ushort, the key is a multiple of the frame count and dividing gives the sprite index back |
| `Atlas.SpriteKeyWraps` | MuledumpDataMaker/Program.cs:159 | the `(ushort)` cast wraps: index 3121 on a player sheet is looked up under key 5 |
| `Atlas.PackItems` | MuledumpDataMaker/Program.cs:93-180 | the item loop's outcome is `PackFrom(Initial, items, sheets)`: the step-by-step fold of one iteration over the list, stopping at a break or an exception |
| `Atlas.SlotOfAddSlot` | MuledumpDataMaker/Program.cs:149-154 | registering (sheet, index) gives it the new slot and leaves every other sprite's slot as it was |
| `Atlas.ExtendsTransitive` | MuledumpDataMaker/Program.cs:149-179 | "slots kept, draws appended" composes over several iterations |
| `Atlas.InitialConsistent` | MuledumpDataMaker/Program.cs:88-95 | the initial state (empty caches, the "empty slot" entry, index 1) satisfies the slot invariant |
| `Atlas.StepAssignsSlot` | MuledumpDataMaker/Program.cs:96-179 | one iteration keeps the slot invariant. A new sprite gets slot `index`, is drawn at that slot's cell and advances the counter. A repeat leaves slots, draws and counter alone. Either way the item's table entry carries the cell of its sprite's slot |
| `Atlas.PlaceAssignsSlot` | MuledumpDataMaker/Program.cs:149-179 | the same, for an iteration whose sheet is already loaded |
| `Atlas.NewSlotConsistent` | MuledumpDataMaker/Program.cs:152-179 | adding a new sprite at slot `index`, drawing it at that cell and incrementing keeps the invariant |
| `Atlas.PackKeepsSlots` | MuledumpDataMaker/Program.cs:96-180 | a completed run keeps the slot invariant, only extends slots and draws, and uses at most one new slot per item |
| `Atlas.SlotsAreDistinct` | MuledumpDataMaker/Program.cs:149-166 | different sprites get different slots and therefore different cells |
| `Atlas.UnknownWidthIsSkipped` | MuledumpDataMaker/Program.cs:137-139 | an item whose sheet has an unknown width is skipped as if it were absent, and nothing is cached for its sheet |
| `Atlas.MissingSheetStops` | MuledumpDataMaker/Program.cs:100-105 | an item whose sheet file is missing ends the loop: later items are never looked at and the state is the one before it |
| `Atlas.AtlasClipsLastSlot` | MuledumpDataMaker/Program.cs:84 | as written, with n >= 24 items slot n lies at or below the bottom edge of the max(n/25, 1)*40-high atlas |
| `Atlas.AtlasClipsRun` | MuledumpDataMaker/Program.cs:84-160 | a run of 24 or more items that are all distinct sprites draws the last one outside the atlas as written |
| `Atlas.SlotsFitAtlas` | MuledumpDataMaker/Program.cs:84 | every slot 1..n fits a 1000 by ((n+1)/25+1)*40 atlas, and slot n touches its bottom, so no lower height fits |
| `Atlas.ConsistentDrawsFit` | MuledumpDataMaker/Program.cs:148-160 | in any state keeping the slot invariant with at most n slots taken, every draw lies inside the corrected atlas for n items |
| `Atlas.DrawsFitAtlas` | MuledumpDataMaker/Program.cs:84-160 | every sprite a run draws lies wholly inside the corrected atlas |
| `TextureIndex.TrimStart` | MuledumpDataMaker/Program.cs:328-329 | the result is no longer than the input and does not start with white space |
| `TextureIndex.TrimEnd` | MuledumpDataMaker/Program.cs:328-329 | the result is no longer than the input and does not end with white space |
| `TextureIndex.TrimStartDropsWhite` | MuledumpDataMaker/Program.cs:328-329 | only leading white space is removed: the result is a suffix of the input and everything before it is white |
| `TextureIndex.TrimEndDropsWhite` | MuledumpDataMaker/Program.cs:328-329 | only trailing white space is removed: the result is a prefix of the input and everything after it is white |
| `TextureIndex.TrimStartWhite` | MuledumpDataMaker/Program.cs:328-329 | a white prefix in front of a string that does not start with white space is removed exactly |
| `TextureIndex.TrimEndWhite` | MuledumpDataMaker/Program.cs:328-329 | a white suffix behind a string that does not end with white space is removed exactly |
| `TextureIndex.DigitValue` | MuledumpDataMaker/Program.cs:328-329 | a digit's value is below the radix (hex digits of either case in hexadecimal) |
| `TextureIndex.FormatDigitsParses` | MuledumpDataMaker/Program.cs:328-329 | the digit reader inverts base-10 and base-16 formatting |
| `TextureIndex.HexRoundTrip` | MuledumpDataMaker/Program.cs:327-328 | "0x" followed by a ushort in hexadecimal parses back to that ushort |
| `TextureIndex.DecimalRoundTrip` | MuledumpDataMaker/Program.cs:327-329 | a ushort in decimal parses back to it and is never taken for hexadecimal |
| `TextureIndex.ParseOverflows` | MuledumpDataMaker/Program.cs:327-329 | values above 65535 are an overflow error in either notation |
| `TextureIndex.NegativeOverflows` | MuledumpDataMaker/Program.cs:329 | a minus sign is accepted in decimal: "-0" is 0 and any other negative value is an overflow error |
| `TextureIndex.UpperHexSameValue` | MuledumpDataMaker/Program.cs:328 | hexadecimal digits are read without regard to case: upper-casing a digit string keeps its value |
| `TextureIndex.HexWithWhiteSpace` | MuledumpDataMaker/Program.cs:327-328 | any hexadecimal digit string worth v, with any white space around it after "0x", parses to v |
| `TextureIndex.DecimalWithWhiteSpace` | MuledumpDataMaker/Program.cs:329 | any decimal digit string worth v, with any white space around it, is not taken for hexadecimal and parses to v |
| `TextureIndex.ParseSkipsWhiteSpace` | MuledumpDataMaker/Program.cs:327-329 | for every ushort v and all-white w1, w2: w1 + decimal(v) + w2, "0x" + w1 + hex(v) + w2 and the same with upper-case hex digits all parse to v |
| `TextureIndex.ParseRejectsMalformed` | MuledumpDataMaker/Program.cs:327-329 | the empty string, a bare "0x" and a "0x" after a space are format errors |
| `SkinSheet.DrawRows` | MuledumpDataMaker/Program.cs:209-231 | the loop's outcome is `RowsFrom(strips, firstRow, files)`: strips drawn one row each until a missing sheet breaks or a missing mask throws |
| `SkinSheet.FirstGap` | MuledumpDataMaker/Program.cs:211-218 | every strip before the gap has both files, and the strip at the gap lacks one of them |
| `SkinSheet.RowsLayout` | MuledumpDataMaker/Program.cs:209-255 | a loop draws exactly the strips before the first gap. The i-th goes to (0, (firstRow+i)*24), cut at (0, SheetIndex*24, 56, 24) from both its sheet and its mask. The loop throws exactly when the gap is a missing mask beside an existing sheet |
| `SkinSheet.Insert` | MuledumpDataMaker/Program.cs:233 | inserting a skin adds exactly that skin |
| `SkinSheet.OrderByIndex` | MuledumpDataMaker/Program.cs:233 | ordering by Index is a permutation |
| `SkinSheet.InsertSorted` | MuledumpDataMaker/Program.cs:233 | inserting into a sorted list keeps it sorted |
| `SkinSheet.OrderBySorts` | MuledumpDataMaker/Program.cs:233 | the order is ascending by Index and a permutation of the skins |
| `SkinSheet.InsertStable` | MuledumpDataMaker/Program.cs:233 | insertion puts a skin after every skin of equal Index |
| `SkinSheet.OrderByIsStable` | MuledumpDataMaker/Program.cs:233 | skins with equal Index keep their list order (OrderBy is stable) |
| `SkinSheet.OrderByKeepsSorted` | MuledumpDataMaker/Program.cs:233 | skins already in Index order, as the load counter numbers them, keep their list order |
| `SkinSheet.OrderByAfterWrap` | MuledumpDataMaker/Program.cs:388 | once the ushort counter has wrapped, a later skin is drawn before an earlier one |
| `SkinSheet.LayoutSkinSheet` | MuledumpDataMaker/Program.cs:204-255 | the two loops build `SkinSheetLayout`: a 56 by (skins+14)*24 canvas, class strips from row 0, then the sorted skins from row 14, or the missing mask that crashed it |
| `SkinSheet.ClassRowsPlaced` | MuledumpDataMaker/Program.cs:209-231 | the i-th class strip is drawn at row i*24; with at most 14 classes every class strip lies above the first skin row |
| `SkinSheet.SkinRowsPlaced` | MuledumpDataMaker/Program.cs:204-255 | the canvas is 56 by (skins+14)*24, and the i-th skin in ascending Index order is drawn at row (i+14)*24, inside the canvas |
| `SkinSheet.NoGapDrawsAll` | MuledumpDataMaker/Program.cs:211-218 | with every sheet and mask present, a loop draws every strip |
| `SkinSheet.AllFilesPresent` | MuledumpDataMaker/Program.cs:204-255 | with every class's and skin's files present, the sheet does not crash and draws every class and skin |
| `SkinSheet.FifteenthClassMeetsFirstSkin` | MuledumpDataMaker/Program.cs:224-247 | a 15th class is drawn onto the row of the first skin |

## Left out

- Pixel content from foreign code is not modelled. This covers the Accord/AForge
  `Crop`, `ResizeNearestNeighbor` and `GaussianBlur`, `Graphics.DrawImage`
  compositing, and PNG encoding and decoding. Tiles, atlas draws and skin strips
  are modelled as geometry: origin, crop rectangle, size and destination. The blur
  is an uninterpreted function.
- `(int)(shadowPixel.A * alpha)` is floating point. It is an uninterpreted
  `Byte -> Byte` function, `Glow.AlphaScale`. Because its results are always
  bytes, the model does not capture the `ArgumentException` that
  `Color.FromArgb` throws when the product exceeds 255. No call in the modelled
  code passes an alpha above 1.
- File I/O, `Log`, the XML loading and the constants.js/JSON output are not
  modelled. Items, classes and skins enter as lists already loaded. Sheets enter
  as a map from name to image size, and file existence as a set of paths.
- The sheet file checks at Program.cs:370-375 and 397-402 are not modelled. The
  layout loops take files as they are given, so a sheet missing at layout time is
  covered.
- The unused `pieceScale` argument of `FromImage` is not modelled. Neither are
  `saveSheet` and `savePieces`, which only write debugging files, or the
  5-times preview sheet's pixels.
- `BitmapSheet.Sheet.FromImage`: requires positive sizes. A zero-sized
  `new Bitmap` throws, and a zero `pieceSize` never ends the loop.
- `TextureIndex.ParseTextureIndex`: not modelled are `StartsWith` being
  culture-sensitive, trailing NUL characters and culture-specific signs. The
  same holds for `Extensions.PngName`: the culture-sensitive
  `EndsWith(".png")` is modelled as an exact ordinal suffix match. In both, the
  invariant-culture ASCII rules are modelled.
- `Atlas.PackItems`: an exception ends the model's run with the exception, and
  the partial state is discarded. The source's process dies there, before any
  output is written.
- The class stats (`Starts`, `Averages`, `Maxes`, `Slots`) and the item fields
  other than the table entry are not modelled. They are not used for placement.

## Findings

| source | as written | input that shows it | evidently intended | confidence | as-written member | corrected member |
|---|---|---|---|---|---|---|
| MuledumpDataMaker/Program.cs:84 | the atlas is `Math.Max(items.Count / 25, 1) * 40` high, but slot k is drawn at grid cell k + 1, because `indexToCoords` starts at (40, 0) | 24 items that are all distinct sprites: the atlas is 40 high and the 24th sprite is drawn at (0, 40), entirely outside | the atlas is tall enough for every slot, ((n + 1) / 25 + 1) * 40 for n items | not executed | `Atlas.AtlasClipsRun` | `Atlas.DrawsFitAtlas` |
| MuledumpDataMaker/Imaging/Extensions.cs:198-213 | the inner loops of `ForEachPixel` and `ForEach` run `x` up to `bitmap.Height`, not `bitmap.Width` | a 2x1 bitmap: `ForEach` never visits (1, 0); a 1x2 bitmap: `ForEachPixel` calls `GetPixel(1, 0)`, which throws | `x < bitmap.Width`, so every pixel is visited exactly once | not executed | `Extensions.ForEachMissesColumn` | `Extensions.ForEachInBounds` |
