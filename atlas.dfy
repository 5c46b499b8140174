/**
 * The item atlas of Program.Main: every item is drawn once per distinct
 * (sheet, index) sprite into a 1000-pixel-wide atlas of 40-pixel cells, and the
 * item table records where. Files are an oracle map from sheet name to the size
 * of its image; a sheet that is absent from the map does not exist on disk.
 */
module Atlas {
  import opened Wrappers
  import opened Raster
  import BitmapSheet

  /** The side of an atlas cell. */
  const Cell := 40

  /** The width of the atlas bitmap, 40 * 25. */
  const AtlasWidth := 40 * 25

  /** One step of indexToCoords: the next cell to the right, or the start of the next row. */
  function Advance(p: (int, int), width: int): (int, int)
  {
    if p.0 + Cell >= width then (0, p.1 + Cell) else (p.0 + Cell, p.1)
  }

  /** indexToCoords(index, width) as a function: Advance applied `index` times to (40, 0). */
  function Coords(index: int, width: int): (int, int)
    decreases index
  {
    if index <= 0 then (Cell, 0) else Advance(Coords(index - 1, width), width)
  }

  /** indexToCoords: the while loop that walks `index` cells from (40, 0). */
  method IndexToCoords(index: int, width: int) returns (x: int, y: int)
    ensures (x, y) == Coords(index, width)
  {
    x := 40;
    y := 0;
    var remaining := index;
    while remaining > 0
      invariant index > 0 ==> 0 <= remaining <= index && (x, y) == Coords(index - remaining, width)
      invariant index <= 0 ==> remaining == index && (x, y) == Coords(index, width)
    {
      x := x + 40;
      if x >= width {
        x := 0;
        y := y + 40;
      }
      remaining := remaining - 1;
    }
  }

  /** The number of cells in an atlas row: the multiples of 40 below `width`. */
  function CellsPerRow(width: int): int
  {
    (width + Cell - 1) / Cell
  }

  /**
   * Every result lies on the 40-pixel grid with non-negative coordinates; from index 1
   * on, x is inside the width.
   */
  lemma {:induction false} CoordsOnGrid(index: int, width: int)
    ensures var (x, y) := Coords(index, width);
            x >= 0 && y >= 0 && x % Cell == 0 && y % Cell == 0
    ensures index >= 1 && width > 0 ==> Coords(index, width).0 < width
  {
    if index > 0 {
      CoordsOnGrid(index - 1, width);
    }
  }

  /**
   * Closed form: with c = CellsPerRow(width), the cell reached from index i is number
   * i + 1 of the row-major grid, that is (40 * ((i + 1) % c), 40 * ((i + 1) / c)),
   * whenever a row holds at least two cells.
   */
  lemma {:induction false} CoordsClosedForm(index: nat, width: int)
    requires CellsPerRow(width) >= 2
    ensures var c := CellsPerRow(width);
            Coords(index, width) == (Cell * ((index + 1) % c), Cell * ((index + 1) / c))
  {
    var c := CellsPerRow(width);
    if index == 0 {
      assert (index + 1) % c == 1 && (index + 1) / c == 0;
    } else {
      CoordsClosedForm(index - 1, width);
      AdvanceOnGrid(width, index);
    }
  }

  /** One Advance moves from grid cell n of the row-major order to cell n + 1. */
  lemma AdvanceOnGrid(width: int, n: nat)
    requires CellsPerRow(width) >= 2
    ensures var c := CellsPerRow(width);
            Advance((Cell * (n % c), Cell * (n / c)), width) == (Cell * ((n + 1) % c), Cell * ((n + 1) / c))
  {
    var c := CellsPerRow(width);
    var k, r := n % c, n / c;
    assert n == r * c + k;
    if k + 1 < c {
      CellInsideRow(width, k + 1);
      DivModUnique(n + 1, c, r, k + 1);
    } else {
      CellInsideRow(width, c);
      assert n + 1 == (r + 1) * c;
      DivModUnique(n + 1, c, r + 1, 0);
    }
  }

  /** Cell k of a row starts inside the width exactly when k < CellsPerRow(width). */
  lemma CellInsideRow(width: int, k: nat)
    requires width > 0
    ensures Cell * k < width <==> k < CellsPerRow(width)
  {
  }

  /** Different indices reach different cells when a row holds at least two cells. */
  lemma {:induction false} CoordsInjective(i: nat, j: nat, width: int)
    requires CellsPerRow(width) >= 2 && i != j
    ensures Coords(i, width) != Coords(j, width)
  {
    var c := CellsPerRow(width);
    CoordsClosedForm(i, width);
    CoordsClosedForm(j, width);
  }

  /**
   * In the 1000-wide atlas, slot i goes to (40 * ((i + 1) % 25), 40 * ((i + 1) / 25)):
   * index 0 is (40, 0), 1 is (80, 0), 24 wraps to (0, 40) and 25 is (40, 40).
   */
  lemma AtlasCoords(index: nat)
    ensures Coords(index, AtlasWidth) == (Cell * ((index + 1) % 25), Cell * ((index + 1) / 25))
    ensures Coords(0, AtlasWidth) == (40, 0) && Coords(1, AtlasWidth) == (80, 0)
    ensures Coords(24, AtlasWidth) == (0, 40) && Coords(25, AtlasWidth) == (40, 40)
  {
    CoordsClosedForm(index, AtlasWidth);
    CoordsClosedForm(24, AtlasWidth);
    CoordsClosedForm(25, AtlasWidth);
  }

  /** What the width switch decides about a sheet: its sprite size and whether it is animated. */
  datatype SheetKind = SheetKind(size: nat, animated: bool)

  /**
   * The switch on the sheet bitmap's width: 8 * 16, 8 * 7, 16 * 16 and 16 * 7 pixels;
   * any other width is unknown.
   */
  function ClassifyWidth(width: int): (r: Option<SheetKind>)
    ensures r.Some? <==> width in {128, 56, 256, 112}
    ensures r.Some? ==> (r.value.size == 8 || r.value.size == 16)
                        && width == r.value.size * (if r.value.animated then 7 else 16)
  {
    if width == 8 * 16 then Some(SheetKind(8, false))
    else if width == 8 * 7 then Some(SheetKind(8, true))
    else if width == 16 * 16 then Some(SheetKind(16, false))
    else if width == 16 * 7 then Some(SheetKind(16, true))
    else None
  }

  /** The switch recognises every sheet 16 sprites wide, or 7 frames wide when animated. */
  lemma ClassifyWidthComplete(size: nat, animated: bool)
    requires size == 8 || size == 16
    ensures ClassifyWidth(size * (if animated then 7 else 16)) == Some(SheetKind(size, animated))
  {
  }

  predicate OccursAt(s: string, part: string, i: int)
  {
    0 <= i <= |s| - |part| && s[i..i + |part|] == part
  }

  /** String.Contains with ordinal comparison. */
  predicate Contains(s: string, part: string)
  {
    exists i :: 0 <= i <= |s| - |part| && OccursAt(s, part, i)
  }

  /** An item record as loadObject builds it. */
  datatype Item = Item(
    itemType: UShort,
    id: string,
    slotType: int,
    tier: int,
    fameBonus: int,
    feedPower: int,
    sheet: string,
    index: UShort,
    animated: bool)

  /**
   * The key under which the sprite is looked up in the sheet's Bitmaps: the raw index,
   * or for an animated item the index times its frames per sprite (21 on a "player"
   * sheet, 7 otherwise), truncated to a ushort.
   */
  function SpriteKey(item: Item): UShort
  {
    if item.animated then (item.index * FramesPerSprite(item.sheet)) % UShortRange else item.index
  }

  function FramesPerSprite(sheet: string): (n: nat)
    ensures n == 7 || n == 21
  {
    if Contains(sheet, "player") then 21 else 7
  }

  /**
   * While the product fits a ushort, an animated sprite's key is a multiple of its frame
   * count and gives the sprite index back; beyond that it wraps.
   */
  lemma SpriteKeyRecoversIndex(item: Item)
    requires item.animated && item.index * FramesPerSprite(item.sheet) < UShortRange
    ensures SpriteKey(item) % FramesPerSprite(item.sheet) == 0
    ensures SpriteKey(item) / FramesPerSprite(item.sheet) == item.index
  {
    var n := FramesPerSprite(item.sheet);
    DivModUnique(SpriteKey(item), n, item.index, 0);
  }

  /** An animated item of a player sheet with index 3121 is looked up under key 5. */
  lemma SpriteKeyWraps(sheet: string)
    requires Contains(sheet, "player")
    ensures SpriteKey(Item(0, "", 0, 0, 0, 0, sheet, 3121, true)) == 5
  {
  }

  /** One entry of the item table: [id, slot type, tier, x, y, fame bonus, feed power]. */
  datatype Entry = Entry(id: string, slotType: int, tier: int, x: int, y: int, fameBonus: int, feedPower: int)

  /** The entry the table starts with, under key -1. */
  const EmptySlot := Entry("empty slot", 0, -1, 0, 0, 0, 0)

  function ItemEntry(item: Item, cell: (int, int)): Entry
  {
    Entry(item.id, item.slotType, item.tier, cell.0, cell.1, item.fameBonus, item.feedPower)
  }

  /** The size of a sheet image on disk. */
  datatype SheetImage = SheetImage(width: nat, height: nat)

  /** A loaded image is never empty. */
  predicate ValidSheets(sheets: map<string, SheetImage>)
  {
    forall name :: name in sheets ==> sheets[name].width > 0 && sheets[name].height > 0
  }

  /** One rendersBitmap.Add: the sprite (sheet, index) drawn from `tile` at (x, y). */
  datatype Draw = Draw(sheet: string, index: UShort, tile: BitmapSheet.Tile, x: int, y: int)

  /**
   * The variables of the item loop: bitmapSheetByName (as the Bitmaps dictionary of
   * each sheet), addedSprites, dict, the draws made on rendersBitmap, and index.
   */
  datatype PackState = PackState(
    loaded: map<string, map<UShort, BitmapSheet.Tile>>,
    added: map<string, map<UShort, int>>,
    entries: map<int, Entry>,
    draws: seq<Draw>,
    next: int)

  const Initial := PackState(map[], map[], map[-1 := EmptySlot], [], 1)

  /** The exceptions the loop can throw. */
  datatype Failure =
    | SheetTooLarge   // FromImage: a 65537th tile repeats ushort key 0
    | SpriteMissing   // Bitmaps[key]: no tile under the sprite key
    | DuplicateType   // dict.Add: a second item with the same type

  /** The fate of one loop iteration. */
  datatype StepResult = Next(state: PackState) | Break | Crash(failure: Failure)

  /** The fate of the whole loop: it runs to the end (or breaks), or it throws. */
  datatype Run = Completed(state: PackState) | Crashed(failure: Failure)

  /** One iteration of the item loop. */
  function Step(s: PackState, item: Item, sheets: map<string, SheetImage>): StepResult
    requires ValidSheets(sheets)
  {
    if item.sheet !in sheets then Break
    else if item.sheet in s.loaded then Place(s, item)
    else
      var image := sheets[item.sheet];
      match ClassifyWidth(image.width)
      case None => Next(s)
      case Some(kind) =>
        if BitmapSheet.TileCount(image.width, image.height, kind.size) > UShortRange then Crash(SheetTooLarge)
        else Place(s.(loaded := s.loaded[item.sheet := BitmapSheet.TileMap(image.width, image.height, kind.size)]), item)
  }

  /** The part of an iteration after the sheet is loaded: slot assignment, drawing, the table entry. */
  function Place(s: PackState, item: Item): StepResult
    requires item.sheet in s.loaded
  {
    var slots: map<UShort, int> := if item.sheet in s.added then s.added[item.sheet] else map[];
    if item.index !in slots then
      var key := SpriteKey(item);
      if key !in s.loaded[item.sheet] then Crash(SpriteMissing)
      else if item.itemType in s.entries then Crash(DuplicateType)
      else
        var cell := Coords(s.next, AtlasWidth);
        Next(PackState(s.loaded,
                       s.added[item.sheet := slots[item.index := s.next]],
                       s.entries[item.itemType := ItemEntry(item, cell)],
                       s.draws + [Draw(item.sheet, item.index, s.loaded[item.sheet][key], cell.0, cell.1)],
                       s.next + 1))
    else if item.itemType in s.entries then Crash(DuplicateType)
    else Next(s.(entries := s.entries[item.itemType := ItemEntry(item, Coords(slots[item.index], AtlasWidth))]))
  }

  /** The loop over the remaining items from state s. */
  function PackFrom(s: PackState, items: seq<Item>, sheets: map<string, SheetImage>): Run
    requires ValidSheets(sheets)
    decreases |items|
  {
    if items == [] then Completed(s)
    else match Step(s, items[0], sheets)
      case Next(s') => PackFrom(s', items[1..], sheets)
      case Break => Completed(s)
      case Crash(f) => Crashed(f)
  }

  /** The item loop of Main, from `var index = 1` to the end of the foreach. */
  method PackItems(items: seq<Item>, sheets: map<string, SheetImage>) returns (run: Run)
    requires ValidSheets(sheets)
    ensures run == PackFrom(Initial, items, sheets)
  {
    var loaded: map<string, map<UShort, BitmapSheet.Tile>> := map[];
    var added: map<string, map<UShort, int>> := map[];
    var entries: map<int, Entry> := map[-1 := EmptySlot];
    var draws: seq<Draw> := [];
    var index := 1;
    var i := 0;
    while i < |items|
      invariant 0 <= i <= |items|
      invariant PackFrom(Initial, items, sheets) == PackFrom(PackState(loaded, added, entries, draws, index), items[i..], sheets)
    {
      var item := items[i];
      ghost var before := PackState(loaded, added, entries, draws, index);
      assert items[i..][0] == item && items[i..][1..] == items[i + 1..];
      var increment := true;
      if item.sheet !in sheets {
        break;
      }
      var image := sheets[item.sheet];
      if item.sheet !in loaded {
        var kind := ClassifyWidth(image.width);
        if kind.None? {
          assert Step(before, item, sheets) == Next(before);
          i := i + 1;
          continue;
        }
        var sheet, ok := BitmapSheet.Sheet.FromImage(image.width, image.height, 5, kind.value.size);
        if !ok {
          return Crashed(SheetTooLarge);
        }
        loaded := loaded[item.sheet := sheet.Bitmaps];
      }
      ghost var placing := PackState(loaded, added, entries, draws, index);
      assert Step(before, item, sheets) == Place(placing, item);
      if item.sheet !in added {
        added := added[item.sheet := map[]];
      }
      var x, y;
      if item.index !in added[item.sheet] {
        var slots := added[item.sheet];
        added := added[item.sheet := slots[item.index := index]];
        x, y := IndexToCoords(index, AtlasWidth);
        var key := SpriteKey(item);
        if key !in loaded[item.sheet] {
          return Crashed(SpriteMissing);
        }
        draws := draws + [Draw(item.sheet, item.index, loaded[item.sheet][key], x, y)];
      } else {
        x, y := IndexToCoords(added[item.sheet][item.index], AtlasWidth);
        increment := false;
      }
      if item.itemType in entries {
        return Crashed(DuplicateType);
      }
      entries := entries[item.itemType := ItemEntry(item, (x, y))];
      if increment {
        index := index + 1;
      }
      assert Place(placing, item) == Next(PackState(loaded, added, entries, draws, index));
      i := i + 1;
    }
    run := Completed(PackState(loaded, added, entries, draws, index));
  }

  /** addedSprites[sheet][index], when both keys are present. */
  function SlotOf(added: map<string, map<UShort, int>>, sheet: string, index: UShort): Option<int>
  {
    if sheet in added && index in added[sheet] then Some(added[sheet][index]) else None
  }

  /** addedSprites after addedSprites[sheet].Add(index, slot), creating the inner dictionary if needed. */
  function AddSlot(added: map<string, map<UShort, int>>, sheet: string, index: UShort, slot: int): map<string, map<UShort, int>>
  {
    var slots: map<UShort, int> := if sheet in added then added[sheet] else map[];
    added[sheet := slots[index := slot]]
  }

  lemma SlotOfAddSlot(added: map<string, map<UShort, int>>, sheet: string, index: UShort, slot: int, sh: string, ix: UShort)
    ensures SlotOf(AddSlot(added, sheet, index, slot), sh, ix) == if sh == sheet && ix == index then Some(slot) else SlotOf(added, sh, ix)
  {
  }

  /**
   * The slot bookkeeping the loop keeps: the counter is one past the last slot, the
   * assigned slots are exactly 1 .. next - 1, slot k belongs to the sprite of draw k - 1,
   * and that draw is at the cell of slot k.
   */
  ghost predicate SlotsConsistent(s: PackState)
  {
    && s.next >= 1 && |s.draws| == s.next - 1
    && (forall sheet, index :: SlotOf(s.added, sheet, index).Some? ==>
          var slot := SlotOf(s.added, sheet, index).value;
          1 <= slot < s.next && s.draws[slot - 1].sheet == sheet && s.draws[slot - 1].index == index)
    && (forall k :: 0 <= k < |s.draws| ==>
          && SlotOf(s.added, s.draws[k].sheet, s.draws[k].index) == Some(k + 1)
          && (s.draws[k].x, s.draws[k].y) == Coords(k + 1, AtlasWidth))
  }

  /** Slots once given are kept, and draws are only appended. */
  ghost predicate Extends(s: PackState, s': PackState)
  {
    && s.draws <= s'.draws
    && s'.next - s.next == |s'.draws| - |s.draws|
    && (forall sheet, index :: SlotOf(s.added, sheet, index).Some? ==>
          SlotOf(s'.added, sheet, index) == SlotOf(s.added, sheet, index))
  }

  lemma ExtendsTransitive(s: PackState, t: PackState, u: PackState)
    requires Extends(s, t) && Extends(t, u)
    ensures Extends(s, u)
  {
  }

  lemma InitialConsistent()
    ensures SlotsConsistent(Initial)
  {
  }

  /**
   * One iteration: a new (sheet, index) sprite gets slot `next`, is drawn at that slot's
   * cell and moves the counter on; a repeat leaves slots, draws and counter alone. Either
   * way its table entry carries the cell of the sprite's slot.
   */
  lemma StepAssignsSlot(s: PackState, item: Item, sheets: map<string, SheetImage>, s': PackState)
    requires ValidSheets(sheets) && SlotsConsistent(s) && Step(s, item, sheets) == Next(s')
    ensures SlotsConsistent(s') && Extends(s, s')
    ensures item.sheet in s'.loaded ==>
              && SlotOf(s'.added, item.sheet, item.index).Some?
              && item.itemType in s'.entries
              && s'.entries[item.itemType] == ItemEntry(item, Coords(SlotOf(s'.added, item.sheet, item.index).value, AtlasWidth))
    ensures SlotOf(s.added, item.sheet, item.index).Some? ==>
              s'.added == s.added && s'.draws == s.draws && s'.next == s.next
    ensures item.sheet in s'.loaded && SlotOf(s.added, item.sheet, item.index).None? ==>
              SlotOf(s'.added, item.sheet, item.index) == Some(s.next) && s'.next == s.next + 1
    ensures item.sheet !in s'.loaded ==> s' == s
  {
    if item.sheet in sheets && item.sheet !in s.loaded && ClassifyWidth(sheets[item.sheet].width).Some? {
      var image := sheets[item.sheet];
      var kind := ClassifyWidth(image.width).value;
      PlaceAssignsSlot(s.(loaded := s.loaded[item.sheet := BitmapSheet.TileMap(image.width, image.height, kind.size)]), item, s');
    } else if item.sheet in sheets && item.sheet in s.loaded {
      PlaceAssignsSlot(s, item, s');
    }
  }

  lemma PlaceAssignsSlot(s: PackState, item: Item, s': PackState)
    requires item.sheet in s.loaded && SlotsConsistent(s) && Place(s, item) == Next(s')
    ensures SlotsConsistent(s') && Extends(s, s') && s'.loaded == s.loaded
    ensures && SlotOf(s'.added, item.sheet, item.index).Some?
            && item.itemType in s'.entries
            && s'.entries[item.itemType] == ItemEntry(item, Coords(SlotOf(s'.added, item.sheet, item.index).value, AtlasWidth))
    ensures SlotOf(s.added, item.sheet, item.index).Some? ==>
              s'.added == s.added && s'.draws == s.draws && s'.next == s.next
    ensures SlotOf(s.added, item.sheet, item.index).None? ==>
              SlotOf(s'.added, item.sheet, item.index) == Some(s.next) && s'.next == s.next + 1
  {
    if SlotOf(s.added, item.sheet, item.index).None? {
      var cell := Coords(s.next, AtlasWidth);
      var d := Draw(item.sheet, item.index, s.loaded[item.sheet][SpriteKey(item)], cell.0, cell.1);
      assert s'.added == AddSlot(s.added, item.sheet, item.index, s.next) && s'.draws == s.draws + [d];
      NewSlotConsistent(s, item.sheet, item.index, d, s');
      SlotOfAddSlot(s.added, item.sheet, item.index, s.next, item.sheet, item.index);
    }
  }

  /** Giving a new sprite slot `next` and drawing it at that slot's cell keeps the bookkeeping. */
  lemma NewSlotConsistent(s: PackState, sheet: string, index: UShort, d: Draw, s': PackState)
    requires SlotsConsistent(s) && SlotOf(s.added, sheet, index).None?
    requires d.sheet == sheet && d.index == index && (d.x, d.y) == Coords(s.next, AtlasWidth)
    requires s'.added == AddSlot(s.added, sheet, index, s.next)
    requires s'.draws == s.draws + [d] && s'.next == s.next + 1
    ensures SlotsConsistent(s') && Extends(s, s')
  {
    forall sh, ix | SlotOf(s'.added, sh, ix).Some?
      ensures var slot := SlotOf(s'.added, sh, ix).value;
              1 <= slot < s'.next && s'.draws[slot - 1].sheet == sh && s'.draws[slot - 1].index == ix
    {
      SlotOfAddSlot(s.added, sheet, index, s.next, sh, ix);
    }
    forall j | 0 <= j < |s'.draws|
      ensures && SlotOf(s'.added, s'.draws[j].sheet, s'.draws[j].index) == Some(j + 1)
              && (s'.draws[j].x, s'.draws[j].y) == Coords(j + 1, AtlasWidth)
    {
      SlotOfAddSlot(s.added, sheet, index, s.next, s'.draws[j].sheet, s'.draws[j].index);
      if j < |s.draws| {
        assert s'.draws[j] == s.draws[j];
      }
    }
    forall sh, ix | SlotOf(s.added, sh, ix).Some?
      ensures SlotOf(s'.added, sh, ix) == SlotOf(s.added, sh, ix)
    {
      SlotOfAddSlot(s.added, sheet, index, s.next, sh, ix);
    }
  }

  /** The loop keeps the bookkeeping, keeps every slot, and takes one slot at most per item. */
  lemma {:induction false} PackKeepsSlots(s: PackState, items: seq<Item>, sheets: map<string, SheetImage>, s': PackState)
    requires ValidSheets(sheets) && SlotsConsistent(s) && PackFrom(s, items, sheets) == Completed(s')
    ensures SlotsConsistent(s') && Extends(s, s')
    ensures s'.next <= s.next + |items|
    decreases |items|
  {
    if items != [] {
      match Step(s, items[0], sheets)
      case Next(t) =>
        StepAssignsSlot(s, items[0], sheets, t);
        PackKeepsSlots(t, items[1..], sheets, s');
        ExtendsTransitive(s, t, s');
      case Break =>
      case Crash(_) =>
    }
  }

  /** No two sprites share a slot, and no two slots share an atlas cell. */
  lemma SlotsAreDistinct(s: PackState, sheet: string, index: UShort, sheet': string, index': UShort)
    requires SlotsConsistent(s) && (sheet != sheet' || index != index')
    requires SlotOf(s.added, sheet, index).Some? && SlotOf(s.added, sheet', index').Some?
    ensures SlotOf(s.added, sheet, index) != SlotOf(s.added, sheet', index')
    ensures Coords(SlotOf(s.added, sheet, index).value, AtlasWidth) != Coords(SlotOf(s.added, sheet', index').value, AtlasWidth)
  {
    CoordsInjective(SlotOf(s.added, sheet, index).value, SlotOf(s.added, sheet', index').value, AtlasWidth);
  }

  /** An item whose sheet has an unknown width is ignored, as if it were not in the list. */
  lemma UnknownWidthIsSkipped(s: PackState, item: Item, rest: seq<Item>, sheets: map<string, SheetImage>)
    requires ValidSheets(sheets) && item.sheet in sheets && item.sheet !in s.loaded
    requires ClassifyWidth(sheets[item.sheet].width).None?
    ensures PackFrom(s, [item] + rest, sheets) == PackFrom(s, rest, sheets)
  {
    assert ([item] + rest)[1..] == rest;
  }

  /**
   * An item whose sheet file is missing ends the loop: what comes after it is never
   * looked at, and the state is the one before it.
   */
  lemma {:induction false} MissingSheetStops(s: PackState, before: seq<Item>, item: Item, rest: seq<Item>, rest': seq<Item>,
                                             sheets: map<string, SheetImage>)
    requires ValidSheets(sheets) && item.sheet !in sheets
    decreases |before|
    ensures PackFrom(s, before + [item] + rest, sheets) == PackFrom(s, before + [item] + rest', sheets)
    ensures PackFrom(s, [item] + rest, sheets) == Completed(s)
  {
    if before != [] {
      assert (before + [item] + rest)[0] == before[0] && (before + [item] + rest)[1..] == before[1..] + [item] + rest;
      assert (before + [item] + rest')[0] == before[0] && (before + [item] + rest')[1..] == before[1..] + [item] + rest';
      match Step(s, before[0], sheets)
      case Next(t) => MissingSheetStops(t, before[1..], item, rest, rest', sheets);
      case Break =>
      case Crash(_) =>
    }
  }

  function Max(a: int, b: int): int
  {
    if a >= b then a else b
  }

  /** The height of rendersBitmap as written: max(itemCount / 25, 1) * 40. */
  function AtlasHeight(itemCount: nat): nat
  {
    Max(itemCount / 25, 1) * Cell
  }

  /**
   * With 24 or more items the height is too small: slot n lies at or below the bottom
   * edge, so when every item is a distinct sprite the last one is clipped away.
   */
  lemma AtlasClipsLastSlot(n: nat)
    requires n >= 24
    ensures Coords(n, AtlasWidth).1 >= AtlasHeight(n)
    ensures AtlasHeight(24) == 40 && Coords(24, AtlasWidth) == (0, 40)
  {
    AtlasCoords(n);
    AtlasCoords(24);
  }

  /** A run that draws a distinct sprite for each of its 24 or more items draws the last one off the atlas. */
  lemma AtlasClipsRun(items: seq<Item>, sheets: map<string, SheetImage>, s': PackState)
    requires ValidSheets(sheets) && PackFrom(Initial, items, sheets) == Completed(s')
    requires |items| >= 24 && |s'.draws| == |items|
    ensures s'.draws[|items| - 1].y >= AtlasHeight(|items|)
  {
    InitialConsistent();
    PackKeepsSlots(Initial, items, sheets, s');
    AtlasClipsLastSlot(|items|);
  }

  /** The height the atlas needs: the row of the last possible slot, plus one. */
  function FittingAtlasHeight(itemCount: nat): nat
  {
    ((itemCount + 1) / 25 + 1) * Cell
  }

  /**
   * Every slot from 1 to n has its whole cell inside the 1000 by FittingAtlasHeight(n)
   * atlas, and slot n touches the bottom, so no smaller height fits.
   */
  lemma SlotsFitAtlas(n: nat, slot: nat)
    requires 1 <= slot <= n
    ensures var (x, y) := Coords(slot, AtlasWidth);
            0 <= x && x + Cell <= AtlasWidth && 0 <= y && y + Cell <= FittingAtlasHeight(n)
    ensures Coords(n, AtlasWidth).1 + Cell == FittingAtlasHeight(n)
  {
    AtlasCoords(slot);
    AtlasCoords(n);
    assert (slot + 1) / 25 <= (n + 1) / 25;
  }

  /** In a state keeping the slot invariant, after at most n slots, every draw lies inside the corrected atlas. */
  lemma ConsistentDrawsFit(s: PackState, n: nat, k: nat)
    requires SlotsConsistent(s) && s.next <= 1 + n && k < |s.draws|
    ensures 0 <= s.draws[k].x && s.draws[k].x + Cell <= AtlasWidth
    ensures 0 <= s.draws[k].y && s.draws[k].y + Cell <= FittingAtlasHeight(n)
  {
    SlotsFitAtlas(n, k + 1);
  }

  /** Every sprite a run draws lies wholly inside a 1000 by FittingAtlasHeight(item count) atlas. */
  lemma DrawsFitAtlas(items: seq<Item>, sheets: map<string, SheetImage>, s': PackState, k: nat)
    requires ValidSheets(sheets) && PackFrom(Initial, items, sheets) == Completed(s') && k < |s'.draws|
    ensures 0 <= s'.draws[k].x && s'.draws[k].x + Cell <= AtlasWidth
    ensures 0 <= s'.draws[k].y && s'.draws[k].y + Cell <= FittingAtlasHeight(|items|)
  {
    InitialConsistent();
    PackKeepsSlots(Initial, items, sheets, s');
    ConsistentDrawsFit(s', |items|, k);
  }
}
