/**
 * The interactive tile-map editor: hit-testing of mouse clicks against the
 * map rectangle and the tile palette, and the MapEditor object whose map,
 * undo stack, redo stack and selected tile change in place.
 */
module MapEditing {
  import opened Wrappers
  import opened TileGrid
  import opened EditHistory

  /** Side of one map tile, in pixels. */
  const TileSize: nat := 32
  /** Top-left corner of the map on screen (it is blitted right of the palette). */
  const MapOffsetX: int := TileSize * 4 + 50
  const MapOffsetY: int := 20
  /** Palette slot `i` is a 64x64 square at (20, 20 + 74 i). */
  const PaletteX: int := 20
  const PaletteY: int := 20
  const SlotSize: int := TileSize * 2
  const SlotPitch: int := TileSize * 2 + 10

  /** pygame key codes the editor reacts to. */
  const KeyZ: int := 122
  const KeyY: int := 121
  const KeyR: int := 114

  /** A map cell. */
  datatype Cell = Cell(row: nat, col: nat)

  /**
   * `pygame.Rect(MapOffsetX, MapOffsetY, width * TileSize, height * TileSize).collidepoint((x, y))`:
   * the rectangle is half-open on its right and bottom edges.
   */
  predicate InMapRect(x: int, y: int, width: nat, height: nat)
  {
    MapOffsetX <= x < MapOffsetX + width * TileSize && MapOffsetY <= y < MapOffsetY + height * TileSize
  }

  /**
   * The cell under pixel (x, y), if the pixel is inside the map rectangle.
   * The returned cell is always in range and its square contains the pixel.
   */
  function CellAt(x: int, y: int, width: nat, height: nat): (r: Option<Cell>)
    ensures r.Some? <==> InMapRect(x, y, width, height)
    ensures r.Some? ==> r.value.row < height && r.value.col < width
    ensures r.Some? ==> r.value.col * TileSize <= x - MapOffsetX < (r.value.col + 1) * TileSize
    ensures r.Some? ==> r.value.row * TileSize <= y - MapOffsetY < (r.value.row + 1) * TileSize
  {
    if InMapRect(x, y, width, height) then
      Some(Cell((y - MapOffsetY) / TileSize, (x - MapOffsetX) / TileSize))
    else
      None
  }

  /**
   * A mouse click at (x, y) on the map with tile `t` selected. Outside the
   * map rectangle nothing changes. Inside, the pre-click map is pushed on
   * the undo stack, redo is cleared and exactly the clicked cell becomes `t`,
   * even when it already held `t`.
   */
  function Click(h: History, t: Tile, x: int, y: int, width: nat, height: nat): (r: History)
    requires Shaped(h, width, height)
    ensures Shaped(r, width, height)
    ensures !InMapRect(x, y, width, height) ==> r == h
    ensures InMapRect(x, y, width, height) ==>
      var c := CellAt(x, y, width, height).value;
      && r.undo == h.undo + [h.grid] && r.redo == []
      && r.grid[c.row][c.col] == t
      && forall i, j :: 0 <= i < height && 0 <= j < width && (i, j) != (c.row, c.col) ==> r.grid[i][j] == h.grid[i][j]
  {
    match CellAt(x, y, width, height)
    case None => h
    case Some(c) => Painted(h, c.row, c.col, t)
  }

  /** Clicking a cell that already holds the selected tile still records a snapshot. */
  lemma ClickSameTile(h: History, t: Tile, x: int, y: int, width: nat, height: nat)
    requires Shaped(h, width, height) && InMapRect(x, y, width, height)
    requires var c := CellAt(x, y, width, height).value; h.grid[c.row][c.col] == t
    ensures Click(h, t, x, y, width, height).grid == h.grid
    ensures |Click(h, t, x, y, width, height).undo| == |h.undo| + 1
  {
    var r := Click(h, t, x, y, width, height);
    forall i | 0 <= i < height ensures r.grid[i] == h.grid[i] {
    }
  }

  /** Pixel (x, y) lies in palette slot `i`. */
  predicate InSlot(i: nat, x: int, y: int)
  {
    PaletteX <= x < PaletteX + SlotSize && PaletteY + i * SlotPitch <= y < PaletteY + i * SlotPitch + SlotSize
  }

  /** A pixel in slot `i` determines `i`: it is the quotient of its offset by the pitch. */
  lemma SlotIndex(i: nat, x: int, y: int)
    requires InSlot(i, x, y)
    ensures (y - PaletteY) / SlotPitch == i && (y - PaletteY) % SlotPitch < SlotSize
  {
    var d := y - PaletteY - i * SlotPitch;
    assert y - PaletteY == SlotPitch * i + d && 0 <= d < SlotSize;
  }

  /** Slots never overlap, so the first slot that contains a pixel is the only one. */
  lemma SlotsDisjoint(i: nat, j: nat, x: int, y: int)
    requires InSlot(i, x, y) && InSlot(j, x, y)
    ensures i == j
  {
    SlotIndex(i, x, y);
    SlotIndex(j, x, y);
  }

  /**
   * The palette slot among the first `n` under pixel (x, y), computed in
   * closed form; `None` exactly when no slot contains the pixel.
   */
  function SlotAt(n: nat, x: int, y: int): (r: Option<nat>)
    ensures r.Some? ==> r.value < n && InSlot(r.value, x, y)
    ensures r.None? ==> forall i :: 0 <= i < n ==> !InSlot(i, x, y)
  {
    if PaletteX <= x < PaletteX + SlotSize && PaletteY <= y
       && (y - PaletteY) % SlotPitch < SlotSize && (y - PaletteY) / SlotPitch < n
    then
      Some((y - PaletteY) / SlotPitch)
    else
      assert forall i :: 0 <= i < n && InSlot(i, x, y) ==> (y - PaletteY) / SlotPitch == i && (y - PaletteY) % SlotPitch < SlotSize
        by { forall i | 0 <= i < n && InSlot(i, x, y) { SlotIndex(i, x, y); } }
      None
  }

  /** A pixel inside slot `i` of a palette of `n` slots is reported as slot `i`. */
  lemma SlotAtHit(n: nat, i: nat, x: int, y: int)
    requires i < n && InSlot(i, x, y)
    ensures SlotAt(n, x, y) == Some(i)
  {
    SlotIndex(i, x, y);
  }

  /**
   * The editor object. `grid` is the source's `map` attribute. Every
   * snapshot has the dimensions fixed when the map was loaded, and the
   * selected tile is always a palette key.
   */
  class MapEditor {
    var grid: Grid
    var undoStack: seq<Grid>
    var redoStack: seq<Grid>
    var selectedTile: Tile
    const tileKeys: seq<Tile>
    const mapWidth: nat
    const mapHeight: nat
    /** What the map file holds after the last save (file I/O itself is not modelled). */
    ghost var savedMap: Grid

    /** The map and both stacks, as a value. */
    function State(): History
      reads this
    {
      History(grid, undoStack, redoStack)
    }

    ghost predicate Valid()
      reads this
    {
      && |tileKeys| > 0
      && selectedTile in tileKeys
      && mapHeight > 0
      && Shaped(State(), mapWidth, mapHeight)
    }

    /**
     * A new editor over the palette `keys` and the map `loaded` read from the
     * map file: the first key is selected and both stacks are empty.
     */
    constructor (keys: seq<Tile>, loaded: Grid)
      requires |keys| > 0
      requires |loaded| > 0 && Rect(loaded, |loaded[0]|, |loaded|)
      ensures Valid()
      ensures grid == loaded && undoStack == [] && redoStack == []
      ensures tileKeys == keys && selectedTile == keys[0]
      ensures mapWidth == |loaded[0]| && mapHeight == |loaded|
      ensures savedMap == loaded
    {
      tileKeys := keys;
      selectedTile := keys[0];
      undoStack := [];
      redoStack := [];
      grid := loaded;
      mapWidth := |loaded[0]|;
      mapHeight := |loaded|;
      savedMap := loaded;
    }

    /** Snapshot the map onto the undo stack and clear the redo stack. */
    method PushState()
      requires Valid()
      modifies this
      ensures Valid()
      ensures State() == Pushed(old(State()))
      ensures selectedTile == old(selectedTile) && savedMap == old(savedMap)
    {
      undoStack := undoStack + [grid];
      redoStack := [];
    }

    /** Restore the last snapshot, keeping the current map for redo; save when something was undone. */
    method Undo()
      requires Valid()
      modifies this
      ensures Valid()
      ensures State() == Undone(old(State()))
      ensures selectedTile == old(selectedTile)
      ensures savedMap == if old(undoStack) == [] then old(savedMap) else grid
    {
      if undoStack != [] {
        redoStack := redoStack + [grid];
        grid := undoStack[|undoStack| - 1];
        undoStack := undoStack[..|undoStack| - 1];
        savedMap := grid;
      }
    }

    /** Reapply the last undone snapshot, keeping the current map for undo; save when something was redone. */
    method Redo()
      requires Valid()
      modifies this
      ensures Valid()
      ensures State() == Redone(old(State()))
      ensures selectedTile == old(selectedTile)
      ensures savedMap == if old(redoStack) == [] then old(savedMap) else grid
    {
      if redoStack != [] {
        undoStack := undoStack + [grid];
        grid := redoStack[|redoStack| - 1];
        redoStack := redoStack[..|redoStack| - 1];
        savedMap := grid;
      }
    }

    /** Key presses: z undoes, y redoes, r saves; every other key is ignored here. */
    method KeyDown(key: int)
      requires Valid()
      modifies this
      ensures Valid()
      ensures State() == (if key == KeyZ then Undone(old(State()))
                          else if key == KeyY then Redone(old(State()))
                          else old(State()))
      ensures selectedTile == old(selectedTile)
      ensures savedMap == (if key == KeyR || State() != old(State()) then grid else old(savedMap))
    {
      if key == KeyZ {
        Undo();
      }
      if key == KeyY {
        Redo();
      }
      if key == KeyR {
        savedMap := grid;
      }
    }

    /** The map-painting part of a mouse click. */
    method ClickMap(x: int, y: int)
      requires Valid()
      modifies this
      ensures Valid()
      ensures State() == Click(old(State()), selectedTile, x, y, mapWidth, mapHeight)
      ensures selectedTile == old(selectedTile) && savedMap == old(savedMap)
    {
      var mapRectWidth := mapWidth * TileSize;
      var mapRectHeight := mapHeight * TileSize;
      if MapOffsetX <= x < MapOffsetX + mapRectWidth && MapOffsetY <= y < MapOffsetY + mapRectHeight {
        var relativeX := x - MapOffsetX;
        var relativeY := y - MapOffsetY;
        var col := relativeX / TileSize;
        var row := relativeY / TileSize;
        if row < mapHeight && col < mapWidth {
          PushState();
          grid := grid[row := grid[row][col := selectedTile]];
        }
      }
    }

    /** The palette part of a mouse click: select the key of the first slot containing the pixel. */
    method ClickPalette(x: int, y: int)
      requires Valid()
      modifies this`selectedTile
      ensures Valid()
      ensures selectedTile == match SlotAt(|tileKeys|, x, y)
                              case Some(i) => tileKeys[i]
                              case None => old(selectedTile)
    {
      for i := 0 to |tileKeys|
        invariant forall j :: 0 <= j < i ==> !InSlot(j, x, y)
        invariant selectedTile == old(selectedTile)
      {
        if InSlot(i, x, y) {
          SlotAtHit(|tileKeys|, i, x, y);
          selectedTile := tileKeys[i];
          break;
        }
      }
    }

    /**
     * A mouse-button press at (x, y): first the map is painted with the tile
     * selected before the click, then the palette selection is updated.
     */
    method MouseDown(x: int, y: int)
      requires Valid()
      modifies this
      ensures Valid()
      ensures State() == Click(old(State()), old(selectedTile), x, y, mapWidth, mapHeight)
      ensures selectedTile == match SlotAt(|tileKeys|, x, y)
                              case Some(i) => tileKeys[i]
                              case None => old(selectedTile)
      ensures savedMap == old(savedMap)
    {
      ClickMap(x, y);
      ClickPalette(x, y);
    }
  }
}
