/**
 * The snapshot-based edit history of the map editor: the current map, an undo
 * stack and a redo stack of full map snapshots, most recent last.
 *
 * The functions here are the specification the MapEditor class methods are
 * proved against; the lemmas state what undo and redo promise across calls.
 */
module EditHistory {
  import opened TileGrid

  /** The editor's map together with both snapshot stacks. */
  datatype History = History(grid: Grid, undo: seq<Grid>, redo: seq<Grid>)

  /** The map and every snapshot on both stacks are `width` x `height`. */
  predicate Shaped(h: History, width: nat, height: nat)
  {
    && Rect(h.grid, width, height)
    && (forall i :: 0 <= i < |h.undo| ==> Rect(h.undo[i], width, height))
    && (forall i :: 0 <= i < |h.redo| ==> Rect(h.redo[i], width, height))
  }

  /**
   * `push_state`: the current map becomes the new top of the undo stack, the
   * rest of the undo stack is kept, the redo stack is invalidated and the map
   * itself is untouched.
   */
  function Pushed(h: History): (r: History)
    ensures r.grid == h.grid && r.redo == []
    ensures |r.undo| == |h.undo| + 1 && r.undo[..|h.undo|] == h.undo && r.undo[|h.undo|] == h.grid
    ensures forall w, ht :: Shaped(h, w, ht) ==> Shaped(r, w, ht)
  {
    History(h.grid, h.undo + [h.grid], [])
  }

  /**
   * `undo`: nothing happens on an empty undo stack; otherwise the current map
   * goes on top of the redo stack and the top of the undo stack, removed from
   * it, becomes the map. The total number of snapshots is kept.
   */
  function Undone(h: History): (r: History)
    ensures |r.undo| + |r.redo| == |h.undo| + |h.redo|
    ensures h.undo == [] ==> r == h
    ensures h.undo != [] ==> r.undo + [r.grid] == h.undo && r.redo == h.redo + [h.grid]
    ensures forall w, ht :: Shaped(h, w, ht) ==> Shaped(r, w, ht)
  {
    if h.undo == [] then h
    else History(h.undo[|h.undo| - 1], h.undo[..|h.undo| - 1], h.redo + [h.grid])
  }

  /** `redo`: the mirror image of `Undone`, with the two stacks exchanged. */
  function Redone(h: History): (r: History)
    ensures |r.undo| + |r.redo| == |h.undo| + |h.redo|
    ensures h.redo == [] ==> r == h
    ensures h.redo != [] ==> r.redo + [r.grid] == h.redo && r.undo == h.undo + [h.grid]
    ensures forall w, ht :: Shaped(h, w, ht) ==> Shaped(r, w, ht)
  {
    if h.redo == [] then h
    else History(h.redo[|h.redo| - 1], h.undo + [h.grid], h.redo[..|h.redo| - 1])
  }

  /**
   * One paint edit: snapshot the map, then write `t` into cell (row, col).
   * The pre-paint map is the new undo top, redo is empty, and only that one
   * cell of the map differs.
   */
  function Painted(h: History, row: nat, col: nat, t: Tile): (r: History)
    requires row < |h.grid| && col < |h.grid[row]|
    ensures r.undo == h.undo + [h.grid] && r.redo == []
    ensures |r.grid| == |h.grid| && forall i :: 0 <= i < |h.grid| ==> |r.grid[i]| == |h.grid[i]|
    ensures r.grid[row][col] == t
    ensures forall i, j :: 0 <= i < |h.grid| && 0 <= j < |h.grid[i]| && (i, j) != (row, col) ==> r.grid[i][j] == h.grid[i][j]
    ensures forall w, ht :: Shaped(h, w, ht) ==> Shaped(r, w, ht)
  {
    var p := Pushed(h);
    p.(grid := SetCell(p.grid, row, col, t))
  }

  /** A paint edit at an in-range cell. */
  datatype Edit = Edit(row: nat, col: nat, tile: Tile)

  predicate EditsInRange(edits: seq<Edit>, width: nat, height: nat)
  {
    forall i :: 0 <= i < |edits| ==> edits[i].row < height && edits[i].col < width
  }

  /** The edits applied in order; each one pushes exactly one snapshot. */
  function PaintAll(h: History, edits: seq<Edit>, width: nat, height: nat): (r: History)
    requires Shaped(h, width, height) && EditsInRange(edits, width, height)
    ensures Shaped(r, width, height)
    ensures |r.undo| == |h.undo| + |edits| && r.undo[..|h.undo|] == h.undo
    ensures edits != [] ==> r.redo == [] && r.undo[|h.undo|] == h.grid
    decreases |edits|
  {
    if edits == [] then h
    else PaintAll(Painted(h, edits[0].row, edits[0].col, edits[0].tile), edits[1..], width, height)
  }

  /** `n` undos in a row. */
  function UndoneN(h: History, n: nat): (r: History)
    ensures |r.undo| + |r.redo| == |h.undo| + |h.redo|
    ensures n <= |h.undo| ==> |r.undo| == |h.undo| - n
  {
    if n == 0 then h else Undone(UndoneN(h, n - 1))
  }

  /**
   * Undo followed by redo restores everything, except when the undo stack is
   * empty while the redo stack is not (see the counterexample below).
   */
  lemma UndoThenRedo(h: History)
    requires h.undo != [] || h.redo == []
    ensures Redone(Undone(h)) == h
  {
    if h.undo != [] {
      var u := Undone(h);
      assert u.undo + [u.grid] == h.undo;
    }
  }

  /**
   * The round trip fails from an empty undo stack with a different map on
   * redo (the state after paint, undo): undo does nothing, and redo then
   * brings back the redo top.
   */
  lemma UndoThenRedoCounterexample(g0: Grid, g1: Grid)
    requires g0 != g1
    ensures Redone(Undone(History(g0, [], [g1]))).grid == g1 != g0
  {
  }

  /** Redo followed by undo restores everything, except when the redo stack is empty while the undo stack is not. */
  lemma RedoThenUndo(h: History)
    requires h.redo != [] || h.undo == []
    ensures Undone(Redone(h)) == h
  {
    if h.redo != [] {
      var r := Redone(h);
      assert r.redo + [r.grid] == h.redo;
    }
  }

  /**
   * Undoing a paint brings back the map and the undo stack; the redo stack
   * then holds exactly the painted map.
   */
  lemma UndoPaint(h: History, row: nat, col: nat, t: Tile)
    requires row < |h.grid| && col < |h.grid[row]|
    ensures Undone(Painted(h, row, col, t)) == History(h.grid, h.undo, [Painted(h, row, col, t).grid])
  {
    var p := Painted(h, row, col, t);
    assert p.undo[..|p.undo| - 1] == h.undo;
  }

  /**
   * Any paint invalidates redo: after a paint, whatever preceded it (in
   * particular paint, undo), redo changes nothing.
   */
  lemma RedoAfterPaint(h: History, row: nat, col: nat, t: Tile)
    requires row < |h.grid| && col < |h.grid[row]|
    ensures Redone(Painted(h, row, col, t)) == Painted(h, row, col, t)
  {
  }

  /** N paint edits followed by N undos give back the original map and undo stack. */
  lemma {:induction false} PaintAllThenUndoAll(h: History, edits: seq<Edit>, width: nat, height: nat)
    requires Shaped(h, width, height) && EditsInRange(edits, width, height)
    ensures UndoneN(PaintAll(h, edits, width, height), |edits|).grid == h.grid
    ensures UndoneN(PaintAll(h, edits, width, height), |edits|).undo == h.undo
    decreases |edits|
  {
    if edits != [] {
      var e := edits[0];
      var p := Painted(h, e.row, e.col, e.tile);
      var rest := edits[1..];
      assert EditsInRange(rest, width, height);
      PaintAllThenUndoAll(p, rest, width, height);
      var mid := UndoneN(PaintAll(p, rest, width, height), |rest|);
      assert PaintAll(h, edits, width, height) == PaintAll(p, rest, width, height);
      assert UndoneN(PaintAll(h, edits, width, height), |edits|) == Undone(mid);
      assert mid.undo == h.undo + [h.grid];
    }
  }
}
