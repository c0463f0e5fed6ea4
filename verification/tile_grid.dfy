/**
 * The tile map of the editor: a 2D list of tile keys, one list per row.
 */
module TileGrid {

  /** A tile key: the base name of a tile image, used both in the palette and in map cells. */
  type Tile = string

  /** A map (or a snapshot of one): `g[row][col]` is the tile key of a cell. */
  type Grid = seq<seq<Tile>>

  /** `g` has `height` rows of exactly `width` cells each. */
  predicate Rect(g: Grid, width: nat, height: nat)
  {
    |g| == height && forall row :: 0 <= row < |g| ==> |g[row]| == width
  }

  /**
   * The map after `map[row][col] = t`: that one cell holds `t`, every other
   * cell and every row length are as before.
   */
  function SetCell(g: Grid, row: nat, col: nat, t: Tile): (r: Grid)
    requires row < |g| && col < |g[row]|
    ensures |r| == |g|
    ensures forall i :: 0 <= i < |g| ==> |r[i]| == |g[i]|
    ensures r[row][col] == t
    ensures forall i, j :: 0 <= i < |g| && 0 <= j < |g[i]| && (i, j) != (row, col) ==> r[i][j] == g[i][j]
    ensures forall w, h :: Rect(g, w, h) ==> Rect(r, w, h)
  {
    g[row := g[row][col := t]]
  }
}
