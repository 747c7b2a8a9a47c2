/** The game board of the snake server as a value: a square grid of tiles
    indexed by [x, y] coordinates. The imperative board (an `array2`) in
    module GameStates is tied to these values through `GameStates.Cells`. */
module Board {

  /** Side length of the square board. */
  const GameSize: int := 40

  /** A board cell. `Empty` stands for the `null` the server stores in a cell
      that holds neither food nor a snake. */
  datatype GameTile = Empty | FoodBonus | FoodMalus | SnakeTile

  /** A board coordinate; `x` indexes the first dimension of the board and
      `y` the second. */
  datatype Coord = Coord(x: int, y: int)

  type Grid = seq<seq<GameTile>>

  predicate InBounds(c: Coord) {
    0 <= c.x < GameSize && 0 <= c.y < GameSize
  }

  predicate IsGrid(g: Grid) {
    |g| == GameSize && forall i :: 0 <= i < |g| ==> |g[i]| == GameSize
  }

  predicate AllInBounds(cells: seq<Coord>) {
    forall i :: 0 <= i < |cells| ==> InBounds(cells[i])
  }

  function At(g: Grid, c: Coord): (t: GameTile)
    requires IsGrid(g) && InBounds(c)
  {
    g[c.x][c.y]
  }

  /** The grid with cell `c` set to `t`; every other cell keeps its tile. */
  function Put(g: Grid, c: Coord, t: GameTile): (r: Grid)
    requires IsGrid(g) && InBounds(c)
    ensures IsGrid(r)
    ensures At(r, c) == t
    ensures forall d :: InBounds(d) && d != c ==> At(r, d) == At(g, d)
  {
    g[c.x := g[c.x][c.y := t]]
  }

  /** Two grids that agree on every cell are the same grid. */
  lemma GridsAgree(g: Grid, h: Grid)
    requires IsGrid(g) && IsGrid(h)
    requires forall c :: InBounds(c) ==> At(g, c) == At(h, c)
    ensures g == h
  {
    forall i | 0 <= i < GameSize ensures g[i] == h[i] {
      forall j | 0 <= j < GameSize ensures g[i][j] == h[i][j] {
        assert At(g, Coord(i, j)) == At(h, Coord(i, j));
      }
    }
  }

  /** A board on which every cell is empty, as a freshly allocated Java
      `GameTile[GAME_SIZE][GAME_SIZE]` is. */
  function EmptyGrid(): (r: Grid)
    ensures IsGrid(r)
    ensures forall c :: InBounds(c) ==> At(r, c) == Empty
  {
    seq(GameSize, _ => seq(GameSize, _ => Empty))
  }

  /** Empties the cells of `cells`, last cell first, as the server does when
      it removes a body from the tail end until nothing is left. */
  function Clear(g: Grid, cells: seq<Coord>): (r: Grid)
    requires IsGrid(g) && AllInBounds(cells)
    ensures IsGrid(r)
    decreases |cells|
  {
    if cells == [] then g
    else Clear(Put(g, cells[|cells| - 1], Empty), cells[..|cells| - 1])
  }

  /** After `Clear`, a cell is empty exactly when it was one of the cleared
      cells or was empty before; every other cell keeps its tile. */
  lemma {:induction false} ClearAt(g: Grid, cells: seq<Coord>, p: Coord)
    requires IsGrid(g) && AllInBounds(cells) && InBounds(p)
    ensures At(Clear(g, cells), p) == if p in cells then Empty else At(g, p)
    decreases |cells|
  {
    if cells != [] {
      var n := |cells|;
      var front := cells[..n - 1];
      ClearAt(Put(g, cells[n - 1], Empty), front, p);
      assert cells == front + [cells[n - 1]];
      assert p in cells <==> p in front || p == cells[n - 1];
    }
  }
}
