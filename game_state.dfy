/** The server's game state: the board array, the map from snake id to the
    snake's body model, and the per-snake score and alive flag. Every method
    here changes the heap the way the server does and is proved against the
    value-level rules of modules Board and Movement. */
module GameStates {
  import opened Board
  import opened Movement

  /** The score and alive flag that a snake's body model updates. */
  class Snake {
    const snakeId: int
    var score: int
    var alive: bool

    constructor (snakeId: int)
      ensures this.snakeId == snakeId && score == 0 && alive
    {
      this.snakeId := snakeId;
      score := 0;
      alive := true;
    }

    method AdjustScore(change: int)
      modifies this
      ensures score == old(score) + change && alive == old(alive)
    {
      score := score + change;
    }

    method SetAlive(alive: bool)
      modifies this
      ensures this.alive == alive && score == old(score)
    {
      this.alive := alive;
    }
  }

  /** The tiles of a board array, as a grid value. */
  ghost function Cells(a: array2<GameTile>): (g: Grid)
    reads a
    requires a.Length0 == GameSize && a.Length1 == GameSize
    ensures IsGrid(g)
    ensures forall c :: InBounds(c) ==> At(g, c) == a[c.x, c.y]
  {
    seq(GameSize, i reads a requires 0 <= i < GameSize =>
      seq(GameSize, j reads a requires 0 <= j < GameSize => a[i, j]))
  }

  /** One snake's body on the board: a head-first list of cells, the snake
      whose score and alive flag it updates, and the game state whose board
      it draws on (the enclosing instance of the inner class). */
  class SnakeModel {
    var model: seq<Coord>
    const snake: Snake
    const outer: GameState

    ghost predicate Valid()
      reads this
    {
      outer.BoardShaped() && AllInBounds(model)
    }

    /** A one-cell body at `head`, marked on the board. */
    constructor (outer: GameState, head: Coord, snake: Snake)
      requires outer.BoardShaped() && InBounds(head)
      modifies outer.board
      ensures Valid()
      ensures model == [head] && this.snake == snake && this.outer == outer
      ensures Cells(outer.board) == Put(old(Cells(outer.board)), head, SnakeTile)
    {
      this.snake := snake;
      this.outer := outer;
      model := [head];
      new;
      outer.SetGameTile(head, SnakeTile);
    }

    /** A copy with its own list of the same cells and the same snake. */
    constructor Copy(outer: GameState, other: SnakeModel)
      requires outer.BoardShaped() && AllInBounds(other.model)
      ensures Valid()
      ensures model == other.model && snake == other.snake && this.outer == outer
    {
      model := other.model;
      snake := other.snake;
      this.outer := outer;
    }

    /** Whether some cell of the body is (row, column). */
    method OccupiesTile(row: int, column: int) returns (r: bool)
      ensures r <==> Coord(row, column) in model
    {
      for i := 0 to |model|
        invariant forall k :: 0 <= k < i ==> model[k] != Coord(row, column)
      {
        var coordinate := model[i];
        if coordinate.x == row && coordinate.y == column {
          return true;
        }
      }
      return false;
    }

    /** The cell the head moves to in direction `dir`. */
    method GetNewHead(dir: Direction) returns (newHead: Coord)
      requires Valid() && model != []
      ensures newHead == NewHead(model[0], dir) && InBounds(newHead)
    {
      var head := model[0];
      var x, y := head.x, head.y;
      match dir {
        case Up => y := JavaRem(GameSize + y - 1, GameSize);
        case Down => y := JavaRem(y + 1, GameSize);
        case Left => x := JavaRem(GameSize + x - 1, GameSize);
        case Right => x := JavaRem(x + 1, GameSize);
      }
      newHead := Coord(x, y);
    }

    /** One move in direction `dir`. `ok` is false when the move stops with
        the exception thrown by removing from an empty list. */
    method MoveSnake(dir: Direction) returns (ok: bool)
      requires Valid() && model != []
      modifies this, outer.board, snake
      ensures Valid()
      ensures var r := Move(old(Cells(outer.board)), old(model), dir);
        && ok == (r.outcome != TailUnderflow)
        && Cells(outer.board) == r.grid
        && model == r.body
        && snake.score == old(snake.score) + r.scoreDelta
        && snake.alive == (old(snake.alive) && !r.killed)
    {
      ghost var g0 := Cells(outer.board);
      ghost var body0 := model;
      var newHead := GetNewHead(dir);
      var tile := outer.board[newHead.x, newHead.y];
      assert At(g0, newHead) == tile;
      if tile == FoodBonus {
        snake.AdjustScore(1);
        outer.SetGameTile(newHead, SnakeTile);
      } else if tile == FoodMalus {
        ok := EatMalus(newHead);
        if !ok {
          return;
        }
      } else if tile == SnakeTile {
        ClearBody();
        snake.SetAlive(false);
      } else {
        DropTail();
        outer.SetGameTile(newHead, SnakeTile);
      }
      model := [newHead] + model;
      ok := true;
    }

    /** The malus branch of a move up to placing the head: removes the last
        two cells, emptying their tiles, loses a point and, when nothing is
        left, sets the snake dead. On a one-cell body the second removal
        fails (`ok` false) after the first has emptied the list. */
    method EatMalus(newHead: Coord) returns (ok: bool)
      requires Valid() && model != [] && InBounds(newHead)
      modifies this, outer.board, snake
      ensures Valid()
      ensures ok == (|old(model)| >= 2)
      ensures var n := |old(model)|; var g0 := old(Cells(outer.board));
        if ok then
          && model == old(model)[..n - 2]
          && Cells(outer.board) ==
             Put(Put(Put(g0, old(model)[n - 1], Empty), old(model)[n - 2], Empty), newHead, SnakeTile)
          && snake.score == old(snake.score) - 1
          && snake.alive == (old(snake.alive) && model != [])
        else
          && model == []
          && Cells(outer.board) == Put(g0, old(model)[0], Empty)
          && snake.score == old(snake.score) && snake.alive == old(snake.alive)
    {
      DropTail();
      if model == [] {
        // the second removal finds the list empty and throws
        return false;
      }
      DropTail();
      snake.AdjustScore(-1);
      if model == [] {
        snake.SetAlive(false);
      }
      outer.SetGameTile(newHead, SnakeTile);
      ok := true;
    }

    /** Removes the last cell of the body and empties its tile. */
    method DropTail()
      requires Valid() && model != []
      modifies this, outer.board
      ensures Valid()
      ensures model == old(model)[..|old(model)| - 1]
      ensures Cells(outer.board) == Put(old(Cells(outer.board)), old(model)[|old(model)| - 1], Empty)
    {
      var tail := model[|model| - 1];
      model := model[..|model| - 1];
      outer.SetGameTile(tail, Empty);
    }

    /** Removes every cell from the tail end, emptying each tile. */
    method ClearBody()
      requires Valid()
      modifies this, outer.board
      ensures Valid() && model == []
      ensures Cells(outer.board) == Clear(old(Cells(outer.board)), old(model))
    {
      while model != []
        invariant Valid()
        invariant Clear(Cells(outer.board), model) == Clear(old(Cells(outer.board)), old(model))
        decreases |model|
      {
        DropTail();
      }
    }
  }

  /** The board and the snake models of one game. */
  class GameState {
    const board: array2<GameTile>
    var snakeModels: map<int, SnakeModel>

    predicate BoardShaped() {
      board.Length0 == GameSize && board.Length1 == GameSize
    }

    ghost predicate Valid()
      reads this, snakeModels.Values
    {
      BoardShaped() && forall id :: id in snakeModels ==> snakeModels[id].Valid()
    }

    /** An empty board and no snakes. */
    constructor ()
      ensures Valid() && fresh(board)
      ensures Cells(board) == EmptyGrid() && snakeModels == map[]
    {
      board := new GameTile[GameSize, GameSize]((i, j) => Empty);
      snakeModels := map[];
      new;
      GridsAgree(Cells(board), EmptyGrid());
    }

    /** A copy of `gameState`: its own board with the same tiles, and for
        every snake id a new model with the same cells and snake. The new
        models are made by `gameState`, so their enclosing instance, whose
        board a move of theirs writes, is `gameState`, not the copy. */
    constructor Copy(gameState: GameState)
      requires gameState.Valid()
      ensures Valid() && fresh(board)
      ensures Cells(board) == Cells(gameState.board)
      ensures snakeModels.Keys == gameState.snakeModels.Keys
      ensures forall id :: id in snakeModels ==>
        && fresh(snakeModels[id])
        && snakeModels[id].model == gameState.snakeModels[id].model
        && snakeModels[id].snake == gameState.snakeModels[id].snake
        && snakeModels[id].outer == gameState
    {
      var boardCopy := gameState.CloneGameBoard();
      var modelsCopy := gameState.CloneSnakeModels();
      board := boardCopy;
      snakeModels := modelsCopy;
    }

    /** Adds a one-cell model for `snake` on a previously empty cell, under
        the snake's id (replacing any model already held under that id). */
    method AddSnakeModel(snake: Snake)
      requires Valid() && HasEmptyTile(Cells(board))
      modifies this, board
      ensures Valid()
      ensures snake.snakeId in snakeModels
      ensures var m := snakeModels[snake.snakeId];
        && fresh(m) && m.snake == snake && m.outer == this
        && |m.model| == 1 && At(old(Cells(board)), m.model[0]) == Empty
        && Cells(board) == Put(old(Cells(board)), m.model[0], SnakeTile)
        && snakeModels == old(snakeModels)[snake.snakeId := m]
    {
      var startLocation := RandomEmptyTile();
      var newSnake := new SnakeModel(this, startLocation, snake);
      snakeModels := snakeModels[snake.snakeId := newSnake];
    }

    /** Puts one bonus and one malus food on two distinct, previously empty
        cells. */
    method AddFood()
      requires BoardShaped() && HasTwoEmptyTiles(Cells(board))
      modifies board
      ensures exists bonus, malus ::
        && InBounds(bonus) && InBounds(malus) && bonus != malus
        && At(old(Cells(board)), bonus) == Empty && At(old(Cells(board)), malus) == Empty
        && Cells(board) == Put(Put(old(Cells(board)), bonus, FoodBonus), malus, FoodMalus)
    {
      ghost var g0 := Cells(board);
      var coordinate := RandomEmptyTile();
      SetGameTile(coordinate, FoodBonus);
      ghost var bonus := coordinate;
      ghost var a, b :| InBounds(a) && InBounds(b) && a != b
        && At(g0, a) == Empty && At(g0, b) == Empty;
      ghost var spare := if a != bonus then a else b;
      assert At(Cells(board), spare) == Empty;
      coordinate := RandomEmptyTile();
      SetGameTile(coordinate, FoodMalus);
    }

    /** Whether the model of snake `snakeId` occupies (row, column). */
    method GivenSnakeOccupies(snakeId: int, row: int, column: int) returns (r: bool)
      requires snakeId in snakeModels
      ensures r <==> Coord(row, column) in snakeModels[snakeId].model
    {
      r := snakeModels[snakeId].OccupiesTile(row, column);
    }

    /** A new board array holding the same tiles, row by row. */
    method CloneGameBoard() returns (copy: array2<GameTile>)
      requires BoardShaped()
      ensures fresh(copy) && copy.Length0 == GameSize && copy.Length1 == GameSize
      ensures Cells(copy) == Cells(board)
    {
      copy := new GameTile[board.Length0, board.Length1];
      for i := 0 to board.Length0
        invariant forall r, c :: 0 <= r < i && 0 <= c < GameSize ==> copy[r, c] == board[r, c]
      {
        for j := 0 to board.Length1
          invariant forall r, c :: 0 <= r < i && 0 <= c < GameSize ==> copy[r, c] == board[r, c]
          invariant forall c :: 0 <= c < j ==> copy[i, c] == board[i, c]
        {
          copy[i, j] := board[i, j];
        }
      }
      GridsAgree(Cells(copy), Cells(board));
    }

    /** A new map with the same ids, each mapped to a new model with the
        same cells and snake, made by this game state. */
    method CloneSnakeModels() returns (clone: map<int, SnakeModel>)
      requires Valid()
      ensures clone.Keys == snakeModels.Keys
      ensures forall id :: id in clone ==>
        && fresh(clone[id]) && clone[id].Valid()
        && clone[id].model == snakeModels[id].model
        && clone[id].snake == snakeModels[id].snake
        && clone[id].outer == this
    {
      clone := map[];
      var remaining := snakeModels.Items;
      while remaining != {}
        invariant Valid() && remaining <= snakeModels.Items
        invariant forall entry :: entry in remaining ==> entry.0 !in clone
        invariant forall id :: id in snakeModels ==> id in clone || (id, snakeModels[id]) in remaining
        invariant forall id :: id in clone ==>
          && id in snakeModels
          && fresh(clone[id]) && clone[id].Valid()
          && clone[id].model == snakeModels[id].model
          && clone[id].snake == snakeModels[id].snake
          && clone[id].outer == this
        decreases remaining
      {
        assert forall id :: id in snakeModels ==> snakeModels[id].Valid();
        var entry :| entry in remaining;
        assert entry.0 in snakeModels && snakeModels[entry.0] == entry.1;
        assert snakeModels[entry.0].Valid();
        var copy := new SnakeModel.Copy(this, entry.1);
        clone := clone[entry.0 := copy];
        remaining := remaining - {entry};
      }
      forall id | id in snakeModels ensures id in clone {
        assert (id, snakeModels[id]) !in remaining;
      }
      forall id | id in clone.Keys ensures id in snakeModels.Keys { }
      forall id | id in snakeModels.Keys ensures id in clone.Keys { }
    }

    /** Moves the snake with id `snakeId` one step in direction `dir`. */
    method MoveSnake(snakeId: int, dir: Direction) returns (ok: bool)
      requires Valid() && snakeId in snakeModels && snakeModels[snakeId].model != []
      modifies snakeModels[snakeId], snakeModels[snakeId].outer.board, snakeModels[snakeId].snake
      ensures Valid() && snakeModels == old(snakeModels)
      ensures var m := snakeModels[snakeId];
        var r := Move(old(Cells(m.outer.board)), old(m.model), dir);
        && ok == (r.outcome != TailUnderflow)
        && Cells(m.outer.board) == r.grid
        && m.model == r.body
        && m.snake.score == old(m.snake.score) + r.scoreDelta
        && m.snake.alive == (old(m.snake.alive) && !r.killed)
    {
      var snakemodel := snakeModels[snakeId];
      ok := snakemodel.MoveSnake(dir);
    }

    /** The tile at (row, column). */
    method GetGameTile(row: int, column: int) returns (t: GameTile)
      requires BoardShaped() && 0 <= row < GameSize && 0 <= column < GameSize
      ensures t == At(Cells(board), Coord(row, column))
    {
      t := board[row, column];
    }

    /** Sets the tile at `coordinate`. */
    method SetGameTile(coordinate: Coord, tile: GameTile)
      requires BoardShaped() && InBounds(coordinate)
      modifies board
      ensures Cells(board) == Put(old(Cells(board)), coordinate, tile)
    {
      ghost var before := Cells(board);
      board[coordinate.x, coordinate.y] := tile;
      GridsAgree(Cells(board), Put(before, coordinate, tile));
    }

    /** Some empty cell of the board; which one is left open, as the
        server picks it at random. */
    method RandomEmptyTile() returns (coordinate: Coord)
      requires BoardShaped() && HasEmptyTile(Cells(board))
      ensures InBounds(coordinate) && At(Cells(board), coordinate) == Empty
    {
      var x, y :| 0 <= x < GameSize && 0 <= y < GameSize && board[x, y] == Empty;
      coordinate := Coord(x, y);
    }
  }

  ghost predicate HasEmptyTile(g: Grid)
    requires IsGrid(g)
  {
    exists c :: InBounds(c) && At(g, c) == Empty
  }

  ghost predicate HasTwoEmptyTiles(g: Grid)
    requires IsGrid(g)
  {
    exists a, b :: InBounds(a) && InBounds(b) && a != b && At(g, a) == Empty && At(g, b) == Empty
  }

  /** A copy taken before a move keeps the board and bodies it was taken
      from: moving a snake of the live state leaves the copy unchanged. */
  method CopyIsolatedFromMove(gameState: GameState, snakeId: int, dir: Direction)
    returns (copy: GameState)
    requires gameState.Valid() && snakeId in gameState.snakeModels
    requires gameState.snakeModels[snakeId].model != []
    modifies gameState.snakeModels[snakeId], gameState.snakeModels[snakeId].outer.board
    modifies gameState.snakeModels[snakeId].snake
    ensures fresh(copy) && copy.Valid()
    ensures Cells(copy.board) == old(Cells(gameState.board))
    ensures copy.snakeModels.Keys == gameState.snakeModels.Keys
    ensures forall id :: id in copy.snakeModels ==>
      copy.snakeModels[id].model == old(gameState.snakeModels[id].model)
  {
    copy := new GameState.Copy(gameState);
    var _ := gameState.MoveSnake(snakeId, dir);
  }
}
