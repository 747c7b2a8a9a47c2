/** The client side of a human player's snake: the colour each board cell is
    drawn in, and the keys that steer the snake. */
module Client {
  import opened Board
  import opened Movement
  import GameStates

  datatype Option<T> = None | Some(value: T)

  datatype Color = White | Red | Green | Cyan | Blue

  /** The colour of a cell holding `tile`; `own` says whether this player's
      snake occupies the cell. Each colour belongs to exactly one kind of
      cell, and snake cells split by ownership. */
  function TileColor(tile: GameTile, own: bool): (r: Color)
    ensures r == White <==> tile == Empty
    ensures r == Red <==> tile == FoodBonus
    ensures r == Green <==> tile == FoodMalus
    ensures r == Cyan <==> tile == SnakeTile && own
    ensures r == Blue <==> tile == SnakeTile && !own
  {
    match tile
    case Empty => White
    case SnakeTile => if own then Cyan else Blue
    case FoodBonus => Red
    case FoodMalus => Green
  }

  // Key codes of the keyboard hook library (set-1 scan codes); the model
  // relies only on their being sixteen distinct values.
  const KeyW: int := 0x0011
  const KeyA: int := 0x001E
  const KeyS: int := 0x001F
  const KeyD: int := 0x0020
  const KeyI: int := 0x0017
  const KeyJ: int := 0x0024
  const KeyK: int := 0x0025
  const KeyL: int := 0x0026
  const KeyUp: int := 0xE048
  const KeyLeft: int := 0xE04B
  const KeyDown: int := 0xE050
  const KeyRight: int := 0xE04D
  const Key8: int := 0x0009
  const Key4: int := 0x0005
  const Key5: int := 0x0006
  const Key6: int := 0x0007

  /** The keys that steer a snake up, left, down and right. */
  datatype KeyScheme = KeyScheme(up: int, left: int, down: int, right: int)

  /** The fixed control scheme of players 1 to 4; other ids have none. */
  function SchemeFor(snakeId: int): (r: Option<KeyScheme>)
    ensures r.Some? <==> 1 <= snakeId <= 4
  {
    match snakeId
    case 1 => Some(KeyScheme(KeyW, KeyA, KeyS, KeyD))
    case 2 => Some(KeyScheme(KeyI, KeyJ, KeyK, KeyL))
    case 3 => Some(KeyScheme(KeyUp, KeyLeft, KeyDown, KeyRight))
    case 4 => Some(KeyScheme(Key8, Key4, Key5, Key6))
    case _ => None
  }

  function Keys(s: KeyScheme): (r: set<int>) {
    {s.up, s.left, s.down, s.right}
  }

  /** Each scheme uses four different keys, and no key belongs to two
      players' schemes. */
  lemma SchemesDistinct(i: int, j: int)
    requires SchemeFor(i).Some? && SchemeFor(j).Some?
    ensures var s := SchemeFor(i).value;
      s.up != s.left && s.up != s.down && s.up != s.right
      && s.left != s.down && s.left != s.right && s.down != s.right
    ensures i != j ==> Keys(SchemeFor(i).value) !! Keys(SchemeFor(j).value)
  {
  }

  /** A human player's snake as the client sees it. */
  class PlayerSnake {
    const snakeId: int
    var localGameState: GameStates.GameState
    // Display matrix; null until the game starts.
    var gameBoardModel: array2?<Color>
    // Control scheme: the key code for each direction.
    var up: int
    var down: int
    var left: int
    var right: int

    constructor (snakeId: int)
      ensures this.snakeId == snakeId && fresh(localGameState) && localGameState.Valid()
      ensures GameStates.Cells(localGameState.board) == EmptyGrid()
      ensures localGameState.snakeModels == map[]
      ensures gameBoardModel == null
      ensures up == 0 && down == 0 && left == 0 && right == 0
    {
      this.snakeId := snakeId;
      localGameState := new GameStates.GameState();
      gameBoardModel := null;
      up, down, left, right := 0, 0, 0, 0;
    }

    /** Installs the control scheme of player `snakeId`; an id without a
        scheme leaves the keys as they were. */
    method SetScheme(snakeId: int)
      modifies this`up, this`down, this`left, this`right
      ensures match SchemeFor(snakeId)
        case Some(s) => up == s.up && left == s.left && down == s.down && right == s.right
        case None => up == old(up) && left == old(left) && down == old(down) && right == old(right)
    {
      match snakeId {
        case 1 =>
          up, left, down, right := KeyW, KeyA, KeyS, KeyD;
        case 2 =>
          up, left, down, right := KeyI, KeyJ, KeyK, KeyL;
        case 3 =>
          up, left, down, right := KeyUp, KeyLeft, KeyDown, KeyRight;
        case 4 =>
          up, left, down, right := Key8, Key4, Key5, Key6;
        case _ =>
      }
    }

    /** The direction a key press asks for, if the key is one of this
        snake's: the up, left, down and right keys are tried in that order,
        and at most one direction results. */
    method DirectionInput(keyCode: int) returns (d: Option<Direction>)
      ensures d == Some(Up) <==> keyCode == up
      ensures d == Some(Left) <==> keyCode == left && keyCode != up
      ensures d == Some(Down) <==> keyCode == down && keyCode != up && keyCode != left
      ensures d == Some(Right) <==>
        keyCode == right && keyCode != up && keyCode != left && keyCode != down
      ensures d == None <==>
        keyCode != up && keyCode != left && keyCode != down && keyCode != right
    {
      if keyCode == up {
        d := Some(Up);
      } else if keyCode == left {
        d := Some(Left);
      } else if keyCode == down {
        d := Some(Down);
      } else if keyCode == right {
        d := Some(Right);
      } else {
        d := None;
      }
    }

    /** Whether this player's snake occupies `c` in the local game state. */
    ghost function Owns(c: Coord): (r: bool)
      reads this, localGameState, localGameState.snakeModels.Values
      ensures r ==> snakeId in localGameState.snakeModels
    {
      snakeId in localGameState.snakeModels
      && c in localGameState.snakeModels[snakeId].model
    }

    /** A new colour matrix for the local game state: every cell gets the
        colour of its tile, snake cells cyan when this player's snake
        occupies them and blue otherwise. Nothing is written but the new
        matrix. */
    method BuildGameBoardModel() returns (colorMatrix: array2<Color>)
      requires gameBoardModel != null && gameBoardModel.Length0 == GameSize
      requires localGameState.BoardShaped()
      requires snakeId in localGameState.snakeModels
        || forall c :: InBounds(c) ==> At(GameStates.Cells(localGameState.board), c) != SnakeTile
      ensures fresh(colorMatrix)
      ensures colorMatrix.Length0 == GameSize && colorMatrix.Length1 == GameSize
      ensures forall c :: InBounds(c) ==>
        colorMatrix[c.x, c.y] == TileColor(At(GameStates.Cells(localGameState.board), c), Owns(c))
    {
      colorMatrix := new Color[GameSize, GameSize];
      var game := localGameState;
      for row := 0 to gameBoardModel.Length0
        invariant forall c :: InBounds(c) && c.x < row ==>
          colorMatrix[c.x, c.y] == TileColor(At(GameStates.Cells(game.board), c), Owns(c))
      {
        for col := 0 to gameBoardModel.Length0
          invariant forall c :: InBounds(c) && c.x < row ==>
            colorMatrix[c.x, c.y] == TileColor(At(GameStates.Cells(game.board), c), Owns(c))
          invariant forall y :: 0 <= y < col ==>
            colorMatrix[row, y] ==
              TileColor(At(GameStates.Cells(game.board), Coord(row, y)), Owns(Coord(row, y)))
        {
          var tile := game.GetGameTile(row, col);
          if tile != Empty {
            match tile {
              case SnakeTile =>
                var own := game.GivenSnakeOccupies(snakeId, row, col);
                colorMatrix[row, col] := if own then Cyan else Blue;
              case FoodBonus =>
                colorMatrix[row, col] := Red;
              case FoodMalus =>
                colorMatrix[row, col] := Green;
            }
          } else {
            colorMatrix[row, col] := White;
          }
        }
      }
    }
  }
}
