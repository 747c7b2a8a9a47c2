# Multi-player snake: board engine and client colouring, in Dafny

This project models the board engine of a multi-threaded snake game server
and the small pure part of its player client.

The server keeps a 40 × 40 board of tiles. A cell holds bonus food, malus
food, a snake segment, or nothing (`null` in the server; `Empty` here). The
server also keeps a map from snake id to a *snake model*. A snake model is the
snake's body, a head-first list of `[x, y]` cells. It also refers to the snake
object that holds the score and the alive flag. One move of a snake computes a
new head one step away on a torus. It then acts on the tile found there:

- **Bonus food**: the snake grows and scores a point.
- **Malus food**: the two tail cells are dropped and the snake loses a point.
  It is set dead if nothing is left.
- **A snake tile**: the whole body is cleared and the snake dies.
- **An empty cell**: an ordinary move.

In every branch that completes, the new head is then pushed onto the front
of the list.

The client turns a board into a colour matrix: white, red, green, cyan for
its own snake, blue for other snakes. It also maps key codes to directions
through a per-player key scheme.

Files:

- `board.dfy` (module `Board`): the board as a value (`Grid`), cells, and the
  single-cell update `Put` and the whole-body `Clear` that the server performs.
- `movement.dfy` (module `Movement`): the wrapped step `NewHead` (with Java's
  truncating `%`), and `Move`, the value-level specification of one move. The
  lemmas there state what each branch does and what it leaves alone. They also
  prove that a move keeps the mover's body on the board and spares other
  snakes.
- `game_state.dfy` (module `GameStates`): the server state as classes.
  - `GameState` has a `board: array2<GameTile>` and a `snakeModels` map.
  - `SnakeModel` has a `model: seq<Coord>` list, its `snake`, and the game
    state whose board it draws on.
  - `Snake` holds the score and the alive flag.

  Each mutating method states its new state in terms of `Move`, `Put` and
  `Clear` applied to the old state.
- `player_snake.dfy` (module `Client`): tile colours, key schemes, key
  decoding and the colour-matrix builder of `PlayerSnake`.

Behaviour of the code that the model keeps, where a reader might expect
otherwise:

- The new head is pushed onto the body in every branch that completes, the
  death branches included. Only the failing one-cell malus move below ends
  without a head.
  - After malus food the body is one cell shorter, not two.
  - A snake killed by malus food keeps a one-cell body, and its head cell is
    marked as a snake tile.
  - After a collision the dead snake's list is exactly `[newHead]`. The
    board is not written at that cell, so another snake's tile there stays.
    If the snake ran into itself, that cell was cleared with the rest of its
    body.
- Malus food met by a one-cell snake empties the list, clears that cell, and
  then fails on the second removal (`NoSuchElementException`). This is
  outcome `TailUnderflow`: the move returns `ok == false`, the body is empty,
  and score and alive flag are untouched.
- `randomEmptyTile` retries until it draws an empty cell, so it never ends on
  a full board. The model picks an arbitrary empty cell and requires one to
  exist. `AddFood` requires two, since its second draw happens after the
  first cell has been filled.
- A snake model belongs to the game state that created it, as Java inner
  classes do. The copy constructor of `GameState` asks the original state to
  clone the snake models. So every copied model still draws on the
  *original* board: a move through a copy would write the live board. The
  copy's own board and lists are new objects. Moves on the live state
  therefore never reach the copy's board or body lists
  (`CopyIsolatedFromMove`). The copied models share the live `Snake`
  objects, so changes to the score and alive flag are visible through the
  copy.
- `buildGameBoardModel` bounds both of its loops by the row count of the
  `gameBoardModel` field.
- An id outside 1–4 leaves all four keys at their initial value 0. A key
  code of 0 then decodes to UP, because the up key is tried first.

## Model

| member | source | states |
|---|---|---|
| `Board.Put` | concurrent-prog-assig1/src/server/GameState.java:177-179 | writing a tile sets that cell and leaves every other cell as it was |
| `Board.EmptyGrid` | concurrent-prog-assig1/src/server/GameState.java:34-37 | a new board has every cell empty |
| `Board.Clear` | concurrent-prog-assig1/src/server/GameState.java:327-330 | empties the body's cells from the tail end; the contract gives only that the result is a board, and `ClearAt` gives the content |
| `Board.ClearAt` | concurrent-prog-assig1/src/server/GameState.java:327-330 | after clearing a body from the tail end, a cell is empty iff it was in the body or was empty; other cells keep their tile |
| `Movement.NewHead` | concurrent-prog-assig1/src/server/GameState.java:363-388 | the new head stays on the board; UP/DOWN change only y and LEFT/RIGHT only x, by one step; each edge wraps to the opposite edge |
| `Movement.Move` | concurrent-prog-assig1/src/server/GameState.java:291-345 | the next board, body, outcome, score change and kill flag of one move; the contract gives only their shape (a board, a body on the board), and the `MoveOnto*` lemmas below give the content |
| `Movement.MoveOntoBonus` | concurrent-prog-assig1/src/server/GameState.java:295-301 | bonus food: body becomes `[newHead] + body`, one longer with the same tail; score +1; only the head cell changes, to a snake tile |
| `Movement.MoveOntoEmpty` | concurrent-prog-assig1/src/server/GameState.java:335-344 | empty cell: body becomes `[newHead] + body` minus its last cell, same length; the old tail is emptied and the head marked; score and alive unchanged; no other cell changes |
| `Movement.MoveOntoMalus` | concurrent-prog-assig1/src/server/GameState.java:303-322 | malus food on two or more cells: the last two cells are removed and emptied; score −1; killed iff nothing else was left; the head is still placed, so the length drops by one |
| `Movement.MoveOntoMalusTooShort` | concurrent-prog-assig1/src/server/GameState.java:306-310 | malus food on one cell: that cell is emptied, the list is left empty, and the move fails with score and alive untouched |
| `Movement.MoveOntoSnake` | concurrent-prog-assig1/src/server/GameState.java:324-344 | snake tile: every cell of the old body is emptied and no other cell changes; killed; score unchanged; the list becomes exactly `[newHead]` |
| `Movement.MoveFrame` | concurrent-prog-assig1/src/server/GameState.java:291-345 | in every branch, a cell outside the old body and the new head keeps its tile |
| `Movement.MoveSparesOtherSnake` | concurrent-prog-assig1/src/server/GameState.java:324-333 | the cells of another snake that is disjoint from the mover stay snake tiles, even the cell the mover dies on |
| `Movement.MoveKeepsBodyOnBoard` | concurrent-prog-assig1/src/server/GameState.java:295-344 | for growth, shrinking and ordinary moves, a duplicate-free body on snake tiles stays duplicate-free and on snake tiles |
| `Movement.OneSegmentMalusUnderflows` | concurrent-prog-assig1/src/server/GameState.java:303-311 | a one-cell snake at (0, 0) moving LEFT wraps to (39, 0); on malus food there the move fails with an empty body |
| `Movement.ThreeMovesRight` | concurrent-prog-assig1/src/server/GameState.java:335-344 | three ordinary RIGHT moves of a one-cell snake from (2, 2) leave it as the single cell (5, 2) on an otherwise empty board, score unchanged |
| `GameStates.Snake.constructor` | concurrent-prog-assig1/src/client/PlayerSnake.java:58 | a new snake with the given id, score 0 and alive, as the abstract snake's constructor (abstractClasses/Snake.java:34-41 of the Multi-Thread Snakes Project) sets them |
| `GameStates.Snake.AdjustScore` | concurrent-prog-assig1/src/server/GameState.java:298-314 | the score changes by the given amount (+1 for bonus, −1 for malus food) and the alive flag is unchanged, as `adjustScore` (abstractClasses/Snake.java:99-101 of the Multi-Thread Snakes Project) does |
| `GameStates.Snake.SetAlive` | concurrent-prog-assig1/src/server/GameState.java:318-333 | the alive flag takes the given value and the score is unchanged, as `setAlive` (abstractClasses/Snake.java:126-128 of the Multi-Thread Snakes Project) does |
| `GameStates.Cells` | concurrent-prog-assig1/src/server/GameState.java:21 | the board array read as a grid value, cell for cell |
| `GameStates.SnakeModel.constructor` | concurrent-prog-assig1/src/server/GameState.java:236-240 | a one-cell body at the start cell, whose tile becomes a snake tile; nothing else on the board changes |
| `GameStates.SnakeModel.Copy` | concurrent-prog-assig1/src/server/GameState.java:245-248 | the copy has the same cells and the same snake, and draws on the game state that made it |
| `GameStates.SnakeModel.OccupiesTile` | concurrent-prog-assig1/src/server/GameState.java:258-267 | true iff some cell of the body equals (row, column) |
| `GameStates.SnakeModel.GetNewHead` | concurrent-prog-assig1/src/server/GameState.java:363-388 | the computed head is `NewHead` of the current head, and on the board |
| `GameStates.SnakeModel.MoveSnake` | concurrent-prog-assig1/src/server/GameState.java:291-345 | board, body, score and alive flag afterwards are exactly those `Move` gives for the old board and body; the move fails only on the one-cell malus case |
| `GameStates.SnakeModel.EatMalus` | concurrent-prog-assig1/src/server/GameState.java:303-322 | the two tail cells are removed and emptied, the score drops by one, the snake is set dead iff the list empties, and the head is marked; on a one-cell body only the first removal happens |
| `GameStates.SnakeModel.DropTail` | concurrent-prog-assig1/src/server/GameState.java:338-339 | the last cell leaves the body and its tile becomes empty |
| `GameStates.SnakeModel.ClearBody` | concurrent-prog-assig1/src/server/GameState.java:327-330 | the list ends empty and the board is the old board with the old body cleared |
| `GameStates.GameState.constructor` | concurrent-prog-assig1/src/server/GameState.java:34-37 | a new board with every cell empty, and no snake models |
| `GameStates.GameState.Copy` | concurrent-prog-assig1/src/server/GameState.java:42-45 | a new board equal cell for cell; the same ids, each with a new model with the same cells and snake, drawing on the original state |
| `GameStates.GameState.AddSnakeModel` | concurrent-prog-assig1/src/server/GameState.java:54-58 | a new one-cell model is stored under the snake's id, on a cell that was empty and is now a snake tile; nothing else changes |
| `GameStates.GameState.AddFood` | concurrent-prog-assig1/src/server/GameState.java:64-71 | bonus and malus food go on two distinct cells that were empty; nothing else changes |
| `GameStates.GameState.GivenSnakeOccupies` | concurrent-prog-assig1/src/server/GameState.java:83-85 | true iff the model stored under the id has (row, column) in its body; the id must be present |
| `GameStates.GameState.CloneGameBoard` | concurrent-prog-assig1/src/server/GameState.java:92-99 | a new array, equal cell for cell to the board, so later writes to either leave the other alone |
| `GameStates.GameState.CloneSnakeModels` | concurrent-prog-assig1/src/server/GameState.java:106-114 | the same key set; each value is a new model with an equal body and the same snake |
| `GameStates.GameState.MoveSnake` | concurrent-prog-assig1/src/server/GameState.java:122-125 | the model under the id moves as `Move` says; the map itself is unchanged |
| `GameStates.GameState.GetGameTile` | concurrent-prog-assig1/src/server/GameState.java:155-157 | the tile of the board at (row, column) |
| `GameStates.GameState.SetGameTile` | concurrent-prog-assig1/src/server/GameState.java:177-179 | the board becomes `Put` of the old board at that cell |
| `GameStates.GameState.RandomEmptyTile` | concurrent-prog-assig1/src/server/GameState.java:198-215 | the returned cell is on the board and empty |
| `GameStates.CopyIsolatedFromMove` | concurrent-prog-assig1/src/server/GameState.java:42-45 | a copy taken before a move keeps the old board and the old bodies after the live snake moves |
| `Client.TileColor` | concurrent-prog-assig1/src/client/PlayerSnake.java:213-239 | white iff empty, red iff bonus, green iff malus, cyan iff a snake cell of this player, blue iff another snake's cell |
| `Client.SchemeFor` | concurrent-prog-assig1/src/client/PlayerSnake.java:253-289 | ids 1–4, and only those, have a scheme: W/A/S/D, I/J/K/L, arrow keys, 8/4/5/6 |
| `Client.SchemesDistinct` | concurrent-prog-assig1/src/client/PlayerSnake.java:253-289 | each scheme has four different keys, and no two players share a key |
| `Client.PlayerSnake.constructor` | concurrent-prog-assig1/src/client/PlayerSnake.java:57-64 | a new empty local game state, no display matrix, and all four keys 0 |
| `Client.PlayerSnake.Owns` | concurrent-prog-assig1/src/client/PlayerSnake.java:218 | whether this player's snake occupies a cell in the local state, as `givenSnakeOccupies` with the player's own id asks; only a snake registered in the local state's map owns a cell |
| `Client.PlayerSnake.SetScheme` | concurrent-prog-assig1/src/client/PlayerSnake.java:253-290 | ids 1–4 install their scheme's four keys; any other id leaves the keys unchanged |
| `Client.PlayerSnake.DirectionInput` | concurrent-prog-assig1/src/client/PlayerSnake.java:174-195 | the up, left, down and right keys give UP, LEFT, DOWN, RIGHT, tried in that order; any other key gives nothing; at most one direction |
| `Client.PlayerSnake.BuildGameBoardModel` | concurrent-prog-assig1/src/client/PlayerSnake.java:206-244 | a new 40 × 40 matrix in which every cell has the colour `TileColor` gives its tile and ownership; the game state is only read |

## Left out

- Randomness: the random draws of `randomInt` are not modelled. `RandomEmptyTile` picks an arbitrary empty cell instead.
- Concurrency: `synchronized`, `volatile`, the concurrent hash map, executors and `invokeLater` are not modelled. Every operation is atomic and sequential.
- Swing/AWT display, login windows, `run`, `authenticate`, `playGame`, `gameOver`, `submitGameState` and the worker classes are not modelled. They are user interface, console output or thread plumbing.
- The direction buffer is not modelled. `directionBufferProduce` and its interruption path belong to `abstractClasses/Snake`, which is not part of this model. `DirectionInput` returns the direction that would be pushed.
- Setters and getters are not modelled: `setGameBoard`, `setSnakeModels`, `getSnakeModels`, `getSnakeModel` and `getSnake`. No modelled operation needs them. Because `setGameBoard` is absent, the board is a constant field.
- `SnakeModel.equals` is not modelled. It compares head arrays by reference, and nothing modelled depends on it.
- The Java board is an array of row arrays; the model uses one two-dimensional array. Nothing in the core shares or swaps rows.
- The colour matrix starts with `null` cells in Java, and the model allocates it with default colours. Every cell is overwritten before it is returned.
- The control-scheme label passed to the view in `setScheme` is not modelled.
- `GameStates.Snake.AdjustScore`: does not model 32-bit wrap-around of the Java `int` score, which would need more than two billion food moves.
- `GameStates.GameState.GivenSnakeOccupies`: requires the id to be present. A missing id dereferences `null` in the source.
- `Client.PlayerSnake.BuildGameBoardModel`: requires the display matrix to be set with 40 rows, which rules out the `NullPointerException` on a `null` matrix. It also requires that the player's id be in the local state's snake map, or that no cell hold a snake tile. This rules out the `NullPointerException` that `givenSnakeOccupies` raises for a missing id. The server sends states only to snakes it has registered, and the first local state has no snake tiles, so callers meet both.
- `GameStates.GameState.MoveSnake`: requires the id to be present and its body non-empty. Otherwise the source dereferences `null`; a body is empty only after a failed one-cell malus move.
