/** The rules by which one snake moves one step on the board, as values.
    `Move` is the specification that `GameStates.SnakeModel.MoveSnake`
    implements on the live array and list; the lemmas below state what each
    branch of a move does to the body, the score, the alive flag and the
    board, and what it leaves alone. */
module Movement {
  import opened Board

  datatype Direction = Up | Down | Left | Right

  /** Java's `%` on `int`: the remainder takes the sign of the dividend. */
  function JavaRem(a: int, b: int): (r: int)
    requires b > 0
    ensures a >= 0 ==> 0 <= r < b
    ensures -b < r < b
  {
    if a >= 0 then a % b else -((-a) % b)
  }

  /** The cell one step from `head` in direction `dir` on the torus: UP and
      DOWN change the second coordinate, LEFT and RIGHT the first, and
      leaving one edge re-enters at the opposite one. */
  function NewHead(head: Coord, dir: Direction): (r: Coord)
    ensures InBounds(head) ==> InBounds(r)
    ensures dir == Up || dir == Down ==> r.x == head.x
    ensures dir == Left || dir == Right ==> r.y == head.y
    ensures InBounds(head) && dir == Up ==>
      r.y == if head.y == 0 then GameSize - 1 else head.y - 1
    ensures InBounds(head) && dir == Down ==>
      r.y == if head.y == GameSize - 1 then 0 else head.y + 1
    ensures InBounds(head) && dir == Left ==>
      r.x == if head.x == 0 then GameSize - 1 else head.x - 1
    ensures InBounds(head) && dir == Right ==>
      r.x == if head.x == GameSize - 1 then 0 else head.x + 1
  {
    match dir
    case Up => Coord(head.x, JavaRem(GameSize + head.y - 1, GameSize))
    case Down => Coord(head.x, JavaRem(head.y + 1, GameSize))
    case Left => Coord(JavaRem(GameSize + head.x - 1, GameSize), head.y)
    case Right => Coord(JavaRem(head.x + 1, GameSize), head.y)
  }

  /** Which branch a move took. `TailUnderflow` is the malus branch on a
      one-segment body, where the second `removeLast` finds the list empty
      and throws. */
  datatype Outcome = Grew | Shrank | Collided | Advanced | TailUnderflow

  /** The new board and body after a move, and the change it makes to the
      snake's score and alive flag (`killed` means the alive flag is set to
      false; otherwise it is left as it was). */
  datatype MoveResult = MoveResult(
    outcome: Outcome, grid: Grid, body: seq<Coord>, scoreDelta: int, killed: bool)

  /** One move of the snake whose head-first body is `body`, heading `dir`. */
  function Move(g: Grid, body: seq<Coord>, dir: Direction): (r: MoveResult)
    requires IsGrid(g) && body != [] && AllInBounds(body)
    ensures IsGrid(r.grid) && AllInBounds(r.body)
  {
    var n := |body|;
    var head := NewHead(body[0], dir);
    match At(g, head)
    case FoodBonus =>
      MoveResult(Grew, Put(g, head, SnakeTile), [head] + body, 1, false)
    case FoodMalus =>
      var g1 := Put(g, body[n - 1], Empty);
      if n == 1 then
        MoveResult(TailUnderflow, g1, [], 0, false)
      else
        var g2 := Put(g1, body[n - 2], Empty);
        var rest := body[..n - 2];
        MoveResult(Shrank, Put(g2, head, SnakeTile), [head] + rest, -1, rest == [])
    case SnakeTile =>
      MoveResult(Collided, Clear(g, body), [head], 0, true)
    case Empty =>
      var g1 := Put(g, body[n - 1], Empty);
      MoveResult(Advanced, Put(g1, head, SnakeTile), [head] + body[..n - 1], 0, false)
  }

  /** Every cell of `body` holds a snake tile. */
  predicate Occupies(g: Grid, body: seq<Coord>)
    requires IsGrid(g) && AllInBounds(body)
  {
    forall i :: 0 <= i < |body| ==> At(g, body[i]) == SnakeTile
  }

  predicate NoDuplicates(body: seq<Coord>) {
    forall i, j :: 0 <= i < j < |body| ==> body[i] != body[j]
  }

  predicate Disjoint(a: seq<Coord>, b: seq<Coord>) {
    forall i, j :: 0 <= i < |a| && 0 <= j < |b| ==> a[i] != b[j]
  }

  /** Bonus food: the head is added in front and the tail kept, so the body
      grows by one; the score goes up by one; only the new head's cell
      changes, to a snake tile. */
  lemma MoveOntoBonus(g: Grid, body: seq<Coord>, dir: Direction)
    requires IsGrid(g) && body != [] && AllInBounds(body)
    requires At(g, NewHead(body[0], dir)) == FoodBonus
    ensures var r := Move(g, body, dir); var head := NewHead(body[0], dir);
      && r.outcome == Grew
      && r.body == [head] + body
      && |r.body| == |body| + 1 && r.body[|r.body| - 1] == body[|body| - 1]
      && r.scoreDelta == 1 && !r.killed
      && At(r.grid, head) == SnakeTile
      && forall p :: InBounds(p) && p != head ==> At(r.grid, p) == At(g, p)
  {
  }

  /** An empty cell: an ordinary move. The tail cell is emptied, the head
      cell becomes a snake tile, the length stays the same, score and alive
      flag are untouched, and no other cell changes. */
  lemma MoveOntoEmpty(g: Grid, body: seq<Coord>, dir: Direction)
    requires IsGrid(g) && body != [] && AllInBounds(body)
    requires At(g, NewHead(body[0], dir)) == Empty
    ensures var r := Move(g, body, dir); var head := NewHead(body[0], dir);
      var tail := body[|body| - 1];
      && r.outcome == Advanced
      && r.body == [head] + body[..|body| - 1] && |r.body| == |body|
      && r.scoreDelta == 0 && !r.killed
      && At(r.grid, head) == SnakeTile
      && (tail != head ==> At(r.grid, tail) == Empty)
      && forall p :: InBounds(p) && p != head && p != tail ==> At(r.grid, p) == At(g, p)
  {
  }

  /** Malus food on a body of two or more cells: the last two cells are
      removed and emptied, the score drops by one, the snake is killed
      exactly when nothing else was left, and the new head is still placed,
      so the body ends one shorter, not two. */
  lemma MoveOntoMalus(g: Grid, body: seq<Coord>, dir: Direction)
    requires IsGrid(g) && |body| >= 2 && AllInBounds(body)
    requires At(g, NewHead(body[0], dir)) == FoodMalus
    ensures var r := Move(g, body, dir); var head := NewHead(body[0], dir);
      var n := |body|;
      && r.outcome == Shrank
      && r.body == [head] + body[..n - 2] && |r.body| == n - 1
      && r.scoreDelta == -1
      && (r.killed <==> n == 2)
      && At(r.grid, head) == SnakeTile
      && (forall i :: n - 2 <= i < n && body[i] != head ==> At(r.grid, body[i]) == Empty)
      && forall p :: InBounds(p) && p != head && p != body[n - 1] && p != body[n - 2] ==>
           At(r.grid, p) == At(g, p)
  {
  }

  /** Malus food on a one-cell body: the only cell is removed and emptied,
      then the second removal fails. The body is left empty, nothing else on
      the board changes, and neither score nor alive flag is touched. */
  lemma MoveOntoMalusTooShort(g: Grid, body: seq<Coord>, dir: Direction)
    requires IsGrid(g) && |body| == 1 && AllInBounds(body)
    requires At(g, NewHead(body[0], dir)) == FoodMalus
    ensures var r := Move(g, body, dir);
      && r.outcome == TailUnderflow
      && r.body == [] && r.scoreDelta == 0 && !r.killed
      && At(r.grid, body[0]) == Empty
      && forall p :: InBounds(p) && p != body[0] ==> At(r.grid, p) == At(g, p)
  {
  }

  /** A snake tile (its own body or another snake's): every cell of the body
      is emptied and nothing else changes, the snake is killed with its score
      unchanged, and its list is left holding just the new head. */
  lemma {:induction false} MoveOntoSnake(g: Grid, body: seq<Coord>, dir: Direction)
    requires IsGrid(g) && body != [] && AllInBounds(body)
    requires At(g, NewHead(body[0], dir)) == SnakeTile
    ensures var r := Move(g, body, dir); var head := NewHead(body[0], dir);
      && r.outcome == Collided
      && r.body == [head] && r.scoreDelta == 0 && r.killed
      && forall p :: InBounds(p) ==> At(r.grid, p) == if p in body then Empty else At(g, p)
  {
    forall p | InBounds(p)
      ensures At(Move(g, body, dir).grid, p) == if p in body then Empty else At(g, p)
    {
      ClearAt(g, body, p);
    }
  }

  /** Whatever the branch, a move changes no cell outside the old body and
      the new head. */
  lemma {:induction false} MoveFrame(g: Grid, body: seq<Coord>, dir: Direction, p: Coord)
    requires IsGrid(g) && body != [] && AllInBounds(body) && InBounds(p)
    requires p !in body && p != NewHead(body[0], dir)
    ensures At(Move(g, body, dir).grid, p) == At(g, p)
  {
    if At(g, NewHead(body[0], dir)) == SnakeTile {
      ClearAt(g, body, p);
    }
  }

  /** A move by one snake leaves every cell of another snake, whose body is
      disjoint from the mover's, on the board: in particular the snake that
      the mover runs into keeps the cell the mover died on. */
  lemma {:induction false} MoveSparesOtherSnake(
    g: Grid, body: seq<Coord>, other: seq<Coord>, dir: Direction)
    requires IsGrid(g) && body != [] && AllInBounds(body) && AllInBounds(other)
    requires Occupies(g, other) && Disjoint(body, other)
    ensures Occupies(Move(g, body, dir).grid, other)
  {
    var head := NewHead(body[0], dir);
    forall i | 0 <= i < |other|
      ensures At(Move(g, body, dir).grid, other[i]) == SnakeTile
    {
      var p := other[i];
      assert p !in body by {
        forall j | 0 <= j < |body| ensures body[j] != p { }
      }
      if p == head {
        MoveOntoSnake(g, body, dir);
      } else {
        MoveFrame(g, body, dir, p);
      }
    }
  }

  /** A snake that moves without colliding keeps its body on the board: when
      every cell of a duplicate-free body holds a snake tile before the
      move, the same holds of the new body afterwards (a snake killed by
      malus food keeps the one new head cell). */
  lemma {:induction false} MoveKeepsBodyOnBoard(g: Grid, body: seq<Coord>, dir: Direction)
    requires IsGrid(g) && body != [] && AllInBounds(body)
    requires Occupies(g, body) && NoDuplicates(body)
    requires Move(g, body, dir).outcome in {Grew, Shrank, Advanced}
    ensures var r := Move(g, body, dir);
      Occupies(r.grid, r.body) && NoDuplicates(r.body)
  {
    var r := Move(g, body, dir);
    var head := NewHead(body[0], dir);
    var n := |body|;
    assert head !in body by {
      forall j | 0 <= j < n ensures body[j] != head {
        assert At(g, body[j]) == SnakeTile;
      }
    }
    // The cells that stay in the body: all but the one or two removed.
    var kept := |r.body| - 1;
    assert r.body == [head] + body[..kept];
    forall i | 0 <= i < |r.body|
      ensures At(r.grid, r.body[i]) == SnakeTile
    {
      if i > 0 {
        var p := body[i - 1];
        assert p != head;
        if r.outcome == Grew {
          MoveOntoBonus(g, body, dir);
        } else if r.outcome == Advanced {
          MoveOntoEmpty(g, body, dir);
          assert p != body[n - 1];
        } else {
          MoveOntoMalus(g, body, dir);
          assert p != body[n - 1] && p != body[n - 2];
        }
      }
    }
  }

  /** The one-segment malus case as the source meets it: a single cell at
      (0, 0) moving LEFT wraps to (39, 0); with malus food there the body is
      emptied and the move fails instead of killing the snake. */
  lemma OneSegmentMalusUnderflows(g: Grid)
    requires IsGrid(g) && At(g, Coord(GameSize - 1, 0)) == FoodMalus
    ensures NewHead(Coord(0, 0), Left) == Coord(39, 0)
    ensures Move(g, [Coord(0, 0)], Left).outcome == TailUnderflow
    ensures Move(g, [Coord(0, 0)], Left).body == []
  {
  }

  /** Three ordinary moves to the right from a one-cell snake at (2, 2) on
      an otherwise empty board: each trims the tail, so the snake ends as the
      single cell (5, 2), the only non-empty cell, with no score change. */
  lemma {:induction false} ThreeMovesRight()
    ensures var g0 := Put(EmptyGrid(), Coord(2, 2), SnakeTile);
      var r1 := Move(g0, [Coord(2, 2)], Right);
      var r2 := Move(r1.grid, r1.body, Right);
      var r3 := Move(r2.grid, r2.body, Right);
      && r3.body == [Coord(5, 2)]
      && r1.scoreDelta + r2.scoreDelta + r3.scoreDelta == 0
      && !r1.killed && !r2.killed && !r3.killed
      && forall c :: InBounds(c) ==> At(r3.grid, c) == if c == Coord(5, 2) then SnakeTile else Empty
  {
    var g0 := Put(EmptyGrid(), Coord(2, 2), SnakeTile);
    MoveOntoEmpty(g0, [Coord(2, 2)], Right);
    var r1 := Move(g0, [Coord(2, 2)], Right);
    MoveOntoEmpty(r1.grid, r1.body, Right);
    var r2 := Move(r1.grid, r1.body, Right);
    MoveOntoEmpty(r2.grid, r2.body, Right);
  }
}
