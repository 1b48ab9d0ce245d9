/**
 * The helpers every strategy shares (model/Game/GameAI/GameAI.java):
 * move enumeration, the immediate-win finder and the random first move.
 * They only read the game. `java.util.Random` becomes an arbitrary choice
 * among the candidates.
 */
module GameAI {
  import opened Wrappers
  import opened Pieces
  import opened Boards
  import opened Lines
  import opened Rules
  import opened Games

  // ---- Cells in the two visiting orders ----

  /** Open cells (x, 0) .. (x, k-1) of column x. */
  function OpenInColumn(b: BoardView, x: int, k: nat): seq<Cell>
    requires b.WellFormed()
  {
    if k == 0 then [] else OpenInColumn(b, x, k - 1) + (if b.IsOpen(x, k - 1) then [(x, k - 1)] else [])
  }

  /** Open cells of columns 0 .. k-1, x outer and y inner (the order of `genAllMoves`). */
  function OpenByColumns(b: BoardView, k: nat): seq<Cell>
    requires b.WellFormed() && b.yLength >= 0
  {
    if k == 0 then [] else OpenByColumns(b, k - 1) + OpenInColumn(b, k - 1, b.yLength)
  }

  /** Open cells (0, y) .. (k-1, y) of row y. */
  function OpenInRow(b: BoardView, y: int, k: nat): seq<Cell>
    requires b.WellFormed()
  {
    if k == 0 then [] else OpenInRow(b, y, k - 1) + (if b.IsOpen(k - 1, y) then [(k - 1, y)] else [])
  }

  /** Open cells of rows 0 .. k-1, y outer and x inner (the order of the strategies' scans). */
  function OpenByRows(b: BoardView, k: nat): seq<Cell>
    requires b.WellFormed() && b.xLength >= 0
  {
    if k == 0 then [] else OpenByRows(b, k - 1) + OpenInRow(b, k - 1, b.xLength)
  }

  lemma {:induction false} OpenInColumnMembers(b: BoardView, x: int, k: nat)
    requires b.WellFormed()
    ensures forall c :: c in OpenInColumn(b, x, k) <==> c.0 == x && 0 <= c.1 < k && b.IsOpen(c.0, c.1)
  {
    if k > 0 {
      OpenInColumnMembers(b, x, k - 1);
    }
  }

  lemma {:induction false} OpenByColumnsMembers(b: BoardView, k: nat)
    requires b.WellFormed()
    ensures forall c :: c in OpenByColumns(b, k) <==> 0 <= c.0 < k && b.IsOpen(c.0, c.1)
  {
    if k > 0 {
      OpenByColumnsMembers(b, k - 1);
      OpenInColumnMembers(b, k - 1, b.yLength);
    }
  }

  lemma {:induction false} OpenInRowMembers(b: BoardView, y: int, k: nat)
    requires b.WellFormed()
    ensures forall c :: c in OpenInRow(b, y, k) <==> c.1 == y && 0 <= c.0 < k && b.IsOpen(c.0, c.1)
  {
    if k > 0 {
      OpenInRowMembers(b, y, k - 1);
    }
  }

  /** The list of open cells in row-major order holds exactly the open cells of the board. */
  lemma {:induction false} OpenByRowsMembers(b: BoardView, k: nat)
    requires b.WellFormed()
    ensures forall c :: c in OpenByRows(b, k) <==> 0 <= c.1 < k && b.IsOpen(c.0, c.1)
  {
    if k > 0 {
      OpenByRowsMembers(b, k - 1);
      OpenInRowMembers(b, k - 1, b.xLength);
    }
  }

  // ---- Move enumeration ----

  /** The moves `genAllMoves` makes at cell c: one per free piece, or one with no pick. */
  function PicksAt(s: GameState, c: Cell): (r: seq<Move>)
  {
    if |s.frees| == 0 then [Move(s.nextPick, c.0, c.1, None)]
    else seq(|s.frees|, k requires 0 <= k < |s.frees| => Move(s.nextPick, c.0, c.1, Some(s.frees[k])))
  }

  /** The moves at each cell of `cells`, in order. */
  function MovesAt(s: GameState, cells: seq<Cell>): seq<Move>
  {
    if |cells| == 0 then [] else MovesAt(s, cells[..|cells| - 1]) + PicksAt(s, cells[|cells| - 1])
  }

  /** `genAllMoves`: every open cell (x outer, y inner) with every free piece, in `frees` order. */
  function AllMoves(s: GameState): seq<Move>
    requires s.Valid()
  {
    MovesAt(s, OpenByColumns(s.board, s.board.xLength))
  }

  /** A move `genAllMoves` can make: the next pick onto an open cell, picking a free piece or, if none is left, nothing. */
  predicate Generated(s: GameState, m: Move)
    requires s.Valid()
  {
    m.placed == s.nextPick && s.board.IsOpen(m.x, m.y) &&
    if |s.frees| == 0 then m.picked.None? else m.picked.Some? && m.picked.value in s.frees
  }

  lemma MovesAtAppend(s: GameState, a: seq<Cell>, c: seq<Cell>)
    ensures MovesAt(s, a + c) == MovesAt(s, a) + MovesAt(s, c)
  {
    if |c| > 0 {
      assert (a + c)[..|a + c| - 1] == a + c[..|c| - 1];
      MovesAtAppend(s, a, c[..|c| - 1]);
    } else {
      assert a + c == a;
    }
  }

  lemma {:induction false} MovesAtCount(s: GameState, cells: seq<Cell>)
    ensures |MovesAt(s, cells)| == |cells| * (if |s.frees| == 0 then 1 else |s.frees|)
  {
    if |cells| > 0 {
      MovesAtCount(s, cells[..|cells| - 1]);
    }
  }

  lemma {:induction false} MovesAtMembers(s: GameState, cells: seq<Cell>, m: Move)
    ensures m in MovesAt(s, cells) <==>
      (m.x, m.y) in cells && m.placed == s.nextPick &&
      if |s.frees| == 0 then m.picked.None? else m.picked.Some? && m.picked.value in s.frees
  {
    if |cells| > 0 {
      var front, c := cells[..|cells| - 1], cells[|cells| - 1];
      MovesAtMembers(s, front, m);
      assert cells == front + [c];
      if |s.frees| > 0 && (m.x, m.y) == c && m.placed == s.nextPick && m.picked.Some? && m.picked.value in s.frees {
        var k :| 0 <= k < |s.frees| && s.frees[k] == m.picked.value;
        assert PicksAt(s, c)[k] == m;
      }
    }
  }

  /** `genAllMoves` makes exactly the moves of `Generated`, open cells times max(1, |frees|) of them. */
  lemma AllMovesMeaning(s: GameState)
    requires s.Valid()
    ensures forall m :: m in AllMoves(s) <==> Generated(s, m)
    ensures |AllMoves(s)| == |OpenByColumns(s.board, s.board.xLength)| * (if |s.frees| == 0 then 1 else |s.frees|)
  {
    var cells := OpenByColumns(s.board, s.board.xLength);
    OpenByColumnsMembers(s.board, s.board.xLength);
    MovesAtCount(s, cells);
    forall m ensures m in AllMoves(s) <==> Generated(s, m) {
      MovesAtMembers(s, cells, m);
    }
  }

  /** The open cell (x, y) as a list, or no cell. */
  function OpenCell(b: BoardView, x: int, y: int): seq<Cell>
    requires b.WellFormed()
  {
    if b.IsOpen(x, y) then [(x, y)] else []
  }

  lemma ColumnStep(s: GameState, x: int, y: nat)
    requires s.board.WellFormed()
    ensures MovesAt(s, OpenInColumn(s.board, x, y)) + MovesAt(s, OpenCell(s.board, x, y)) ==
      MovesAt(s, OpenInColumn(s.board, x, y + 1))
  {
    MovesAtAppend(s, OpenInColumn(s.board, x, y), OpenCell(s.board, x, y));
  }

  lemma ColumnsStep(s: GameState, x: nat)
    requires s.board.WellFormed()
    ensures MovesAt(s, OpenByColumns(s.board, x)) + MovesAt(s, OpenInColumn(s.board, x, s.board.yLength)) ==
      MovesAt(s, OpenByColumns(s.board, x + 1))
  {
    MovesAtAppend(s, OpenByColumns(s.board, x), OpenInColumn(s.board, x, s.board.yLength));
  }

  /** `genAllMoves`, with its nested loops over columns, cells and free pieces. */
  method GenAllMoves(g: Game) returns (moves: seq<Move>)
    requires g.Valid()
    ensures moves == AllMoves(g.State())
  {
    ghost var s := g.State();
    moves := [];
    var n := g.Dim();
    for x := 0 to n
      invariant moves == MovesAt(s, OpenByColumns(s.board, x))
    {
      var column := MovesInColumn(g, x);
      ColumnsStep(s, x);
      moves := moves + column;
    }
  }

  /** The middle loop of `genAllMoves`: the moves on column x, y ascending. */
  method MovesInColumn(g: Game, x: int) returns (r: seq<Move>)
    requires g.Valid()
    ensures r == MovesAt(g.State(), OpenInColumn(g.State().board, x, g.State().board.yLength))
  {
    ghost var s := g.State();
    r := [];
    var n := g.Dim();
    for y := 0 to n
      invariant r == MovesAt(s, OpenInColumn(s.board, x, y))
    {
      var here := MovesHere(g, x, y);
      ColumnStep(s, x, y);
      r := r + here;
    }
  }

  /** The body of the inner loop of `genAllMoves`: the moves at one cell, none if it is not open. */
  method MovesHere(g: Game, x: int, y: int) returns (r: seq<Move>)
    requires g.Valid()
    ensures r == MovesAt(g.State(), OpenCell(g.State().board, x, y))
  {
    ghost var s := g.State();
    r := [];
    if g.IsOpen(x, y) {
      r := PicksHere(g, x, y);
      assert MovesAt(s, [(x, y)]) == PicksAt(s, (x, y)) by {
        assert [(x, y)][..0] == [];
      }
    }
  }

  /** The innermost loop of `genAllMoves`: the next pick placed on (x, y) with each free piece, or with none. */
  method PicksHere(g: Game, x: int, y: int) returns (r: seq<Move>)
    requires g.Valid()
    ensures r == PicksAt(g.State(), (x, y))
  {
    ghost var s := g.State();
    var frees := g.frees;
    var placed := g.nextPick;
    if |frees| == 0 {
      return [Move(placed, x, y, None)];
    }
    r := [];
    for k := 0 to |frees|
      invariant r == PicksAt(s, (x, y))[..k]
    {
      assert PicksAt(s, (x, y))[..k + 1] == PicksAt(s, (x, y))[..k] + [Move(placed, x, y, Some(frees[k]))];
      r := r + [Move(placed, x, y, Some(frees[k]))];
    }
  }

  // ---- The immediate win ----

  /** Placing the next pick on (x, y) wins. */
  predicate WinsAt(s: GameState, x: int, y: int)
    requires s.Valid()
  {
    s.board.IsOpen(x, y) && CheckWin(s, s.nextPick, x, y)
  }

  /** (x', y') comes before (x, y) when the board is scanned row by row. */
  predicate RowMajorBefore(x': int, y': int, x: int, y: int)
  {
    y' < y || (y' == y && x' < x)
  }

  /**
   * `findWin`: the first open cell, row by row, where the next pick wins,
   * with some free piece (none if there is none left) as the follow-up pick.
   */
  method FindWin(g: Game) returns (r: Option<Move>)
    requires g.Valid()
    ensures var s := g.State();
      r.None? <==> forall x, y :: !WinsAt(s, x, y)
    ensures var s := g.State();
      r.Some? ==>
        r.value.placed == s.nextPick && WinsAt(s, r.value.x, r.value.y) &&
        (forall x, y :: RowMajorBefore(x, y, r.value.x, r.value.y) ==> !WinsAt(s, x, y)) &&
        (r.value.picked.None? <==> |s.frees| == 0) &&
        (r.value.picked.Some? ==> r.value.picked.value in s.frees)
  {
    ghost var s := g.State();
    var frees := g.frees;
    var nextPick := g.nextPick;
    var randomP: Option<Piece> := None;
    if |frees| > 0 {
      var k :| 0 <= k < |frees|;
      randomP := Some(frees[k]);
    }
    var n := g.Dim();
    for y := 0 to n
      invariant forall x', y' :: RowMajorBefore(x', y', 0, y) ==> !WinsAt(s, x', y')
    {
      for x := 0 to n
        invariant forall x', y' :: RowMajorBefore(x', y', x, y) ==> !WinsAt(s, x', y')
      {
        var win := WinsHere(g, x, y);
        if win {
          assert WinsAt(s, x, y);
          return Some(Move(nextPick, x, y, randomP));
        }
      }
    }
    return None;
  }

  /** The test of `findWin`'s loop, with Java's short-circuit `&&`. */
  method WinsHere(g: Game, x: int, y: int) returns (w: bool)
    requires g.Valid()
    ensures w == WinsAt(g.State(), x, y)
  {
    w := g.IsOpen(x, y);
    if w {
      w := g.CheckWin(g.nextPick, x, y);
    }
  }

  /** `randomFirstMove`: none unless no piece has been picked yet; then some free piece is picked. */
  method RandomFirstMove(g: Game) returns (r: Option<Move>)
    requires g.Valid()
    requires g.nextPick.None? ==> |g.frees| > 0
    ensures r.None? <==> g.nextPick.Some?
    ensures r.Some? ==>
      r.value.placed.None? && r.value.x == -1 && r.value.y == -1 && r.value.picked.Some? && r.value.picked.value in g.frees
  {
    var frees := g.frees;
    if g.nextPick.None? {
      var k :| 0 <= k < |frees|;
      return Some(Move(None, -1, -1, Some(frees[k])));
    }
    return None;
  }
}
