/**
 * The search strategy (model/Game/GameAI/HardAI.java): negamax with
 * alpha-beta pruning over the live game, which every explored move is
 * played on (forced) and taken back from, memoised in a transposition
 * table. The functions `Search`, `SearchMoves` and `Root` say, on game
 * states as values, what `negamax` and `bestMove` compute and what they
 * leave behind in the game and the table; the methods of class `HardAI`
 * are proved to do exactly that.
 */
module HardAI {
  import opened Wrappers
  import opened Attributes
  import opened Pieces
  import opened Boards
  import opened Lines
  import opened Rules
  import opened Games
  import opened Keys
  import opened GameAI
  import opened Transpositions

  const MAX_SCORE: int := 10
  const MIN_SCORE: int := -10

  /** `Integer.max`. */
  function Max(a: int, b: int): int
  {
    if a >= b then a else b
  }

  /** `Integer.min`. */
  function Min(a: int, b: int): int
  {
    if a <= b then a else b
  }

  // ---- countLines ----

  /** The pieces on (0, j) .. (k-1, j), left to right: `hrzn` after k rounds. */
  function RowPieces(b: BoardView, j: int, k: nat): seq<Piece>
    requires b.WellFormed()
  {
    if k == 0 then [] else RowPieces(b, j, k - 1) + PieceIf(b, true, k - 1, j)
  }

  /** The pieces on (j, 0) .. (j, k-1), top to bottom: `vert` after k rounds. */
  function ColumnPieces(b: BoardView, j: int, k: nat): seq<Piece>
    requires b.WellFormed()
  {
    if k == 0 then [] else ColumnPieces(b, j, k - 1) + PieceIf(b, true, j, k - 1)
  }

  /** The pieces on (0, 0) .. (k-1, k-1): `diagP` after k rounds. */
  function DiagonalPieces(b: BoardView, k: nat): seq<Piece>
    requires b.WellFormed()
  {
    if k == 0 then [] else DiagonalPieces(b, k - 1) + PieceIf(b, true, k - 1, k - 1)
  }

  /** The pieces on (0, n-1) .. (k-1, n-k): `diagN` after k rounds. */
  function AntiDiagonalPieces(b: BoardView, n: int, k: nat): seq<Piece>
    requires b.WellFormed()
  {
    if k == 0 then [] else AntiDiagonalPieces(b, n, k - 1) + PieceIf(b, true, k - 1, n - 1 - (k - 1))
  }

  /**
   * `checkLine`: the line holds at least n - 1 pieces, and its first piece,
   * taken out of the list, shares a value with all the others.
   */
  predicate NearComplete(n: int, pieces: seq<Piece>)
    requires n >= 2
  {
    |pieces| >= n - 1 && CheckAllSimilar(pieces[1..], pieces[0])
  }

  /** Some value is carried by every piece of the list. */
  predicate SharesValue(pieces: seq<Piece>)
  {
    |pieces| > 0 && exists a :: a in pieces[0].atts && forall i :: 0 <= i < |pieces| ==> a in pieces[i].atts
  }

  /**
   * A line is nearly complete iff at least n - 1 of its cells are occupied
   * and all the pieces on them share a value.
   */
  lemma NearCompleteMeaning(n: int, pieces: seq<Piece>)
    requires n >= 3
    ensures NearComplete(n, pieces) <==> |pieces| >= n - 1 && SharesValue(pieces)
  {
    if |pieces| >= n - 1 {
      var rest := pieces[1..];
      if NearComplete(n, pieces) {
        var a :| a in Common(pieces[0].atts, rest);
        forall i | 0 <= i < |pieces| ensures a in pieces[i].atts {
          if i > 0 { assert pieces[i] == rest[i - 1]; }
        }
      }
      if SharesValue(pieces) {
        var a :| a in pieces[0].atts && forall i :: 0 <= i < |pieces| ==> a in pieces[i].atts;
        forall i | 0 <= i < |rest| ensures a in rest[i].atts {
          assert rest[i] == pieces[i + 1];
        }
        assert a in Common(pieces[0].atts, rest);
      }
    }
  }

  /** 1 if the pieces of a line form a nearly complete line, else 0. */
  function LineCount(n: int, pieces: seq<Piece>): int
    requires n >= 2
  {
    if NearComplete(n, pieces) then 1 else 0
  }

  /** The nearly complete lines among rows 0 .. j-1 and columns 0 .. j-1. */
  function RowsAndColumns(b: BoardView, j: nat): int
    requires b.WellFormed() && b.xLength >= 2
  {
    var n := b.xLength;
    if j == 0 then 0
    else RowsAndColumns(b, j - 1) + LineCount(n, RowPieces(b, j - 1, n)) + LineCount(n, ColumnPieces(b, j - 1, n))
  }

  /** `countLines` read off the board: nearly complete rows, columns and diagonals. */
  function NearCompleteLines(b: BoardView): int
    requires b.WellFormed() && b.xLength >= 2
  {
    var n := b.xLength;
    RowsAndColumns(b, n) + LineCount(n, DiagonalPieces(b, n)) + LineCount(n, AntiDiagonalPieces(b, n, n))
  }

  lemma {:induction false} RowsAndColumnsBounds(b: BoardView, j: nat)
    requires b.WellFormed() && b.xLength >= 2
    ensures 0 <= RowsAndColumns(b, j) <= 2 * j
  {
    if j > 0 {
      RowsAndColumnsBounds(b, j - 1);
    }
  }

  /** There are n rows, n columns and two diagonals, so at most 2n + 2 nearly complete lines. */
  lemma NearCompleteLinesBounds(b: BoardView)
    requires b.WellFormed() && b.xLength >= 2
    ensures 0 <= NearCompleteLines(b) <= 2 * b.xLength + 2
  {
    RowsAndColumnsBounds(b, b.xLength);
  }

  /** `countLines`: rows and columns in one loop, then the two diagonals. */
  method CountLines(g: Game) returns (count: int)
    requires g.Valid()
    ensures count == NearCompleteLines(g.board.View())
    ensures 0 <= count <= 2 * g.Dim() + 2
  {
    ghost var b := g.board.View();
    var n := g.Dim();
    count := 0;
    for j := 0 to n
      invariant count == RowsAndColumns(b, j)
    {
      var c := CountRowAndColumn(g, j);
      count := count + c;
    }
    var d := CountDiagonals(g);
    count := count + d;
    NearCompleteLinesBounds(b);
  }

  /** One round of the row-and-column loop of `countLines`. */
  method CountRowAndColumn(g: Game, j: int) returns (c: int)
    requires g.Valid() && 0 <= j < g.Dim()
    ensures var b, n := g.board.View(), g.Dim();
      c == LineCount(n, RowPieces(b, j, n)) + LineCount(n, ColumnPieces(b, j, n))
  {
    var n := g.Dim();
    var hrzn, vert := RowAndColumn(g, j);
    c := 0;
    if NearComplete(n, hrzn) {
      c := c + 1;
    }
    if NearComplete(n, vert) {
      c := c + 1;
    }
  }

  /** The diagonal part of `countLines`. */
  method CountDiagonals(g: Game) returns (c: int)
    requires g.Valid()
    ensures var b, n := g.board.View(), g.Dim();
      c == LineCount(n, DiagonalPieces(b, n)) + LineCount(n, AntiDiagonalPieces(b, n, n))
  {
    var n := g.Dim();
    var diagP, diagN := Diagonals(g);
    c := 0;
    if NearComplete(n, diagP) {
      c := c + 1;
    }
    if NearComplete(n, diagN) {
      c := c + 1;
    }
  }

  /** The inner loop of `countLines`: the pieces on row j and on column j. */
  method RowAndColumn(g: Game, j: int) returns (hrzn: seq<Piece>, vert: seq<Piece>)
    requires g.Valid() && 0 <= j < g.Dim()
    ensures hrzn == RowPieces(g.board.View(), j, g.Dim()) && vert == ColumnPieces(g.board.View(), j, g.Dim())
  {
    ghost var b := g.board.View();
    var n := g.Dim();
    hrzn, vert := [], [];
    for i := 0 to n
      invariant hrzn == RowPieces(b, j, i) && vert == ColumnPieces(b, j, i)
    {
      hrzn := AddIfPlaced(g, hrzn, i, j);
      vert := AddIfPlaced(g, vert, j, i);
    }
  }

  /** The diagonal loop of `countLines`. */
  method Diagonals(g: Game) returns (diagP: seq<Piece>, diagN: seq<Piece>)
    requires g.Valid()
    ensures diagP == DiagonalPieces(g.board.View(), g.Dim()) && diagN == AntiDiagonalPieces(g.board.View(), g.Dim(), g.Dim())
  {
    ghost var b := g.board.View();
    var n := g.Dim();
    diagP, diagN := [], [];
    for k := 0 to n
      invariant diagP == DiagonalPieces(b, k) && diagN == AntiDiagonalPieces(b, n, k)
    {
      diagP := AddIfPlaced(g, diagP, k, k);
      diagN := AddIfPlaced(g, diagN, k, n - 1 - k);
    }
  }

  /** `if (!g.isOpen(x, y)) list.add(g.getPiece(x, y))` for a cell (x, y) of the board. */
  method AddIfPlaced(g: Game, acc: seq<Piece>, x: int, y: int) returns (r: seq<Piece>)
    requires g.Valid() && g.board.View().IsValid(x, y)
    ensures r == acc + PieceIf(g.board.View(), true, x, y)
  {
    r := acc;
    if !g.IsOpen(x, y) {
      r := acc + [g.board.Get(x, y).value];
    }
  }

  // ---- negamax and bestMove on values ----

  /** What one call of `negamax` returns and leaves behind: its score, the game and the table. */
  datatype Outcome = Outcome(score: int, state: GameState, table: Table)

  /** A state the search can run on: a well-formed square board of side 2 or more. */
  ghost predicate Searchable(s: GameState)
  {
    s.Valid() && s.board.xLength >= 2
  }

  /**
   * `negamax(g, depth, alpha, beta, turn)` with the game in state s and the
   * table holding tt, its table lookup: a stored entry searched at least as
   * deep is used, an exact one as the score, a bound to narrow the window
   * the tree search below runs with.
   */
  function Search(s: GameState, tt: Table, depth: nat, alpha: int, beta: int, turn: int): (r: Outcome)
    requires Searchable(s)
    ensures Searchable(r.state) && r.state.board.xLength == s.board.xLength
    decreases depth, 1, 1
  {
    var key := BoardState(s.board, s.nextPick);
    var hit := key in tt && tt[key].depth >= depth;
    if hit && tt[key].flag == EXACT then Outcome(tt[key].value, s, tt)
    else
      var a := if hit && tt[key].flag == UPPER then Max(alpha, tt[key].value) else alpha;
      var b := if hit && tt[key].flag == LOWER then Min(beta, tt[key].value) else beta;
      Expand(s, tt, depth, alpha, a, b, turn)
  }

  /**
   * The tree search of `negamax` with the window (alpha, beta), alphaPrior
   * being the alpha it was called with. At depth 0 the score is `turn`
   * times the number of nearly complete lines; a finished game scores 1;
   * otherwise every generated move is searched one level deeper with the
   * window negated, until the window closes, and the best score is stored
   * under the position reached after the loop.
   */
  function Expand(s: GameState, tt: Table, depth: nat, alphaPrior: int, alpha: int, beta: int, turn: int): (r: Outcome)
    requires Searchable(s)
    ensures Searchable(r.state) && r.state.board.xLength == s.board.xLength
    decreases depth, 1, 0
  {
    if depth == 0 then Outcome(turn * NearCompleteLines(s.board), s, tt)
    else if Winner(s) != -1 then Outcome(1, s, tt)
    else
      var l := SearchMoves(s, tt, AllMoves(s), depth - 1, alpha, beta, turn, MIN_SCORE);
      Outcome(l.score, l.state, l.table[BoardState(l.state.board, l.state.nextPick) := EntryOf(depth, alphaPrior, beta, l.score)])
  }

  /**
   * The move loop of `negamax` from the move `moves[0]` on, with the window
   * (alpha, beta) and the best score so far: each move is played (forced),
   * searched to depth `next` and taken back (forced); the loop stops once
   * alpha reaches beta.
   */
  function SearchMoves(s: GameState, tt: Table, moves: seq<Move>, next: nat, alpha: int, beta: int, turn: int, best: int)
    : (r: Outcome)
    requires Searchable(s)
    ensures Searchable(r.state) && r.state.board.xLength == s.board.xLength
    decreases next, 2, |moves|
  {
    if |moves| == 0 then Outcome(best, s, tt)
    else
      var t := Try(s, tt, moves[0], next, alpha, beta, turn);
      var best', alpha' := Max(best, t.score), Max(alpha, t.score);
      if alpha' >= beta then Outcome(best', t.state, t.table)
      else SearchMoves(t.state, t.table, moves[1..], next, alpha', beta, turn, best')
  }

  /** A score, a window bound or a turn seen from the other player. */
  function Neg(x: int): int
  {
    -x
  }

  /** The search of the move m (forced) from s, with the window (alpha, beta) seen from the other side. */
  function Child(s: GameState, tt: Table, m: Move, next: nat, alpha: int, beta: int, turn: int): (r: Outcome)
    requires Searchable(s)
    ensures Searchable(r.state) && r.state.board.xLength == s.board.xLength
    decreases next, 1, 2
  {
    Search(MakeMoveFrom(s, Some(m), true), tt, next, Neg(beta), Neg(alpha), Neg(turn))
  }

  /** One round of the move loop: the child's score negated, the move taken back (forced), the child's table. */
  function Try(s: GameState, tt: Table, m: Move, next: nat, alpha: int, beta: int, turn: int): (r: Outcome)
    requires Searchable(s)
    ensures Searchable(r.state) && r.state.board.xLength == s.board.xLength
    decreases next, 1, 3
  {
    var child := Child(s, tt, m, next, alpha, beta, turn);
    Outcome(-child.score, Undo(child.state, true).0, child.table)
  }

  /** The table lookup of `negamax`: an exact entry searched deep enough is the result. */
  lemma SearchExact(s: GameState, tt: Table, depth: nat, alpha: int, beta: int, turn: int, e: TTEntry)
    requires Searchable(s)
    requires var key := BoardState(s.board, s.nextPick); key in tt && tt[key] == e && e.depth >= depth && e.flag == EXACT
    ensures Search(s, tt, depth, alpha, beta, turn) == Outcome(e.value, s, tt)
  {
  }

  /**
   * The table lookup of `negamax` without an exact entry searched deep
   * enough: the tree search runs with the window narrowed to (a, b) by an
   * entry searched deep enough, or left as it was.
   */
  lemma SearchLookup(s: GameState, tt: Table, depth: nat, alpha: int, beta: int, turn: int, a: int, b: int)
    requires Searchable(s)
    requires var key := BoardState(s.board, s.nextPick);
      var hit := key in tt && tt[key].depth >= depth;
      !(hit && tt[key].flag == EXACT) &&
      a == (if hit && tt[key].flag == UPPER then Max(alpha, tt[key].value) else alpha) &&
      b == (if hit && tt[key].flag == LOWER then Min(beta, tt[key].value) else beta)
    ensures Search(s, tt, depth, alpha, beta, turn) == Expand(s, tt, depth, alpha, a, b, turn)
  {
  }

  /** The tree search of `negamax`, case by case, with the children searched to depth `next`. */
  lemma ExpandCases(s: GameState, tt: Table, depth: nat, alphaPrior: int, alpha: int, beta: int, turn: int, next: int)
    requires Searchable(s) && next == depth - 1
    ensures depth == 0 ==> Expand(s, tt, depth, alphaPrior, alpha, beta, turn) == Outcome(turn * NearCompleteLines(s.board), s, tt)
    ensures depth > 0 && Winner(s) != -1 ==> Expand(s, tt, depth, alphaPrior, alpha, beta, turn) == Outcome(1, s, tt)
    ensures depth > 0 && Winner(s) == -1 ==>
      var l := SearchMoves(s, tt, AllMoves(s), next, alpha, beta, turn, MIN_SCORE);
      Expand(s, tt, depth, alphaPrior, alpha, beta, turn) ==
        Outcome(l.score, l.state, l.table[BoardState(l.state.board, l.state.nextPick) := EntryOf(depth, alphaPrior, beta, l.score)])
  {
  }

  /** One round of the move loop, in terms of what the child search returned. */
  lemma SearchMovesStep(s: GameState, tt: Table, moves: seq<Move>, next: nat, alpha: int, beta: int, turn: int, best: int,
                        score: int, after: GameState, table: Table)
    requires Searchable(s) && |moves| > 0
    requires Try(s, tt, moves[0], next, alpha, beta, turn) == Outcome(score, after, table)
    ensures SearchMoves(s, tt, moves, next, alpha, beta, turn, best) ==
      if Max(alpha, score) >= beta then Outcome(Max(best, score), after, table)
      else SearchMoves(after, table, moves[1..], next, Max(alpha, score), beta, turn, Max(best, score))
  {
  }

  /** One round of the root loop, in terms of what the child search returned. */
  lemma RootMovesStep(s: GameState, tt: Table, moves: seq<Move>, i: nat, depth: nat, bestScore: int, best: Option<Move>,
                      scores: seq<int>, score: int, after: GameState, table: Table)
    requires Searchable(s) && i < |moves|
    requires var child := Child(s, tt, moves[i], depth, MIN_SCORE, MAX_SCORE, -1);
      score == child.score && after == Undo(child.state, true).0 && table == child.table
    ensures RootMoves(s, tt, moves, i, depth, bestScore, best, scores) ==
      RootMoves(after, table, moves, i + 1, depth, if score >= bestScore then score else bestScore,
                if score >= bestScore then Some(moves[i]) else best, scores + [score])
  {
  }

  /** What `bestMove` returns and leaves behind, with the scores of the root moves in order. */
  datatype RootOutcome = RootOutcome(best: Option<Move>, bestScore: int, scores: seq<int>, state: GameState, table: Table)

  /** The search depth of `bestMove`: two extra levels for at most 75 root moves, one for at most 150. */
  function Depth(maxDepth: nat, count: nat): nat
  {
    maxDepth + 150 / Max(75, count)
  }

  /**
   * The root loop of `bestMove` from `moves[i]` on: each move is played
   * (forced), searched to the full depth with the widest window and turn 1,
   * its score not negated, and taken back; a score at least the best so far
   * replaces it, so the last of equal scores wins.
   */
  function RootMoves(s: GameState, tt: Table, moves: seq<Move>, i: nat, depth: nat, bestScore: int, best: Option<Move>,
                     scores: seq<int>): (r: RootOutcome)
    requires Searchable(s) && i <= |moves|
    ensures Searchable(r.state) && r.state.board.xLength == s.board.xLength
    decreases |moves| - i
  {
    if i == |moves| then RootOutcome(best, bestScore, scores, s, tt)
    else
      // The search of moves[i] with the window (MIN_SCORE, MAX_SCORE) and turn 1,
      // which are what `Child` makes of the mirrored window and turn -1.
      var child := Child(s, tt, moves[i], depth, MIN_SCORE, MAX_SCORE, -1);
      var after := Undo(child.state, true).0;
      var better := child.score >= bestScore;
      RootMoves(after, child.table, moves, i + 1, depth, if better then child.score else bestScore,
                if better then Some(moves[i]) else best, scores + [child.score])
  }

  /** `bestMove(g, maxDepth)` with the game in state s: the table is cleared, then every generated move is scored. */
  function Root(s: GameState, maxDepth: nat): RootOutcome
    requires Searchable(s)
  {
    var moves := AllMoves(s);
    RootMoves(s, map[], moves, 0, Depth(maxDepth, |moves|), MIN_SCORE, None, [])
  }

  // ---- The search on the live game ----

  class HardAI {
    const tt: TranspositionTable

    constructor ()
      ensures fresh(tt) && tt.table == map[]
    {
      tt := new TranspositionTable();
    }

    /** `negamax`: the score, the game and the table are those `Search` describes. */
    method Negamax(g: Game, depth: int, alpha: int, beta: int, turn: int) returns (best: int)
      requires g.Valid() && depth >= 0
      modifies g, g.board, g.board.cells, tt
      ensures g.Valid() && g.cpu == old(g.cpu)
      ensures Outcome(best, g.State(), tt.table) == Search(old(g.State()), old(tt.table), depth, alpha, beta, turn)
      decreases depth, 3
    {
      ghost var s, table := g.State(), tt.table;
      var alphaPrior := alpha;
      var a, b := alpha, beta;
      var entry := tt.Get(g);
      if entry.Some? && entry.value.depth >= depth {
        var flag := entry.value.flag;
        if flag == EXACT {
          SearchExact(s, table, depth, alpha, beta, turn, entry.value);
          return entry.value.value;
        }
        if flag == UPPER {
          a := Max(a, entry.value.value);
        } else {
          b := Min(b, entry.value.value);
        }
      }
      var next := depth - 1;
      SearchLookup(s, table, depth, alpha, beta, turn, a, b);
      ExpandCases(s, table, depth, alpha, a, b, turn, next);
      if depth == 0 {
        var count := CountLines(g);
        return turn * count;
      }
      if g.Winner() != -1 {
        return 1;
      }
      var moves := GenAllMoves(g);
      best := MoveLoop(g, moves, next, a, b, turn);
      ghost var l := SearchMoves(s, table, moves, next, a, b, turn, MIN_SCORE);
      assert Outcome(best, g.State(), tt.table) == l;
      tt.Add(g, depth, alphaPrior, b, best);
      assert g.State() == l.state;
    }

    /** The move loop of `negamax` with children searched to depth `next`, from a best score of MIN_SCORE. */
    method MoveLoop(g: Game, moves: seq<Move>, next: int, alpha: int, beta: int, turn: int) returns (best: int)
      requires g.Valid() && next >= 0
      modifies g, g.board, g.board.cells, tt
      ensures g.Valid() && g.cpu == old(g.cpu)
      ensures Outcome(best, g.State(), tt.table) ==
        SearchMoves(old(g.State()), old(tt.table), moves, next, alpha, beta, turn, MIN_SCORE)
      decreases next + 1, 2
    {
      best := MIN_SCORE;
      var a := alpha;
      ghost var goal := SearchMoves(g.State(), tt.table, moves, next, alpha, beta, turn, MIN_SCORE);
      var i := 0;
      while i < |moves|
        invariant 0 <= i <= |moves|
        invariant g.Valid() && g.cpu == old(g.cpu)
        invariant SearchMoves(g.State(), tt.table, moves[i..], next, a, beta, turn, best) == goal
        decreases |moves| - i
      {
        ghost var rest := moves[i..];
        assert rest[0] == moves[i] && rest[1..] == moves[i + 1..];
        var score := Round(g, moves[i], next, a, beta, turn, rest, best);
        best := Max(best, score);
        a := Max(a, score);
        if a >= beta {
          break;
        }
        i := i + 1;
      }
    }

    /**
     * One round of the move loop: play m (forced), search it to depth `next`
     * and take it back (forced); in terms of `SearchMoves` over the moves
     * `rest` that start with m, this is one step of the loop.
     */
    method Round(g: Game, m: Move, next: int, alpha: int, beta: int, turn: int,
                 ghost rest: seq<Move>, ghost best: int) returns (score: int)
      requires g.Valid() && next >= 0 && |rest| > 0 && rest[0] == m
      modifies g, g.board, g.board.cells, tt
      ensures g.Valid() && g.cpu == old(g.cpu)
      ensures SearchMoves(old(g.State()), old(tt.table), rest, next, alpha, beta, turn, best) ==
        if Max(alpha, score) >= beta then Outcome(Max(best, score), g.State(), tt.table)
        else SearchMoves(g.State(), tt.table, rest[1..], next, Max(alpha, score), beta, turn, Max(best, score))
      decreases next + 1, 1
    {
      ghost var s, table := g.State(), tt.table;
      g.MakeMoveFrom(Some(m), true);
      ghost var c := g.State();
      assert c == MakeMoveFrom(s, Some(m), true) && tt.table == table;
      score := Negamax(g, next, Neg(beta), Neg(alpha), Neg(turn));
      ghost var child := Search(c, table, next, Neg(beta), Neg(alpha), Neg(turn));
      assert child == Outcome(score, g.State(), tt.table) && child == Child(s, table, m, next, alpha, beta, turn);
      score := -score;
      var _ := g.UndoTurn(true);
      assert Try(s, table, m, next, alpha, beta, turn) == Outcome(score, g.State(), tt.table);
      SearchMovesStep(s, table, rest, next, alpha, beta, turn, best, score, g.State(), tt.table);
    }

    /** `bestMove`: the move, the game and the table are those `Root` describes. */
    method BestMove(g: Game, maxDepth: int) returns (bestMove: Option<Move>)
      requires g.Valid() && maxDepth >= 0
      modifies g, g.board, g.board.cells, tt
      ensures g.Valid() && g.cpu == old(g.cpu)
      ensures var r := Root(old(g.State()), maxDepth);
        bestMove == r.best && g.State() == r.state && tt.table == r.table
    {
      var allMoves := GenAllMoves(g);
      var bestScore := MIN_SCORE;
      bestMove := None;
      var depth := maxDepth + 150 / Max(75, |allMoves|);
      tt.Clear();
      ghost var goal := RootMoves(g.State(), tt.table, allMoves, 0, depth, bestScore, bestMove, []);
      assert goal == Root(g.State(), maxDepth);
      ghost var scores: seq<int> := [];
      for i := 0 to |allMoves|
        invariant g.Valid() && g.cpu == old(g.cpu)
        invariant RootMoves(g.State(), tt.table, allMoves, i, depth, bestScore, bestMove, scores) == goal
      {
        ghost var pre, preTable := g.State(), tt.table;
        var score := RootRound(g, allMoves[i], depth);
        RootMovesStep(pre, preTable, allMoves, i, depth, bestScore, bestMove, scores, score, g.State(), tt.table);
        scores := scores + [score];
        if score >= bestScore {
          bestScore := score;
          bestMove := Some(allMoves[i]);
        }
      }
    }

    /** One round of the root loop: play m (forced), search it with the widest window and take it back (forced). */
    method RootRound(g: Game, m: Move, depth: int) returns (score: int)
      requires g.Valid() && depth >= 0
      modifies g, g.board, g.board.cells, tt
      ensures g.Valid() && g.cpu == old(g.cpu)
      ensures var child := Child(old(g.State()), old(tt.table), m, depth, MIN_SCORE, MAX_SCORE, -1);
        score == child.score && g.State() == Undo(child.state, true).0 && tt.table == child.table
    {
      ghost var s, table := g.State(), tt.table;
      g.MakeMoveFrom(Some(m), true);
      ghost var c := g.State();
      assert c == MakeMoveFrom(s, Some(m), true) && tt.table == table;
      score := Negamax(g, depth, MIN_SCORE, MAX_SCORE, 1);
      ghost var child := Search(c, table, depth, MIN_SCORE, MAX_SCORE, 1);
      assert child == Outcome(score, g.State(), tt.table) && child == Child(s, table, m, depth, MIN_SCORE, MAX_SCORE, -1);
      var _ := g.UndoTurn(true);
    }

    /**
     * `genMove`: the first pick if nothing has been picked yet, else the
     * first immediate win, else the best move of a search of 7 - n levels
     * (plus the budget `Depth` adds).
     */
    method GenMove(g: Game) returns (m: Option<Move>)
      requires g.Valid()
      requires g.nextPick.None? ==> |g.frees| > 0
      modifies g, g.board, g.board.cells, tt
      ensures g.Valid() && g.cpu == old(g.cpu)
      ensures var s := old(g.State());
        s.nextPick.None? ==>
          m.Some? && m.value.placed.None? && m.value.x == -1 && m.value.y == -1 &&
          m.value.picked.Some? && m.value.picked.value in s.frees &&
          g.State() == s && tt.table == old(tt.table)
      ensures var s := old(g.State());
        s.nextPick.Some? && (exists x, y :: WinsAt(s, x, y)) ==>
          m.Some? && m.value.placed == s.nextPick && WinsAt(s, m.value.x, m.value.y) &&
          (forall x, y :: RowMajorBefore(x, y, m.value.x, m.value.y) ==> !WinsAt(s, x, y)) &&
          (m.value.picked.None? <==> |s.frees| == 0) && (m.value.picked.Some? ==> m.value.picked.value in s.frees) &&
          g.State() == s && tt.table == old(tt.table)
      ensures var s := old(g.State());
        s.nextPick.Some? && (forall x, y :: !WinsAt(s, x, y)) ==>
          var r := Root(s, 7 - old(g.Dim()));
          m == r.best && g.State() == r.state && tt.table == r.table
    {
      var maxDepth := 7 - g.Dim();
      if g.nextPick.None? {
        m := RandomFirstMove(g);
        return;
      }
      var winMove := FindWin(g);
      if winMove.Some? {
        return winMove;
      }
      m := BestMove(g, maxDepth);
    }
  }
}
