/**
 * The heuristic strategy (model/Game/GameAI/NormalAI.java): win at once if
 * possible; otherwise place the next pick where it lines up with the fewest
 * shared attribute values and hand over the free piece that shares the
 * fewest values with the pieces in play.
 */
module NormalAI {
  import opened Wrappers
  import opened Attributes
  import opened Pieces
  import opened Boards
  import opened Lines
  import opened Rules
  import opened Games
  import opened GameAI

  /** `Integer.MAX_VALUE`, the starting minimum of both scans. */
  const MAX_VALUE: int := 0x7fff_ffff

  // ---- Scores as functions of the board ----

  /** `counts[x][y]`: the values p shares with the piece on (x, y), -1 for an empty cell. */
  function Count(b: BoardView, p: Piece, x: int, y: int): int
    requires b.WellFormed()
  {
    CountShared(p, b.Get(x, y))
  }

  /** The counts over a list of cells. */
  function BoardSum(b: BoardView, p: Piece, cs: seq<Cell>): int
    requires b.WellFormed()
  {
    if |cs| == 0 then 0 else BoardSum(b, p, cs[..|cs| - 1]) + Count(b, p, cs[|cs| - 1].0, cs[|cs| - 1].1)
  }

  /** `calcSimScore` read off the board: the counts over the other cells of every line through (x, y). */
  function SimScore(b: BoardView, p: Piece, x: int, y: int): int
    requires b.WellFormed()
  {
    var n := b.xLength;
    BoardSum(b, p, ColumnOthers(x, y, n)) + BoardSum(b, p, RowOthers(y, x, n)) +
    BoardSum(b, p, DiagOthers(x, y, n)) + BoardSum(b, p, AntiOthers(x, y, n, n))
  }

  /** The `pickCounterPiece` score of fp: the values it shares with each of `pieces`. */
  function PieceScore(fp: Piece, pieces: seq<Piece>): int
  {
    if |pieces| == 0 then 0 else PieceScore(fp, pieces[..|pieces| - 1]) + CountShared(fp, Some(pieces[|pieces| - 1]))
  }

  /** The pieces `pickCounterPiece` compares against: the active ones and the next pick. */
  function InPlay(s: GameState): seq<Piece>
  {
    s.actives + if s.nextPick.Some? then [s.nextPick.value] else []
  }

  // ---- Bounds: the scans' starting value `MAX_VALUE` is never reached on a game's board ----

  lemma AttsAtMost12(atts: set<Att>)
    ensures |atts| <= 12
  {
    var all := {BWN, YLW, BIG, SML, SQR, CIR, HLW, SLD, FORW, BACK, VERT, DASH};
    forall a | a in atts ensures a in all {
      match a
      case BWN => case YLW => case BIG => case SML => case SQR => case CIR =>
      case HLW => case SLD => case FORW => case BACK => case VERT => case DASH =>
    }
    SubsetCardinality(atts, all);
  }

  /** Every cell of cs lies on a w by h grid. */
  ghost predicate InBounds(cs: seq<Cell>, w: int, h: int)
  {
    forall c :: c in cs ==> 0 <= c.0 < w && 0 <= c.1 < h
  }

  /** The first k cells of each line through (x, y) lie on the n by n board, at most k of them. */
  lemma OthersInBounds(x: int, y: int, n: int, k: nat)
    requires 0 <= x < n && 0 <= y < n && k <= n
    ensures InBounds(ColumnOthers(x, y, k), n, n) && |ColumnOthers(x, y, k)| <= k
    ensures InBounds(RowOthers(y, x, k), n, n) && |RowOthers(y, x, k)| <= k
    ensures InBounds(DiagOthers(x, y, k), n, n) && |DiagOthers(x, y, k)| <= k
    ensures InBounds(AntiOthers(x, y, n, k), n, n) && |AntiOthers(x, y, n, k)| <= k
  {
    ColumnOthersShape(x, y, k);
    RowOthersShape(y, x, k);
    DiagOthersShape(x, y, k);
    AntiOthersShape(x, y, n, k);
  }

  lemma {:induction false} BoardSumBounds(b: BoardView, p: Piece, cs: seq<Cell>)
    requires b.WellFormed()
    ensures -|cs| <= BoardSum(b, p, cs) <= 12 * |cs|
  {
    if |cs| > 0 {
      BoardSumBounds(b, p, cs[..|cs| - 1]);
      var c := cs[|cs| - 1];
      AttsAtMost12(p.atts);
      if b.Get(c.0, c.1).Some? {
        SimilarityLaws(p, b.Get(c.0, c.1).value);
      }
    }
  }

  /** Each line through a cell of an n by n board has at most n other cells. */
  lemma OthersLengths(x: int, y: int, n: int)
    requires 0 <= x < n && 0 <= y < n
    ensures |ColumnOthers(x, y, n)| <= n && |RowOthers(y, x, n)| <= n
    ensures |DiagOthers(x, y, n)| <= n && |AntiOthers(x, y, n, n)| <= n
  {
    OthersInBounds(x, y, n, n);
  }

  /** A cell's score is at most 12 per other cell of its lines, far below `MAX_VALUE` on a board of side at most 5. */
  lemma SimScoreBound(b: BoardView, p: Piece, x: int, y: int)
    requires b.WellFormed() && b.xLength == b.yLength <= 5 && b.IsValid(x, y)
    ensures SimScore(b, p, x, y) <= 240 < MAX_VALUE
  {
    var n := b.xLength;
    OthersLengths(x, y, n);
    var c, r, d, a := ColumnOthers(x, y, n), RowOthers(y, x, n), DiagOthers(x, y, n), AntiOthers(x, y, n, n);
    BoardSumBounds(b, p, c);
    BoardSumBounds(b, p, r);
    BoardSumBounds(b, p, d);
    BoardSumBounds(b, p, a);
    assert SimScore(b, p, x, y) == BoardSum(b, p, c) + BoardSum(b, p, r) + BoardSum(b, p, d) + BoardSum(b, p, a);
  }

  lemma {:induction false} PieceScoreBounds(fp: Piece, pieces: seq<Piece>)
    ensures 0 <= PieceScore(fp, pieces) <= 12 * |pieces|
  {
    if |pieces| > 0 {
      PieceScoreBounds(fp, pieces[..|pieces| - 1]);
      AttsAtMost12(fp.atts);
      SimilarityLaws(fp, pieces[|pieces| - 1]);
    }
  }

  // ---- The array of counts ----

  /** The entry of `counts` at (a, c); a cell off the array adds nothing. */
  ghost function Entry(counts: array2<int>, a: int, c: int): int
    reads counts
  {
    if 0 <= a < counts.Length0 && 0 <= c < counts.Length1 then counts[a, c] else 0
  }

  /** The entries of `counts` over a list of cells. */
  ghost function CountsSum(counts: array2<int>, cs: seq<Cell>): int
    reads counts
  {
    if |cs| == 0 then 0 else CountsSum(counts, cs[..|cs| - 1]) + Entry(counts, cs[|cs| - 1].0, cs[|cs| - 1].1)
  }

  /** `counts` holds `Count` for every cell of the board. */
  ghost predicate Matches(counts: array2<int>, b: BoardView, p: Piece)
    reads counts
    requires b.WellFormed()
  {
    counts.Length0 == b.xLength && counts.Length1 == b.yLength &&
    forall x, y :: 0 <= x < b.xLength && 0 <= y < b.yLength ==> counts[x, y] == Count(b, p, x, y)
  }

  lemma {:induction false} CountsSumIsBoardSum(counts: array2<int>, b: BoardView, p: Piece, cs: seq<Cell>)
    requires b.WellFormed() && Matches(counts, b, p) && InBounds(cs, b.xLength, b.yLength)
    ensures CountsSum(counts, cs) == BoardSum(b, p, cs)
  {
    if |cs| > 0 {
      var c := cs[|cs| - 1];
      assert c in cs;
      assert forall d :: d in cs[..|cs| - 1] ==> d in cs;
      CountsSumIsBoardSum(counts, b, p, cs[..|cs| - 1]);
    }
  }

  /** The first loop of `pickCounterXY`: fill `counts` row by row. */
  method Counts(g: Game) returns (counts: array2<int>)
    requires g.Valid() && g.nextPick.Some?
    ensures fresh(counts) && Matches(counts, g.State().board, g.nextPick.value)
  {
    ghost var b := g.State().board;
    var n := g.Dim();
    var nextPick := g.nextPick.value;
    counts := new int[n, n];
    for y := 0 to n
      invariant forall a, c :: 0 <= a < n && 0 <= c < y ==> counts[a, c] == Count(b, nextPick, a, c)
    {
      for x := 0 to n
        invariant forall a, c :: 0 <= a < n && 0 <= c < y ==> counts[a, c] == Count(b, nextPick, a, c)
        invariant forall a :: 0 <= a < x ==> counts[a, y] == Count(b, nextPick, a, y)
      {
        counts[x, y] := CountShared(nextPick, g.board.Get(x, y));
      }
    }
  }

  // ---- calcSimScore ----

  /** The entries of column x above row k, without row `skip`. */
  ghost function ColumnSum(counts: array2<int>, x: int, skip: int, k: nat): int
    reads counts
  {
    if k == 0 then 0 else ColumnSum(counts, x, skip, k - 1) + if k - 1 != skip then Entry(counts, x, k - 1) else 0
  }

  /** The entries of row y left of column k, without column `skip`. */
  ghost function RowSum(counts: array2<int>, y: int, skip: int, k: nat): int
    reads counts
  {
    if k == 0 then 0 else RowSum(counts, y, skip, k - 1) + if k - 1 != skip then Entry(counts, k - 1, y) else 0
  }

  /** The entries of the diagonal y = x left of column k, without (x, y); nothing if (x, y) is off it. */
  ghost function DiagSum(counts: array2<int>, x: int, y: int, k: nat): int
    reads counts
  {
    if k == 0 then 0 else DiagSum(counts, x, y, k - 1) + if x == y && k - 1 != x then Entry(counts, k - 1, k - 1) else 0
  }

  /** The entries of the diagonal x + y = n - 1 left of column k, without (x, y); nothing if (x, y) is off it. */
  ghost function AntiSum(counts: array2<int>, x: int, y: int, n: int, k: nat): int
    reads counts
  {
    if k == 0 then 0 else
      AntiSum(counts, x, y, n, k - 1) + if x + y == n - 1 && k - 1 != x then Entry(counts, k - 1, n - 1 - (k - 1)) else 0
  }

  /** What `calcSimScore`'s loop has summed after its first k rounds. */
  ghost function PartialScore(counts: array2<int>, x: int, y: int, k: nat): int
    reads counts
  {
    ColumnSum(counts, x, y, k) + RowSum(counts, y, x, k) + DiagSum(counts, x, y, k) + AntiSum(counts, x, y, counts.Length0, k)
  }

  /** `calcSimScore` on the array: its entries over the other cells of every line through (x, y). */
  ghost function ArrayScore(counts: array2<int>, x: int, y: int): int
    reads counts
  {
    PartialScore(counts, x, y, counts.Length0)
  }

  /** A step of the sum over one line: the entry at c is added if `keep` holds. */
  lemma SumStep(counts: array2<int>, cs: seq<Cell>, c: Cell, keep: bool)
    ensures CountsSum(counts, cs + if keep then [c] else []) == CountsSum(counts, cs) + if keep then Entry(counts, c.0, c.1) else 0
  {
    if keep {
      assert (cs + [c])[..|cs|] == cs;
    } else {
      assert cs + [] == cs;
    }
  }

  lemma {:induction false} ColumnSumIsCountsSum(counts: array2<int>, x: int, y: int, k: nat)
    ensures ColumnSum(counts, x, y, k) == CountsSum(counts, ColumnOthers(x, y, k))
  {
    if k > 0 {
      ColumnSumIsCountsSum(counts, x, y, k - 1);
      SumStep(counts, ColumnOthers(x, y, k - 1), (x, k - 1), k - 1 != y);
    }
  }

  lemma {:induction false} RowSumIsCountsSum(counts: array2<int>, x: int, y: int, k: nat)
    ensures RowSum(counts, y, x, k) == CountsSum(counts, RowOthers(y, x, k))
  {
    if k > 0 {
      RowSumIsCountsSum(counts, x, y, k - 1);
      SumStep(counts, RowOthers(y, x, k - 1), (k - 1, y), k - 1 != x);
    }
  }

  lemma {:induction false} DiagSumIsCountsSum(counts: array2<int>, x: int, y: int, k: nat)
    ensures DiagSum(counts, x, y, k) == CountsSum(counts, DiagOthers(x, y, k))
  {
    if k > 0 {
      var keep := x == y && k - 1 != x;
      DiagSumIsCountsSum(counts, x, y, k - 1);
      assert DiagOthers(x, y, k) == DiagOthers(x, y, k - 1) + if keep then [(k - 1, k - 1)] else [];
      SumStep(counts, DiagOthers(x, y, k - 1), (k - 1, k - 1), keep);
    }
  }

  lemma {:induction false} AntiSumIsCountsSum(counts: array2<int>, x: int, y: int, n: int, k: nat)
    ensures AntiSum(counts, x, y, n, k) == CountsSum(counts, AntiOthers(x, y, n, k))
  {
    if k > 0 {
      AntiSumIsCountsSum(counts, x, y, n, k - 1);
      SumStep(counts, AntiOthers(x, y, n, k - 1), (k - 1, n - 1 - (k - 1)), x + y == n - 1 && k - 1 != x);
    }
  }

  /** Over an array of counts that matches the board, the array's score is the board's. */
  lemma ArrayScoreIsSimScore(counts: array2<int>, b: BoardView, p: Piece, x: int, y: int)
    requires b.WellFormed() && b.xLength == b.yLength && Matches(counts, b, p) && b.IsValid(x, y)
    ensures ArrayScore(counts, x, y) == SimScore(b, p, x, y)
  {
    var n := b.xLength;
    OthersInBounds(x, y, n, n);
    ColumnSumIsCountsSum(counts, x, y, n);
    RowSumIsCountsSum(counts, x, y, n);
    DiagSumIsCountsSum(counts, x, y, n);
    AntiSumIsCountsSum(counts, x, y, n, n);
    CountsSumIsBoardSum(counts, b, p, ColumnOthers(x, y, n));
    CountsSumIsBoardSum(counts, b, p, RowOthers(y, x, n));
    CountsSumIsBoardSum(counts, b, p, DiagOthers(x, y, n));
    CountsSumIsBoardSum(counts, b, p, AntiOthers(x, y, n, n));
  }

  /** What round i of `calcSimScore`'s loop adds: the entries at (x, i), (i, y), (i, i) and (i, n - 1 - i) that lie on (x, y)'s lines. */
  ghost function RoundScore(counts: array2<int>, x: int, y: int, i: nat): int
    reads counts
    requires counts.Length0 == counts.Length1 && 0 <= x < counts.Length0 && 0 <= y < counts.Length0
    requires i < counts.Length0
  {
    var n := counts.Length0;
    (if i != y then counts[x, i] else 0) + (if i != x then counts[i, y] else 0) +
    (if i != x && x == y then counts[i, i] else 0) + (if i != x && x + y == n - 1 then counts[i, n - 1 - i] else 0)
  }

  lemma {:induction false} ScoreStep(counts: array2<int>, x: int, y: int, i: nat)
    requires counts.Length0 == counts.Length1 && 0 <= x < counts.Length0 && 0 <= y < counts.Length0
    requires i < counts.Length0
    ensures PartialScore(counts, x, y, i + 1) == PartialScore(counts, x, y, i) + RoundScore(counts, x, y, i)
  {
  }

  /** `calcSimScore`: sum the entries over column x, row y and each diagonal through (x, y), skipping (x, y). */
  method CalcSimScore(counts: array2<int>, x: int, y: int) returns (score: int)
    requires counts.Length0 == counts.Length1 && 0 <= x < counts.Length0 && 0 <= y < counts.Length0
    ensures score == ArrayScore(counts, x, y)
  {
    var n := counts.Length0;
    var onYeqX, onYeqNX := x == y, x + y == n - 1;
    score := 0;
    for i := 0 to n
      invariant score == PartialScore(counts, x, y, i)
    {
      score := NextRound(counts, x, y, i, onYeqX, onYeqNX, score);
    }
  }

  /** One round of `calcSimScore`'s loop, from the sum of the first i rounds to that of the first i + 1. */
  method NextRound(counts: array2<int>, x: int, y: int, i: nat, onYeqX: bool, onYeqNX: bool, score0: int)
    returns (score: int)
    requires counts.Length0 == counts.Length1 && 0 <= x < counts.Length0 && 0 <= y < counts.Length0
    requires i < counts.Length0 && score0 == PartialScore(counts, x, y, i)
    requires onYeqX == (x == y) && onYeqNX == (x + y == counts.Length0 - 1)
    ensures score == PartialScore(counts, x, y, i + 1)
  {
    ScoreStep(counts, x, y, i);
    score := AddRound(counts, x, y, i, onYeqX, onYeqNX, score0);
  }

  /** The body of `calcSimScore`'s loop: round i adds the entries of (x, y)'s lines in column i and row i. */
  method AddRound(counts: array2<int>, x: int, y: int, i: int, onYeqX: bool, onYeqNX: bool, score0: int)
    returns (score: int)
    requires counts.Length0 == counts.Length1 && 0 <= x < counts.Length0 && 0 <= y < counts.Length0
    requires 0 <= i < counts.Length0
    requires onYeqX == (x == y) && onYeqNX == (x + y == counts.Length0 - 1)
    ensures score == score0 + RoundScore(counts, x, y, i)
  {
    var n := counts.Length0;
    score := score0;
    if i != y {
      score := score + counts[x, i];
    }
    if i != x {
      score := score + counts[i, y];
      if onYeqX {
        score := score + counts[i, i];
      }
      if onYeqNX {
        score := score + counts[i, n - 1 - i];
      }
    }
  }

  // ---- pickCounterXY ----

  /**
   * The second loop of `pickCounterXY` after scanning every open cell before
   * (x, y), row by row: the best cell so far, or none while no score has
   * come below `MAX_VALUE`.
   */
  ghost predicate BestCellSoFar(b: BoardView, p: Piece, bestX: int, bestY: int, minScore: int, x: int, y: int)
    requires b.WellFormed()
  {
    if bestX == -1 && bestY == -1 then
      minScore == MAX_VALUE &&
      forall x', y' :: RowMajorBefore(x', y', x, y) && b.IsOpen(x', y') ==> SimScore(b, p, x', y') >= MAX_VALUE
    else
      RowMajorBefore(bestX, bestY, x, y) && b.IsOpen(bestX, bestY) && minScore == SimScore(b, p, bestX, bestY) &&
      minScore < MAX_VALUE &&
      (forall x', y' :: RowMajorBefore(x', y', x, y) && b.IsOpen(x', y') ==> minScore <= SimScore(b, p, x', y')) &&
      (forall x', y' :: RowMajorBefore(x', y', bestX, bestY) && b.IsOpen(x', y') ==> minScore < SimScore(b, p, x', y'))
  }

  /** One step of the scan: (x, y) replaces the best cell if it is open and scores strictly less. */
  function ScanNext(b: BoardView, p: Piece, bestX: int, bestY: int, minScore: int, x: int, y: int): (int, int, int)
    requires b.WellFormed()
  {
    if b.IsOpen(x, y) && SimScore(b, p, x, y) < minScore then (x, y, SimScore(b, p, x, y)) else (bestX, bestY, minScore)
  }

  lemma ScanStep(b: BoardView, p: Piece, bestX: int, bestY: int, minScore: int, x: int, y: int,
                 bestX': int, bestY': int, minScore': int, x': int)
    requires b.WellFormed() && 0 <= x && BestCellSoFar(b, p, bestX, bestY, minScore, x, y)
    requires (bestX', bestY', minScore') == ScanNext(b, p, bestX, bestY, minScore, x, y) && x' == x + 1
    ensures BestCellSoFar(b, p, bestX', bestY', minScore', x', y)
  {
  }

  /** Past the last column of row y the scan has covered row y wholly. */
  lemma ScanRowEnd(b: BoardView, p: Piece, bestX: int, bestY: int, minScore: int, y: int)
    requires b.WellFormed() && BestCellSoFar(b, p, bestX, bestY, minScore, b.xLength, y)
    ensures BestCellSoFar(b, p, bestX, bestY, minScore, 0, y + 1)
  {
  }

  /** The scan over the whole board finds the counter cell: every open cell scores below `MAX_VALUE`. */
  lemma ScanEnd(b: BoardView, p: Piece, bestX: int, bestY: int, minScore: int)
    requires b.WellFormed() && b.xLength == b.yLength <= 5
    requires BestCellSoFar(b, p, bestX, bestY, minScore, 0, b.yLength)
    ensures CounterCell(b, p, bestX, bestY)
  {
    forall x', y' | b.IsOpen(x', y') ensures SimScore(b, p, x', y') < MAX_VALUE && RowMajorBefore(x', y', 0, b.yLength) {
      SimScoreBound(b, p, x', y');
    }
  }

  /**
   * The cell `pickCounterXY` returns: the open cell with the smallest score,
   * the first one row by row among equals; (-1, -1) if no cell is open.
   */
  ghost predicate CounterCell(b: BoardView, p: Piece, x: int, y: int)
    requires b.WellFormed()
  {
    if forall x', y' :: !b.IsOpen(x', y') then x == -1 && y == -1
    else
      b.IsOpen(x, y) &&
      (forall x', y' :: b.IsOpen(x', y') ==> SimScore(b, p, x, y) <= SimScore(b, p, x', y')) &&
      (forall x', y' :: RowMajorBefore(x', y', x, y) && b.IsOpen(x', y') ==> SimScore(b, p, x, y) < SimScore(b, p, x', y'))
  }

  /** The inner loop of `pickCounterXY`'s second scan, over row y. */
  method ScanRow(g: Game, counts: array2<int>, y: int, bestX0: int, bestY0: int, minScore0: int)
    returns (bestX: int, bestY: int, minScore: int)
    requires g.Valid() && g.nextPick.Some? && 0 <= y < g.Dim()
    requires Matches(counts, g.State().board, g.nextPick.value)
    requires BestCellSoFar(g.State().board, g.nextPick.value, bestX0, bestY0, minScore0, 0, y)
    ensures BestCellSoFar(g.State().board, g.nextPick.value, bestX, bestY, minScore, 0, y + 1)
  {
    ghost var b := g.State().board;
    ghost var p := g.nextPick.value;
    var n := g.Dim();
    bestX, bestY, minScore := bestX0, bestY0, minScore0;
    for x := 0 to n
      invariant BestCellSoFar(b, p, bestX, bestY, minScore, x, y)
    {
      var bestX', bestY', minScore' := ScanCell(g, counts, x, y, bestX, bestY, minScore);
      ScanStep(b, p, bestX, bestY, minScore, x, y, bestX', bestY', minScore', x + 1);
      bestX, bestY, minScore := bestX', bestY', minScore';
    }
    ScanRowEnd(b, p, bestX, bestY, minScore, y);
  }

  /** The body of the scan: an open cell (x, y) that scores below the minimum becomes the best cell. */
  method ScanCell(g: Game, counts: array2<int>, x: int, y: int, bestX0: int, bestY0: int, minScore0: int)
    returns (bestX: int, bestY: int, minScore: int)
    requires g.Valid() && g.nextPick.Some? && 0 <= x < g.Dim() && 0 <= y < g.Dim()
    requires Matches(counts, g.State().board, g.nextPick.value)
    ensures (bestX, bestY, minScore) == ScanNext(g.State().board, g.nextPick.value, bestX0, bestY0, minScore0, x, y)
  {
    bestX, bestY, minScore := bestX0, bestY0, minScore0;
    if !g.IsOpen(x, y) {
      return;
    }
    var score := CalcSimScore(counts, x, y);
    ArrayScoreIsSimScore(counts, g.State().board, g.nextPick.value, x, y);
    if score < minScore {
      minScore := score;
      bestX, bestY := x, y;
    }
  }

  /** `pickCounterXY`. */
  method PickCounterXY(g: Game) returns (bestX: int, bestY: int)
    requires g.Valid() && g.nextPick.Some?
    ensures CounterCell(g.State().board, g.nextPick.value, bestX, bestY)
  {
    ghost var b := g.State().board;
    ghost var p := g.nextPick.value;
    var n := g.Dim();
    var counts := Counts(g);
    var minScore := MAX_VALUE;
    bestX, bestY := -1, -1;
    for y := 0 to n
      invariant Matches(counts, b, p)
      invariant BestCellSoFar(b, p, bestX, bestY, minScore, 0, y)
    {
      bestX, bestY, minScore := ScanRow(g, counts, y, bestX, bestY, minScore);
    }
    ScanEnd(b, p, bestX, bestY, minScore);
  }

  // ---- pickCounterPiece ----

  /**
   * The piece `pickCounterPiece` returns among `frees`: the first one with
   * the smallest score below `MAX_VALUE`, none if no score comes below it.
   */
  ghost predicate CounterPiece(frees: seq<Piece>, inPlay: seq<Piece>, r: Option<Piece>)
  {
    if forall i :: 0 <= i < |frees| ==> PieceScore(frees[i], inPlay) >= MAX_VALUE then r.None?
    else
      exists i :: 0 <= i < |frees| && r == Some(frees[i]) &&
        (forall j :: 0 <= j < |frees| ==> PieceScore(frees[i], inPlay) <= PieceScore(frees[j], inPlay)) &&
        (forall j :: 0 <= j < i ==> PieceScore(frees[i], inPlay) < PieceScore(frees[j], inPlay))
  }

  /** The inner loop of `pickCounterPiece`: the score of one free piece. */
  method PieceScoreOf(fp: Piece, pieces: seq<Piece>) returns (simScore: int)
    ensures simScore == PieceScore(fp, pieces)
  {
    simScore := 0;
    for k := 0 to |pieces|
      invariant simScore == PieceScore(fp, pieces[..k])
    {
      assert pieces[..k + 1][..k] == pieces[..k];
      simScore := simScore + CountShared(fp, Some(pieces[k]));
    }
    assert pieces[..|pieces|] == pieces;
  }

  /** `pickCounterPiece`. With fewer than 178 million pieces in play the result is none only when no piece is free. */
  method PickCounterPiece(g: Game) returns (mostDiff: Option<Piece>)
    requires g.Valid()
    ensures CounterPiece(g.frees, InPlay(g.State()), mostDiff)
    ensures 12 * |InPlay(g.State())| < MAX_VALUE ==> (mostDiff.None? <==> |g.frees| == 0)
  {
    var actives := g.actives;
    if g.nextPick.Some? {
      actives := actives + [g.nextPick.value];
    }
    var frees := g.frees;
    mostDiff := None;
    var minScore := MAX_VALUE;
    ghost var best := -1;
    for i := 0 to |frees|
      invariant best == -1 <==> mostDiff.None?
      invariant best == -1 ==> minScore == MAX_VALUE && forall j :: 0 <= j < i ==> PieceScore(frees[j], actives) >= MAX_VALUE
      invariant best != -1 ==>
        0 <= best < i && mostDiff == Some(frees[best]) && minScore == PieceScore(frees[best], actives) < MAX_VALUE &&
        (forall j :: 0 <= j < i ==> minScore <= PieceScore(frees[j], actives)) &&
        (forall j :: 0 <= j < best ==> minScore < PieceScore(frees[j], actives))
    {
      var simScore := PieceScoreOf(frees[i], actives);
      if simScore < minScore {
        mostDiff := Some(frees[i]);
        minScore := simScore;
        best := i;
      }
    }
    assert actives == InPlay(g.State());
    if best != -1 {
      assert PieceScore(frees[best], actives) < MAX_VALUE;
    }
    if 12 * |actives| < MAX_VALUE && |frees| > 0 {
      PieceScoreBounds(frees[0], actives);
    }
  }

  // ---- genMove ----

  /**
   * `genMove`: with no piece picked yet, the random first move; otherwise
   * the immediate win if there is one; otherwise the counter cell with an
   * empty `placed` and the counter piece.
   */
  method GenMove(g: Game) returns (m: Move)
    requires g.Valid()
    requires g.nextPick.None? ==> |g.frees| > 0
    ensures var s := g.State();
      s.nextPick.None? ==> m.placed.None? && m.x == -1 && m.y == -1 && m.picked.Some? && m.picked.value in s.frees
    ensures var s := g.State();
      s.nextPick.Some? && (exists x, y :: WinsAt(s, x, y)) ==>
        m.placed == s.nextPick && WinsAt(s, m.x, m.y) &&
        (forall x, y :: RowMajorBefore(x, y, m.x, m.y) ==> !WinsAt(s, x, y)) &&
        (m.picked.None? <==> |s.frees| == 0) && (m.picked.Some? ==> m.picked.value in s.frees)
    ensures var s := g.State();
      s.nextPick.Some? && (forall x, y :: !WinsAt(s, x, y)) ==>
        m.placed.None? && CounterCell(s.board, s.nextPick.value, m.x, m.y) && CounterPiece(s.frees, InPlay(s), m.picked)
  {
    if g.nextPick.None? {
      var first := RandomFirstMove(g);
      return first.value;
    }
    var move := FindWin(g);
    if move.Some? {
      return move.value;
    }
    var x, y := PickCounterXY(g);
    var nextPiece := PickCounterPiece(g);
    m := Move(None, x, y, nextPiece);
  }
}
