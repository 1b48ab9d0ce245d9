/**
 * What HardAI's search guarantees (model/Game/GameAI/HardAI.java), stated
 * about the value-level description in module HardAI: the scores stay
 * within a bound fixed by the board size, and `bestMove` picks the last of
 * the best-scored generated moves.
 */
module SearchFacts {
  import opened Wrappers
  import opened Pieces
  import opened Boards
  import opened Rules
  import opened Keys
  import opened GameAI
  import opened Transpositions
  import opened HardAI

  // ---- Score bounds ----

  /** The largest score on an n-by-n board: MAX_SCORE, or one for each of the 2n + 2 lines. */
  function Bound(n: int): (r: int)
    ensures r >= MAX_SCORE && r >= 2 * n + 2
  {
    Max(MAX_SCORE, 2 * n + 2)
  }

  /** Every stored score is at least MIN_SCORE and at most `hi`. */
  ghost predicate TableWithin(tt: Table, hi: int)
  {
    forall key :: key in tt ==> MIN_SCORE <= tt[key].value <= hi
  }

  /**
   * With turn 1 or -1 and a table within bounds, a search scores within
   * [-B, B] for B = Bound(n), and at least MIN_SCORE unless it is a leaf
   * evaluated for the opponent; the table stays within bounds.
   */
  lemma SearchBounds(s: GameState, tt: Table, depth: nat, alpha: int, beta: int, turn: int)
    requires Searchable(s) && (turn == 1 || turn == -1) && TableWithin(tt, Bound(s.board.xLength))
    ensures var r, bound := Search(s, tt, depth, alpha, beta, turn), Bound(s.board.xLength);
      -bound <= r.score <= bound && ((depth > 0 || turn == 1) ==> MIN_SCORE <= r.score) && TableWithin(r.table, bound)
    decreases depth, 1, 1
  {
    var key := BoardState(s.board, s.nextPick);
    var hit := key in tt && tt[key].depth >= depth;
    if hit && tt[key].flag == EXACT {
      SearchExact(s, tt, depth, alpha, beta, turn, tt[key]);
    } else {
      var a := if hit && tt[key].flag == UPPER then Max(alpha, tt[key].value) else alpha;
      var b := if hit && tt[key].flag == LOWER then Min(beta, tt[key].value) else beta;
      SearchLookup(s, tt, depth, alpha, beta, turn, a, b);
      ExpandBounds(s, tt, depth, alpha, a, b, turn);
    }
  }

  /** The tree search scores and stores within the same bounds. */
  lemma ExpandBounds(s: GameState, tt: Table, depth: nat, alphaPrior: int, alpha: int, beta: int, turn: int)
    requires Searchable(s) && (turn == 1 || turn == -1) && TableWithin(tt, Bound(s.board.xLength))
    ensures var r, bound := Expand(s, tt, depth, alphaPrior, alpha, beta, turn), Bound(s.board.xLength);
      -bound <= r.score <= bound && ((depth > 0 || turn == 1) ==> MIN_SCORE <= r.score) && TableWithin(r.table, bound)
    decreases depth, 1, 0
  {
    if depth == 0 {
      NearCompleteLinesBounds(s.board);
    } else if Winner(s) == -1 {
      SearchMovesBounds(s, tt, AllMoves(s), depth - 1, alpha, beta, turn, MIN_SCORE);
    }
  }

  /** The move loop keeps its best score within [MIN_SCORE, B] and the table within bounds. */
  lemma SearchMovesBounds(s: GameState, tt: Table, moves: seq<Move>, next: nat, alpha: int, beta: int, turn: int, best: int)
    requires Searchable(s) && (turn == 1 || turn == -1) && TableWithin(tt, Bound(s.board.xLength))
    requires MIN_SCORE <= best <= Bound(s.board.xLength)
    ensures var r, bound := SearchMoves(s, tt, moves, next, alpha, beta, turn, best), Bound(s.board.xLength);
      MIN_SCORE <= r.score <= bound && TableWithin(r.table, bound)
    decreases next, 2, |moves|
  {
    if |moves| > 0 {
      var t := Try(s, tt, moves[0], next, alpha, beta, turn);
      TryBounds(s, tt, moves[0], next, alpha, beta, turn);
      SearchMovesStep(s, tt, moves, next, alpha, beta, turn, best, t.score, t.state, t.table);
      if Max(alpha, t.score) < beta {
        SearchMovesBounds(t.state, t.table, moves[1..], next, Max(alpha, t.score), beta, turn, Max(best, t.score));
      }
    }
  }

  lemma TryBounds(s: GameState, tt: Table, m: Move, next: nat, alpha: int, beta: int, turn: int)
    requires Searchable(s) && (turn == 1 || turn == -1) && TableWithin(tt, Bound(s.board.xLength))
    ensures var t, bound := Try(s, tt, m, next, alpha, beta, turn), Bound(s.board.xLength);
      -bound <= t.score <= bound && TableWithin(t.table, bound)
    decreases next, 1, 4
  {
    ChildBounds(s, tt, m, next, alpha, beta, turn);
  }

  lemma ChildBounds(s: GameState, tt: Table, m: Move, next: nat, alpha: int, beta: int, turn: int)
    requires Searchable(s) && (turn == 1 || turn == -1) && TableWithin(tt, Bound(s.board.xLength))
    ensures var c, bound := Child(s, tt, m, next, alpha, beta, turn), Bound(s.board.xLength);
      -bound <= c.score <= bound && ((next > 0 || turn == -1) ==> MIN_SCORE <= c.score) && TableWithin(c.table, bound)
    decreases next, 1, 3
  {
    SearchBounds(MakeMoveFrom(s, Some(m), true), tt, next, Neg(beta), Neg(alpha), Neg(turn));
  }

  // ---- The choice of bestMove ----

  /** The index of the last maximum of a non-empty list of scores. */
  function LastMax(scores: seq<int>): (k: nat)
    requires |scores| > 0
    ensures k < |scores|
  {
    if |scores| == 1 then 0
    else
      var k := LastMax(scores[..|scores| - 1]);
      if scores[|scores| - 1] >= scores[k] then |scores| - 1 else k
  }

  /** `LastMax` is a maximum, and every later score is strictly smaller. */
  lemma {:induction false} LastMaxIsLastMaximum(scores: seq<int>)
    requires |scores| > 0
    ensures forall j :: 0 <= j < |scores| ==> scores[j] <= scores[LastMax(scores)]
    ensures forall j :: LastMax(scores) < j < |scores| ==> scores[j] < scores[LastMax(scores)]
  {
    if |scores| > 1 {
      var init := scores[..|scores| - 1];
      LastMaxIsLastMaximum(init);
      assert forall j :: 0 <= j < |init| ==> init[j] == scores[j];
    }
  }

  /** What the root loop holds after scoring the first |scores| moves: nothing yet, or the last best of them. */
  ghost predicate Chosen(moves: seq<Move>, scores: seq<int>, bestScore: int, best: Option<Move>)
    requires |scores| <= |moves|
  {
    if |scores| == 0 then best == None && bestScore == MIN_SCORE
    else best == Some(moves[LastMax(scores)]) && bestScore == scores[LastMax(scores)]
  }

  /** From any point of the root loop on, every move is scored and the choice stays the last best. */
  lemma {:induction false} RootMovesChoice(s: GameState, tt: Table, moves: seq<Move>, i: nat, depth: nat, bestScore: int, best: Option<Move>,
                        scores: seq<int>)
    requires Searchable(s) && i <= |moves| && |scores| == i && TableWithin(tt, Bound(s.board.xLength))
    requires Chosen(moves, scores, bestScore, best)
    ensures var r, bound := RootMoves(s, tt, moves, i, depth, bestScore, best, scores), Bound(s.board.xLength);
      |r.scores| == |moves| && r.scores[..i] == scores &&
      (forall j :: i <= j < |moves| ==> MIN_SCORE <= r.scores[j] <= bound) &&
      Chosen(moves, r.scores, r.bestScore, r.best) && TableWithin(r.table, bound)
    decreases |moves| - i
  {
    if i < |moves| {
      var child := Child(s, tt, moves[i], depth, MIN_SCORE, MAX_SCORE, -1);
      var after := Undo(child.state, true).0;
      ChildBounds(s, tt, moves[i], depth, MIN_SCORE, MAX_SCORE, -1);
      var better := child.score >= bestScore;
      var bestScore', best' := if better then child.score else bestScore, if better then Some(moves[i]) else best;
      var scores' := scores + [child.score];
      ChosenExtend(moves, scores, bestScore, best, child.score);
      RootMovesChoice(after, child.table, moves, i + 1, depth, bestScore', best', scores');
      var r := RootMoves(after, child.table, moves, i + 1, depth, bestScore', best', scores');
      ScoresExtend(moves, scores, child.score, r.scores, Bound(s.board.xLength));
    }
  }

  /** Scoring one more move keeps the choice the last best: a score at least the best so far takes its place. */
  lemma ChosenExtend(moves: seq<Move>, scores: seq<int>, bestScore: int, best: Option<Move>, score: int)
    requires |scores| < |moves| && Chosen(moves, scores, bestScore, best) && MIN_SCORE <= score
    ensures var better := score >= bestScore;
      Chosen(moves, scores + [score], if better then score else bestScore, if better then Some(moves[|scores|]) else best)
  {
    assert (scores + [score])[..|scores|] == scores;
  }

  /** The scores after one more round begin with the scores before it, and every new one is in range. */
  lemma ScoresExtend(moves: seq<Move>, scores: seq<int>, score: int, all: seq<int>, bound: int)
    requires |scores| < |moves| && |all| == |moves| && all[..|scores| + 1] == scores + [score]
    requires MIN_SCORE <= score <= bound
    requires forall j :: |scores| + 1 <= j < |moves| ==> MIN_SCORE <= all[j] <= bound
    ensures all[..|scores|] == scores
    ensures forall j :: |scores| <= j < |moves| ==> MIN_SCORE <= all[j] <= bound
  {
    var i := |scores|;
    assert all[..i] == all[..i + 1][..i];
    assert all[i] == all[..i + 1][i] == score;
  }

  /**
   * `bestMove` scores every generated move; it returns nothing exactly when
   * there is no move, and otherwise a generated move whose score is the
   * highest, the last one to reach it.
   */
  lemma BestMoveChoice(s: GameState, maxDepth: nat)
    requires Searchable(s)
    ensures var r, moves := Root(s, maxDepth), AllMoves(s);
      |r.scores| == |moves| &&
      (forall j :: 0 <= j < |moves| ==> MIN_SCORE <= r.scores[j] <= Bound(s.board.xLength)) &&
      (r.best.None? <==> |moves| == 0) &&
      (r.best.Some? ==>
        Generated(s, r.best.value) &&
        r.best.value == moves[LastMax(r.scores)] && r.bestScore == r.scores[LastMax(r.scores)] &&
        (forall j :: 0 <= j < |moves| ==> r.scores[j] <= r.bestScore) &&
        (forall j :: LastMax(r.scores) < j < |moves| ==> r.scores[j] < r.bestScore))
  {
    var moves := AllMoves(s);
    RootMovesChoice(s, map[], moves, 0, Depth(maxDepth, |moves|), MIN_SCORE, None, []);
    var r := Root(s, maxDepth);
    AllMovesMeaning(s);
    if |moves| > 0 {
      LastMaxIsLastMaximum(r.scores);
    }
  }

  /** The depth budget of `bestMove`: two extra levels for at most 75 moves, one for at most 150, none beyond. */
  lemma DepthBudget(maxDepth: nat, count: nat)
    ensures Depth(maxDepth, count) == maxDepth + if count <= 75 then 2 else if count <= 150 then 1 else 0
  {
    if count > 150 {
      assert 150 / count == 0;
    } else if count > 75 {
      assert 150 / count == 1 by {
        assert count * 1 <= 150 < count * 2;
      }
    }
  }

  // ---- The game handed back ----

  /** A state whose free pieces are only reordered holds the same pieces and allows the same moves. */
  lemma SameButFreeOrderKeeps(a: GameState, b: GameState)
    requires b.Valid() && SameButFreeOrder(a, b)
    ensures a.Valid() && a.Capacity() == b.Capacity() && |a.frees| == |b.frees|
    ensures Inventory(a) == Inventory(b) && (Consistent(a) <==> Consistent(b))
    ensures forall m :: Generated(a, m) <==> Generated(b, m)
  {
    assert |a.frees| == |multiset(a.frees)| == |multiset(b.frees)| == |b.frees|;
    forall m ensures Generated(a, m) <==> Generated(b, m) {
      if m.picked.Some? {
        assert m.picked.value in a.frees <==> m.picked.value in multiset(a.frees);
        assert m.picked.value in b.frees <==> m.picked.value in multiset(b.frees);
      }
    }
  }

  /**
   * Where a search may play a move and search on to depth `next` without
   * reaching the last cell or running out of pieces to pick: no piece is
   * held twice, the game runs, and the board and the free list are far
   * enough from empty.
   */
  ghost predicate Room(s: GameState, next: nat)
  {
    Searchable(s) && Consistent(s) && !s.gameover && |s.actives| + next + 1 < s.Capacity() && next < |s.frees|
  }

  /** A generated move played (forced) in such a state is accepted and leaves room one level deeper. */
  lemma PlayInRoom(s: GameState, m: Move, next: nat)
    requires Room(s, next) && Generated(s, m)
    ensures var r := MakeMoveFrom(s, Some(m), true);
      r == MakeMove(s, m.x, m.y, m.picked, true) && Accepted(s, m.x, m.y, m.picked) &&
      Searchable(r) && Consistent(r) && |r.actives| + next < r.Capacity() && next <= |r.frees|
  {
    ConsistentFacts(s);
    assert Accepted(s, m.x, m.y, m.picked);
    MakeMoveLists(s, m.x, m.y, m.picked, true);
    MakeMoveConserves(s, m.x, m.y, m.picked, true);
  }

  /**
   * The push/pop discipline of `negamax`: short of the last cell, a search
   * hands back the state it was given, the free pieces possibly reordered.
   */
  lemma SearchRestores(s: GameState, tt: Table, depth: nat, alpha: int, beta: int, turn: int)
    requires Searchable(s) && Consistent(s) && |s.actives| + depth < s.Capacity() && depth <= |s.frees|
    ensures SameButFreeOrder(Search(s, tt, depth, alpha, beta, turn).state, s)
    decreases depth, 1, 1
  {
    var key := BoardState(s.board, s.nextPick);
    var hit := key in tt && tt[key].depth >= depth;
    if hit && tt[key].flag == EXACT {
      SearchExact(s, tt, depth, alpha, beta, turn, tt[key]);
    } else {
      var a := if hit && tt[key].flag == UPPER then Max(alpha, tt[key].value) else alpha;
      var b := if hit && tt[key].flag == LOWER then Min(beta, tt[key].value) else beta;
      SearchLookup(s, tt, depth, alpha, beta, turn, a, b);
      ExpandRestores(s, tt, depth, alpha, a, b, turn);
    }
  }

  lemma ExpandRestores(s: GameState, tt: Table, depth: nat, alphaPrior: int, alpha: int, beta: int, turn: int)
    requires Searchable(s) && Consistent(s) && |s.actives| + depth < s.Capacity() && depth <= |s.frees|
    ensures SameButFreeOrder(Expand(s, tt, depth, alphaPrior, alpha, beta, turn).state, s)
    decreases depth, 1, 0
  {
    if depth > 0 && Winner(s) == -1 {
      AllMovesMeaning(s);
      SearchMovesRestores(s, tt, AllMoves(s), depth - 1, alpha, beta, turn, MIN_SCORE);
    }
  }

  /** The move loop takes back every move it plays. */
  lemma SearchMovesRestores(s: GameState, tt: Table, moves: seq<Move>, next: nat, alpha: int, beta: int, turn: int, best: int)
    requires Room(s, next) && forall m :: m in moves ==> Generated(s, m)
    ensures SameButFreeOrder(SearchMoves(s, tt, moves, next, alpha, beta, turn, best).state, s)
    decreases next, 2, |moves|
  {
    if |moves| > 0 {
      var t := Try(s, tt, moves[0], next, alpha, beta, turn);
      TryRestores(s, tt, moves[0], next, alpha, beta, turn);
      SearchMovesStep(s, tt, moves, next, alpha, beta, turn, best, t.score, t.state, t.table);
      if Max(alpha, t.score) < beta {
        SameButFreeOrderKeeps(t.state, s);
        assert forall m :: m in moves[1..] ==> m in moves;
        SearchMovesRestores(t.state, t.table, moves[1..], next, Max(alpha, t.score), beta, turn, Max(best, t.score));
        SameButFreeOrderTrans(SearchMoves(t.state, t.table, moves[1..], next, Max(alpha, t.score), beta, turn, Max(best, t.score)).state,
                              t.state, s);
      }
    }
  }

  /** One move searched and taken back (forced): the state comes back. */
  lemma TryRestores(s: GameState, tt: Table, m: Move, next: nat, alpha: int, beta: int, turn: int)
    requires Room(s, next) && Generated(s, m)
    ensures SameButFreeOrder(Undo(Child(s, tt, m, next, alpha, beta, turn).state, true).0, s)
    ensures SameButFreeOrder(Try(s, tt, m, next, alpha, beta, turn).state, s)
    decreases next, 1, 4
  {
    var c := Child(s, tt, m, next, alpha, beta, turn);
    ChildRestores(s, tt, m, next, alpha, beta, turn);
    PlayInRoom(s, m, next);
    UndoRestoresAnyOrder(s, m.x, m.y, m.picked, c.state.frees);
  }

  /** The search below a move hands back the state the move led to. */
  lemma ChildRestores(s: GameState, tt: Table, m: Move, next: nat, alpha: int, beta: int, turn: int)
    requires Room(s, next) && Generated(s, m)
    ensures SameButFreeOrder(Child(s, tt, m, next, alpha, beta, turn).state, MakeMove(s, m.x, m.y, m.picked, true))
    decreases next, 1, 3
  {
    PlayInRoom(s, m, next);
    SearchRestores(MakeMoveFrom(s, Some(m), true), tt, next, Neg(beta), Neg(alpha), Neg(turn));
  }

  lemma {:induction false} RootMovesRestores(s: GameState, tt: Table, moves: seq<Move>, i: nat, depth: nat, bestScore: int,
                                             best: Option<Move>, scores: seq<int>)
    requires Room(s, depth) && i <= |moves| && forall m :: m in moves ==> Generated(s, m)
    ensures SameButFreeOrder(RootMoves(s, tt, moves, i, depth, bestScore, best, scores).state, s)
    decreases |moves| - i
  {
    if i < |moves| {
      var child := Child(s, tt, moves[i], depth, MIN_SCORE, MAX_SCORE, -1);
      var after := Undo(child.state, true).0;
      TryRestores(s, tt, moves[i], depth, MIN_SCORE, MAX_SCORE, -1);
      SameButFreeOrderKeeps(after, s);
      var better := child.score >= bestScore;
      var bestScore', best' := if better then child.score else bestScore, if better then Some(moves[i]) else best;
      RootMovesRestores(after, child.table, moves, i + 1, depth, bestScore', best', scores + [child.score]);
      SameButFreeOrderTrans(RootMoves(after, child.table, moves, i + 1, depth, bestScore', best', scores + [child.score]).state,
                            after, s);
    }
  }

  /**
   * `bestMove` hands the game back, the free pieces possibly reordered,
   * when its search, one level for the root move and `Depth` levels below,
   * stays short of the last cell and of the last free piece.
   */
  lemma RootRestores(s: GameState, maxDepth: nat)
    requires Searchable(s) && Room(s, Depth(maxDepth, |AllMoves(s)|))
    ensures SameButFreeOrder(Root(s, maxDepth).state, s)
  {
    AllMovesMeaning(s);
    RootMovesRestores(s, map[], AllMoves(s), 0, Depth(maxDepth, |AllMoves(s)|), MIN_SCORE, None, []);
  }

  // ---- Near the last cell ----

  /** A search from a finished game plays nothing. */
  lemma SearchOfFinished(s: GameState, tt: Table, depth: nat, alpha: int, beta: int, turn: int)
    requires Searchable(s) && s.gameover
    ensures Search(s, tt, depth, alpha, beta, turn).state == s
  {
  }

  /** A forced undo of a finished game leaves it finished, with the same outcome. */
  lemma UndoKeepsFinished(c: GameState)
    requires c.Valid() && c.gameover
    ensures Undo(c, true).0.gameover && Undo(c, true).0.draw == c.draw
  {
  }

  /**
   * Once the game is over, each further root move is rejected, yet its
   * forced undo still takes back a recorded move; the game stays over with
   * the same outcome.
   */
  lemma {:induction false} RootMovesOfFinished(s: GameState, tt: Table, moves: seq<Move>, i: nat, depth: nat, bestScore: int,
                                               best: Option<Move>, scores: seq<int>)
    requires Searchable(s) && s.gameover && i <= |moves|
    ensures var r := RootMoves(s, tt, moves, i, depth, bestScore, best, scores).state;
      r.gameover && r.draw == s.draw
    decreases |moves| - i
  {
    if i < |moves| {
      var child := Child(s, tt, moves[i], depth, MIN_SCORE, MAX_SCORE, -1);
      SearchOfFinished(s, tt, depth, Neg(MAX_SCORE), Neg(MIN_SCORE), Neg(-1));
      assert child.state == s;
      UndoKeepsFinished(s);
      var after := Undo(child.state, true).0;
      var better := child.score >= bestScore;
      RootMovesOfFinished(after, child.table, moves, i + 1, depth, if better then child.score else bestScore,
                          if better then Some(moves[i]) else best, scores + [child.score]);
    }
  }

  /** A root move that ends the game leaves it over, with that outcome, whatever the root loop does next. */
  lemma RootMovesAfterFinish(s: GameState, tt: Table, moves: seq<Move>, i: nat, depth: nat, bestScore: int,
                             best: Option<Move>, scores: seq<int>)
    requires Searchable(s) && i < |moves| && MakeMoveFrom(s, Some(moves[i]), true).gameover
    ensures var r := RootMoves(s, tt, moves, i, depth, bestScore, best, scores).state;
      r.gameover && r.draw == MakeMoveFrom(s, Some(moves[i]), true).draw
  {
    var played := MakeMoveFrom(s, Some(moves[i]), true);
    var child := Child(s, tt, moves[i], depth, MIN_SCORE, MAX_SCORE, -1);
    SearchOfFinished(played, tt, depth, Neg(MAX_SCORE), Neg(MIN_SCORE), Neg(-1));
    assert child.state == played;
    UndoKeepsFinished(played);
    var after := Undo(child.state, true).0;
    var better := child.score >= bestScore;
    RootMovesOfFinished(after, child.table, moves, i + 1, depth, if better then child.score else bestScore,
                        if better then Some(moves[i]) else best, scores + [child.score]);
  }

  /** On the last turn every generated move fills the board: played forced, it ends the game in a draw. */
  lemma LastMoveEndsInDraw(s: GameState, m: Move)
    requires s.Valid() && !s.gameover && s.nextPick.Some? && IsLastTurn(s) && Generated(s, m)
    ensures var r := MakeMoveFrom(s, Some(m), true); r.gameover && r.draw
  {
    assert LastMove(s, m.x, m.y);
    MakeMoveOutcome(s, m.x, m.y, m.picked, true);
  }

  /**
   * With one cell left and no win there, `bestMove` does not hand the game
   * back: the first root move fills the board, so the game is over as a
   * draw, and the forced undo leaves it over.
   */
  lemma RootEndsRunningGame(s: GameState, maxDepth: nat)
    requires Searchable(s) && !s.gameover && s.nextPick.Some? && IsLastTurn(s)
    requires exists x, y :: s.board.IsOpen(x, y)
    ensures var r := Root(s, maxDepth).state; r.gameover && r.draw
  {
    var x, y :| s.board.IsOpen(x, y);
    var moves := AllMoves(s);
    AllMovesMeaning(s);
    assert Generated(s, Move(s.nextPick, x, y, if |s.frees| == 0 then None else Some(s.frees[0])));
    assert moves[0] in moves;
    LastMoveEndsInDraw(s, moves[0]);
    RootMovesAfterFinish(s, map[], moves, 0, Depth(maxDepth, |moves|), MIN_SCORE, None, []);
  }
}
