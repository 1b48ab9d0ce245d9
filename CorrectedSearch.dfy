/**
 * HardAI's search (model/Game/GameAI/HardAI.java) with `undoTurn` corrected
 * as `Rules.UndoCorrected` describes: every function below is the one of
 * module HardAI of the same name, except that a move is taken back with
 * the corrected undo. With that undo the search hands back the game it was
 * given, the free pieces possibly reordered, whatever the depth: near a
 * full board as well as far from it. The only condition is that the game
 * holds enough pieces to fill its board, so that every generated move is
 * accepted.
 */
module CorrectedSearch {
  import opened Wrappers
  import opened Pieces
  import opened Rules
  import opened Keys
  import opened GameAI
  import opened Transpositions
  import HardAI
  import SearchFacts

  /** `HardAI.Search` over the corrected undo. */
  function Search(s: GameState, tt: Table, depth: nat, alpha: int, beta: int, turn: int): (r: HardAI.Outcome)
    requires HardAI.Searchable(s)
    ensures HardAI.Searchable(r.state) && r.state.board.xLength == s.board.xLength
    decreases depth, 1, 1
  {
    var key := BoardState(s.board, s.nextPick);
    var hit := key in tt && tt[key].depth >= depth;
    if hit && tt[key].flag == EXACT then HardAI.Outcome(tt[key].value, s, tt)
    else
      var a := if hit && tt[key].flag == UPPER then HardAI.Max(alpha, tt[key].value) else alpha;
      var b := if hit && tt[key].flag == LOWER then HardAI.Min(beta, tt[key].value) else beta;
      Expand(s, tt, depth, alpha, a, b, turn)
  }

  /** `HardAI.Expand` over the corrected undo. */
  function Expand(s: GameState, tt: Table, depth: nat, alphaPrior: int, alpha: int, beta: int, turn: int): (r: HardAI.Outcome)
    requires HardAI.Searchable(s)
    ensures HardAI.Searchable(r.state) && r.state.board.xLength == s.board.xLength
    decreases depth, 1, 0
  {
    if depth == 0 then HardAI.Outcome(turn * HardAI.NearCompleteLines(s.board), s, tt)
    else if Winner(s) != -1 then HardAI.Outcome(1, s, tt)
    else
      var l := SearchMoves(s, tt, AllMoves(s), depth - 1, alpha, beta, turn, HardAI.MIN_SCORE);
      HardAI.Outcome(l.score, l.state,
                     l.table[BoardState(l.state.board, l.state.nextPick) := EntryOf(depth, alphaPrior, beta, l.score)])
  }

  /** `HardAI.SearchMoves` over the corrected undo. */
  function SearchMoves(s: GameState, tt: Table, moves: seq<Move>, next: nat, alpha: int, beta: int, turn: int, best: int)
    : (r: HardAI.Outcome)
    requires HardAI.Searchable(s)
    ensures HardAI.Searchable(r.state) && r.state.board.xLength == s.board.xLength
    decreases next, 2, |moves|
  {
    if |moves| == 0 then HardAI.Outcome(best, s, tt)
    else
      var t := Try(s, tt, moves[0], next, alpha, beta, turn);
      var best', alpha' := HardAI.Max(best, t.score), HardAI.Max(alpha, t.score);
      if alpha' >= beta then HardAI.Outcome(best', t.state, t.table)
      else SearchMoves(t.state, t.table, moves[1..], next, alpha', beta, turn, best')
  }

  /** `HardAI.Child` over the corrected undo. */
  function Child(s: GameState, tt: Table, m: Move, next: nat, alpha: int, beta: int, turn: int): (r: HardAI.Outcome)
    requires HardAI.Searchable(s)
    ensures HardAI.Searchable(r.state) && r.state.board.xLength == s.board.xLength
    decreases next, 1, 2
  {
    Search(MakeMoveFrom(s, Some(m), true), tt, next, HardAI.Neg(beta), HardAI.Neg(alpha), HardAI.Neg(turn))
  }

  /** `HardAI.Try`, taking the move back with the corrected undo. */
  function Try(s: GameState, tt: Table, m: Move, next: nat, alpha: int, beta: int, turn: int): (r: HardAI.Outcome)
    requires HardAI.Searchable(s)
    ensures HardAI.Searchable(r.state) && r.state.board.xLength == s.board.xLength
    decreases next, 1, 3
  {
    var child := Child(s, tt, m, next, alpha, beta, turn);
    HardAI.Outcome(-child.score, UndoCorrected(child.state, true).0, child.table)
  }

  /** `HardAI.RootMoves`, taking each root move back with the corrected undo. */
  function RootMoves(s: GameState, tt: Table, moves: seq<Move>, i: nat, depth: nat, bestScore: int, best: Option<Move>,
                     scores: seq<int>): (r: HardAI.RootOutcome)
    requires HardAI.Searchable(s) && i <= |moves|
    ensures HardAI.Searchable(r.state) && r.state.board.xLength == s.board.xLength
    decreases |moves| - i
  {
    if i == |moves| then HardAI.RootOutcome(best, bestScore, scores, s, tt)
    else
      var child := Child(s, tt, moves[i], depth, HardAI.MIN_SCORE, HardAI.MAX_SCORE, -1);
      var after := UndoCorrected(child.state, true).0;
      var better := child.score >= bestScore;
      RootMoves(after, child.table, moves, i + 1, depth, if better then child.score else bestScore,
                if better then Some(moves[i]) else best, scores + [child.score])
  }

  /** `HardAI.Root` over the corrected undo. */
  function Root(s: GameState, maxDepth: nat): HardAI.RootOutcome
    requires HardAI.Searchable(s)
  {
    var moves := AllMoves(s);
    RootMoves(s, map[], moves, 0, HardAI.Depth(maxDepth, |moves|), HardAI.MIN_SCORE, None, [])
  }

  // ---- The game handed back ----

  /**
   * A state the corrected search restores: while the game runs, no piece is
   * held twice, the pieces held can fill the board, and a cell is left for
   * the piece to be placed (two cells before the first pick).
   */
  ghost predicate Sound(s: GameState)
  {
    HardAI.Searchable(s) &&
    (!s.gameover ==> Consistent(s) && |Inventory(s)| >= s.Capacity() &&
                     |s.actives| + (if s.nextPick.Some? then 1 else 2) <= s.Capacity())
  }

  /**
   * In a running sound state every generated move, played forced, is
   * accepted; the state it leads to is sound again.
   */
  lemma PlaySound(s: GameState, m: Move)
    requires Sound(s) && !s.gameover && Generated(s, m)
    ensures var r := MakeMoveFrom(s, Some(m), true);
      r == MakeMove(s, m.x, m.y, m.picked, true) && Accepted(s, m.x, m.y, m.picked) &&
      |s.actives| < s.Capacity() && Sound(r)
  {
    SoundAccepts(s, m);
    SoundAfter(s, m.x, m.y, m.picked);
  }

  /** Enough pieces and a cell to spare: a generated move is a first, a last or a normal move. */
  lemma SoundAccepts(s: GameState, m: Move)
    requires Sound(s) && !s.gameover && Generated(s, m)
    ensures Accepted(s, m.x, m.y, m.picked) && |s.actives| < s.Capacity()
  {
    ConsistentFacts(s);
    assert |Inventory(s)| == |s.frees| + |s.actives| + (if s.nextPick.Some? then 1 else 0);
    if |s.frees| > 0 {
      assert IsFree(s, m.picked);
    } else {
      assert s.nextPick.Some? && LastMove(s, m.x, m.y);
    }
  }

  /** An accepted forced move from a running sound state leads to a sound state, finished or not. */
  lemma SoundAfter(s: GameState, x: int, y: int, pick: Option<Piece>)
    requires Sound(s) && !s.gameover && Accepted(s, x, y, pick)
    ensures Sound(MakeMove(s, x, y, pick, true))
  {
    var r := MakeMove(s, x, y, pick, true);
    MakeMoveOutcome(s, x, y, pick, true);
    if !r.gameover {
      assert !LastMove(s, x, y);
      MakeMoveLists(s, x, y, pick, true);
      MakeMoveConserves(s, x, y, pick, true);
      assert |r.actives| == |s.actives| + (if s.nextPick.Some? then 1 else 0);
    }
  }

  /** A search of a finished game plays nothing. */
  lemma SearchOfFinished(s: GameState, tt: Table, depth: nat, alpha: int, beta: int, turn: int)
    requires HardAI.Searchable(s) && s.gameover
    ensures Search(s, tt, depth, alpha, beta, turn).state == s
  {
  }

  /** The corrected search hands back the state it was given, at any depth. */
  lemma SearchRestores(s: GameState, tt: Table, depth: nat, alpha: int, beta: int, turn: int)
    requires Sound(s)
    ensures SameButFreeOrder(Search(s, tt, depth, alpha, beta, turn).state, s)
    decreases depth, 1, 1
  {
    var key := BoardState(s.board, s.nextPick);
    var hit := key in tt && tt[key].depth >= depth;
    if !(hit && tt[key].flag == EXACT) {
      var a := if hit && tt[key].flag == UPPER then HardAI.Max(alpha, tt[key].value) else alpha;
      var b := if hit && tt[key].flag == LOWER then HardAI.Min(beta, tt[key].value) else beta;
      ExpandRestores(s, tt, depth, alpha, a, b, turn);
    }
  }

  lemma ExpandRestores(s: GameState, tt: Table, depth: nat, alphaPrior: int, alpha: int, beta: int, turn: int)
    requires Sound(s)
    ensures SameButFreeOrder(Expand(s, tt, depth, alphaPrior, alpha, beta, turn).state, s)
    decreases depth, 1, 0
  {
    if depth > 0 && Winner(s) == -1 {
      AllMovesMeaning(s);
      SearchMovesRestores(s, tt, AllMoves(s), depth - 1, alpha, beta, turn, HardAI.MIN_SCORE);
    }
  }

  /** The move loop takes back every move it plays. */
  lemma SearchMovesRestores(s: GameState, tt: Table, moves: seq<Move>, next: nat, alpha: int, beta: int, turn: int, best: int)
    requires Sound(s) && !s.gameover && forall m :: m in moves ==> Generated(s, m)
    ensures SameButFreeOrder(SearchMoves(s, tt, moves, next, alpha, beta, turn, best).state, s)
    decreases next, 2, |moves|
  {
    if |moves| > 0 {
      var t := Try(s, tt, moves[0], next, alpha, beta, turn);
      TryRestores(s, tt, moves[0], next, alpha, beta, turn);
      if HardAI.Max(alpha, t.score) < beta {
        SearchFacts.SameButFreeOrderKeeps(t.state, s);
        assert forall m :: m in moves[1..] ==> m in moves;
        var rest := SearchMoves(t.state, t.table, moves[1..], next, HardAI.Max(alpha, t.score), beta, turn,
                                HardAI.Max(best, t.score));
        SearchMovesRestores(t.state, t.table, moves[1..], next, HardAI.Max(alpha, t.score), beta, turn,
                            HardAI.Max(best, t.score));
        SameButFreeOrderTrans(rest.state, t.state, s);
      }
    }
  }

  /** One move searched and taken back with the corrected undo: the state comes back. */
  lemma TryRestores(s: GameState, tt: Table, m: Move, next: nat, alpha: int, beta: int, turn: int)
    requires Sound(s) && !s.gameover && Generated(s, m)
    ensures SameButFreeOrder(UndoCorrected(Child(s, tt, m, next, alpha, beta, turn).state, true).0, s)
    ensures SameButFreeOrder(Try(s, tt, m, next, alpha, beta, turn).state, s)
    decreases next, 1, 4
  {
    var c := Child(s, tt, m, next, alpha, beta, turn);
    ChildRestores(s, tt, m, next, alpha, beta, turn);
    PlaySound(s, m);
    UndoCorrectedAnyOrder(s, m.x, m.y, m.picked, true, c.state);
  }

  /** The search below a move hands back the state the move led to, finished or not. */
  lemma ChildRestores(s: GameState, tt: Table, m: Move, next: nat, alpha: int, beta: int, turn: int)
    requires Sound(s) && !s.gameover && Generated(s, m)
    ensures SameButFreeOrder(Child(s, tt, m, next, alpha, beta, turn).state, MakeMove(s, m.x, m.y, m.picked, true))
    decreases next, 1, 3
  {
    PlaySound(s, m);
    var r := MakeMoveFrom(s, Some(m), true);
    if r.gameover {
      SearchOfFinished(r, tt, next, HardAI.Neg(beta), HardAI.Neg(alpha), HardAI.Neg(turn));
    } else {
      SearchRestores(r, tt, next, HardAI.Neg(beta), HardAI.Neg(alpha), HardAI.Neg(turn));
    }
  }

  lemma {:induction false} RootMovesRestores(s: GameState, tt: Table, moves: seq<Move>, i: nat, depth: nat, bestScore: int,
                                             best: Option<Move>, scores: seq<int>)
    requires Sound(s) && !s.gameover && i <= |moves| && forall m :: m in moves ==> Generated(s, m)
    ensures SameButFreeOrder(RootMoves(s, tt, moves, i, depth, bestScore, best, scores).state, s)
    decreases |moves| - i
  {
    if i < |moves| {
      var child := Child(s, tt, moves[i], depth, HardAI.MIN_SCORE, HardAI.MAX_SCORE, -1);
      var after := UndoCorrected(child.state, true).0;
      TryRestores(s, tt, moves[i], depth, HardAI.MIN_SCORE, HardAI.MAX_SCORE, -1);
      SearchFacts.SameButFreeOrderKeeps(after, s);
      var better := child.score >= bestScore;
      var bestScore', best' := if better then child.score else bestScore, if better then Some(moves[i]) else best;
      RootMovesRestores(after, child.table, moves, i + 1, depth, bestScore', best', scores + [child.score]);
      SameButFreeOrderTrans(RootMoves(after, child.table, moves, i + 1, depth, bestScore', best', scores + [child.score]).state,
                            after, s);
    }
  }

  /**
   * With the corrected undo, `bestMove` hands back the running game it was
   * given, the free pieces possibly reordered, at every depth and with any
   * number of cells left: the last open cell included.
   */
  lemma RootRestores(s: GameState, maxDepth: nat)
    requires Sound(s) && !s.gameover
    ensures SameButFreeOrder(Root(s, maxDepth).state, s)
  {
    AllMovesMeaning(s);
    RootMovesRestores(s, map[], AllMoves(s), 0, HardAI.Depth(maxDepth, |AllMoves(s)|), HardAI.MIN_SCORE, None, []);
  }

  /**
   * The case `SearchFacts.RootEndsRunningGame` shows going wrong: with one
   * cell left, the corrected `bestMove` hands back a running game.
   */
  lemma LastTurnRestored(s: GameState, maxDepth: nat)
    requires HardAI.Searchable(s) && Consistent(s) && !s.gameover && s.nextPick.Some? && IsLastTurn(s)
    ensures var r := Root(s, maxDepth).state; SameButFreeOrder(r, s) && !r.gameover
  {
    assert |Inventory(s)| == |s.frees| + |s.actives| + 1;
    RootRestores(s, maxDepth);
  }

  // ---- Where the search as written is right ----

  /** Short of a finished game and of a move that picked nothing, both undos do the same. */
  lemma UndoAgrees(c: GameState)
    requires c.Valid() && !c.gameover && |c.moves| > 0 && c.moves[|c.moves| - 1].picked.Some?
    ensures UndoCorrected(c, true) == Undo(c, true)
  {
  }

  /** Where `HardAI.Try` hands the state back, the corrected `Try` returns exactly what it does. */
  lemma TryAgrees(s: GameState, tt: Table, m: Move, next: nat, alpha: int, beta: int, turn: int)
    requires SearchFacts.Room(s, next) && Generated(s, m)
    ensures Try(s, tt, m, next, alpha, beta, turn) == HardAI.Try(s, tt, m, next, alpha, beta, turn)
    decreases next, 1, 4
  {
    ChildAgrees(s, tt, m, next, alpha, beta, turn);
    var c := HardAI.Child(s, tt, m, next, alpha, beta, turn).state;
    var r := MakeMove(s, m.x, m.y, m.picked, true);
    SearchFacts.ChildRestores(s, tt, m, next, alpha, beta, turn);
    SearchFacts.PlayInRoom(s, m, next);
    MakeMoveOutcome(s, m.x, m.y, m.picked, true);
    MakeMoveRecords(s, m.x, m.y, m.picked, true);
    assert !LastMove(s, m.x, m.y);
    assert r.moves[|r.moves| - 1] == MoveOf(s, m.x, m.y, m.picked);
    UndoAgrees(c);
  }

  lemma ChildAgrees(s: GameState, tt: Table, m: Move, next: nat, alpha: int, beta: int, turn: int)
    requires SearchFacts.Room(s, next) && Generated(s, m)
    ensures Child(s, tt, m, next, alpha, beta, turn) == HardAI.Child(s, tt, m, next, alpha, beta, turn)
    decreases next, 1, 3
  {
    SearchFacts.PlayInRoom(s, m, next);
    SearchAgrees(MakeMoveFrom(s, Some(m), true), tt, next, HardAI.Neg(beta), HardAI.Neg(alpha), HardAI.Neg(turn));
  }

  /** Where `HardAI.Search` hands the state back, the corrected search returns exactly what it does. */
  lemma SearchAgrees(s: GameState, tt: Table, depth: nat, alpha: int, beta: int, turn: int)
    requires HardAI.Searchable(s) && Consistent(s) && |s.actives| + depth < s.Capacity() && depth <= |s.frees|
    ensures Search(s, tt, depth, alpha, beta, turn) == HardAI.Search(s, tt, depth, alpha, beta, turn)
    decreases depth, 1, 1
  {
    var key := BoardState(s.board, s.nextPick);
    var hit := key in tt && tt[key].depth >= depth;
    if !(hit && tt[key].flag == EXACT) {
      var a := if hit && tt[key].flag == UPPER then HardAI.Max(alpha, tt[key].value) else alpha;
      var b := if hit && tt[key].flag == LOWER then HardAI.Min(beta, tt[key].value) else beta;
      HardAI.SearchLookup(s, tt, depth, alpha, beta, turn, a, b);
      ExpandAgrees(s, tt, depth, alpha, a, b, turn);
    }
  }

  lemma ExpandAgrees(s: GameState, tt: Table, depth: nat, alphaPrior: int, alpha: int, beta: int, turn: int)
    requires HardAI.Searchable(s) && Consistent(s) && |s.actives| + depth < s.Capacity() && depth <= |s.frees|
    ensures Expand(s, tt, depth, alphaPrior, alpha, beta, turn) == HardAI.Expand(s, tt, depth, alphaPrior, alpha, beta, turn)
    decreases depth, 1, 0
  {
    if depth > 0 && Winner(s) == -1 {
      AllMovesMeaning(s);
      SearchMovesAgrees(s, tt, AllMoves(s), depth - 1, alpha, beta, turn, HardAI.MIN_SCORE);
    }
  }

  lemma SearchMovesAgrees(s: GameState, tt: Table, moves: seq<Move>, next: nat, alpha: int, beta: int, turn: int, best: int)
    requires SearchFacts.Room(s, next) && forall m :: m in moves ==> Generated(s, m)
    ensures SearchMoves(s, tt, moves, next, alpha, beta, turn, best) == HardAI.SearchMoves(s, tt, moves, next, alpha, beta, turn, best)
    decreases next, 2, |moves|
  {
    if |moves| > 0 {
      var t := HardAI.Try(s, tt, moves[0], next, alpha, beta, turn);
      TryAgrees(s, tt, moves[0], next, alpha, beta, turn);
      HardAI.SearchMovesStep(s, tt, moves, next, alpha, beta, turn, best, t.score, t.state, t.table);
      if HardAI.Max(alpha, t.score) < beta {
        SearchFacts.TryRestores(s, tt, moves[0], next, alpha, beta, turn);
        SearchFacts.SameButFreeOrderKeeps(t.state, s);
        assert forall m :: m in moves[1..] ==> m in moves;
        SearchMovesAgrees(t.state, t.table, moves[1..], next, HardAI.Max(alpha, t.score), beta, turn, HardAI.Max(best, t.score));
      }
    }
  }

  lemma {:induction false} RootMovesAgrees(s: GameState, tt: Table, moves: seq<Move>, i: nat, depth: nat, bestScore: int,
                                           best: Option<Move>, scores: seq<int>)
    requires SearchFacts.Room(s, depth) && i <= |moves| && forall m :: m in moves ==> Generated(s, m)
    ensures RootMoves(s, tt, moves, i, depth, bestScore, best, scores) == HardAI.RootMoves(s, tt, moves, i, depth, bestScore, best, scores)
    decreases |moves| - i
  {
    if i < |moves| {
      var child := HardAI.Child(s, tt, moves[i], depth, HardAI.MIN_SCORE, HardAI.MAX_SCORE, -1);
      var after := Undo(child.state, true).0;
      TryAgrees(s, tt, moves[i], depth, HardAI.MIN_SCORE, HardAI.MAX_SCORE, -1);
      ChildAgrees(s, tt, moves[i], depth, HardAI.MIN_SCORE, HardAI.MAX_SCORE, -1);
      SearchFacts.TryRestores(s, tt, moves[i], depth, HardAI.MIN_SCORE, HardAI.MAX_SCORE, -1);
      SearchFacts.SameButFreeOrderKeeps(after, s);
      var better := child.score >= bestScore;
      RootMovesAgrees(after, child.table, moves, i + 1, depth, if better then child.score else bestScore,
                      if better then Some(moves[i]) else best, scores + [child.score]);
    }
  }

  /**
   * Wherever `bestMove` as written hands the game back, the corrected one
   * chooses the same move with the same scores and leaves the same game and
   * table: the correction changes nothing but the cases near a full board.
   */
  lemma RootAgrees(s: GameState, maxDepth: nat)
    requires HardAI.Searchable(s) && SearchFacts.Room(s, HardAI.Depth(maxDepth, |AllMoves(s)|))
    ensures Root(s, maxDepth) == HardAI.Root(s, maxDepth)
  {
    AllMovesMeaning(s);
    RootMovesAgrees(s, map[], AllMoves(s), 0, HardAI.Depth(maxDepth, |AllMoves(s)|), HardAI.MIN_SCORE, None, []);
  }
}
