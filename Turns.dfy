/**
 * One turn of the game (`runTurn` of model/Game/Game.java): nothing once the
 * game is over; otherwise the move is the caller's coordinates and pick, or,
 * when a strategy controls the player to move, the move that strategy
 * generates, and it is handed to `makeMove` without forcing.
 */
module Turns {
  import opened Wrappers
  import opened Pieces
  import opened Boards
  import opened Lines
  import opened Rules
  import opened GameAI
  import opened Transpositions
  import Games
  import FirstAI
  import RandomAI
  import NormalAI
  import HardAI

  /** The game is not over and strategy `k` plays the player to move. */
  ghost predicate PlaysAs(g: Games.Game, k: Games.Strength)
    reads g, g.board, g.board.cells
  {
    g.Valid() && !g.gameover && g.IsCPUTurn() && g.cpu[g.turn].value == k
  }

  /**
   * The two strategies that open with a random pick draw it from the free
   * pieces, which therefore must not be empty at the opening turn.
   */
  ghost predicate CanOpen(g: Games.Game)
    reads g, g.board, g.board.cells
  {
    g.Valid() && ((PlaysAs(g, Games.NormalAI) || PlaysAs(g, Games.HardAI)) && g.nextPick.None? ==> |g.frees| > 0)
  }

  /**
   * A move onto a cell where the piece to place completes a line, with a
   * free piece picked (or nothing left to pick on the last turn), ends the
   * game in a win for the player who made it.
   */
  lemma WinningMoveWins(s: GameState, x: int, y: int, pick: Option<Piece>)
    requires s.Valid() && !s.gameover && WinsAt(s, x, y) && (IsFree(s, pick) || IsLastTurn(s))
    ensures var r := MakeMove(s, x, y, pick, false);
      r.gameover && !r.draw && Winner(r) == s.turn
  {
    assert !FirstMove(s, pick) && Accepted(s, x, y, pick);
    CheckLinesIgnoresOwnCell(s.board, s.nextPick.value, s.nextPick, x, y);
    assert Won(s, x, y, pick);
    MakeMoveOutcome(s, x, y, pick, false);
  }

  // ---- What each strategy generates ----

  /** `FirstAI`: the first open cell, row by row, and the first free piece. */
  ghost predicate FirstAIMove(s: GameState, m: Move)
    requires s.Valid()
  {
    (if exists x, y :: s.board.IsOpen(x, y) then FirstAI.FirstOpen(s.board, m.x, m.y) else m.x == -1 && m.y == -1) &&
    m.picked == if |s.frees| == 0 then None else Some(s.frees[0])
  }

  /** `RandomAI`: some open cell and some free piece. */
  ghost predicate RandomAIMove(s: GameState, m: Move)
    requires s.Valid()
  {
    (if exists x, y :: s.board.IsOpen(x, y) then s.board.IsOpen(m.x, m.y) else m.x == -1 && m.y == -1) &&
    (m.picked.None? <==> |s.frees| == 0) && (m.picked.Some? ==> m.picked.value in s.frees)
  }

  /** The opening of `NormalAI` and `HardAI`: no cell, a random free piece. */
  ghost predicate OpeningMove(s: GameState, m: Move)
  {
    m.x == -1 && m.y == -1 && m.picked.Some? && m.picked.value in s.frees
  }

  /** `findWin`'s answer: the first winning cell, row by row, and a random free piece. */
  ghost predicate WinningMove(s: GameState, m: Move)
    requires s.Valid()
  {
    WinsAt(s, m.x, m.y) && (forall x, y :: RowMajorBefore(x, y, m.x, m.y) ==> !WinsAt(s, x, y)) &&
    (m.picked.None? <==> |s.frees| == 0) && (m.picked.Some? ==> m.picked.value in s.frees)
  }

  /** `NormalAI`: the opening, else a win, else the cell and piece that help the opponent least. */
  ghost predicate NormalAIMove(s: GameState, m: Move)
    requires s.Valid()
  {
    if s.nextPick.None? then OpeningMove(s, m)
    else if exists x, y :: WinsAt(s, x, y) then WinningMove(s, m)
    else NormalAI.CounterCell(s.board, s.nextPick.value, m.x, m.y) && NormalAI.CounterPiece(s.frees, NormalAI.InPlay(s), m.picked)
  }

  /**
   * `HardAI`: the opening or a win as `NormalAI`, leaving game and table
   * alone; else the best move of the search, on the game and with the table
   * the search leaves behind.
   */
  ghost predicate HardAIMove(s: GameState, after: GameState, m: Option<Move>, table: Table, table': Table)
    requires s.Valid() && 4 <= s.board.xLength <= 5
  {
    if s.nextPick.None? then after == s && table' == table && m.Some? && OpeningMove(s, m.value)
    else if exists x, y :: WinsAt(s, x, y) then after == s && table' == table && m.Some? && WinningMove(s, m.value)
    else
      var r := HardAI.Root(s, 7 - s.board.xLength);
      m == r.best && after == r.state && table' == r.table
  }

  /**
   * What strategy k generates from state s: the move m, the state `after`
   * it leaves the game in, and the search table, `table` before and
   * `table'` after; only `HardAI` touches game and table. A game's board
   * is 4 or 5 cells wide.
   */
  ghost predicate StrategyMove(k: Games.Strength, s: GameState, after: GameState, m: Option<Move>, table: Table, table': Table)
    requires s.Valid() && 4 <= s.board.xLength <= 5
  {
    if k == Games.HardAI then HardAIMove(s, after, m, table, table')
    else
      after == s && table' == table && m.Some? &&
      (k == Games.FirstAI ==> FirstAIMove(s, m.value)) &&
      (k == Games.RandomAI ==> RandomAIMove(s, m.value)) &&
      (k == Games.NormalAI ==> NormalAIMove(s, m.value))
  }

  /**
   * When `NormalAI` or `HardAI` can complete a line, the move it generates
   * wins the game, provided no piece is held twice and either a piece is
   * left to pick or the move fills the last open cell.
   */
  lemma StrategyWins(k: Games.Strength, s: GameState, after: GameState, m: Option<Move>, table: Table, table': Table)
    requires s.Valid() && 4 <= s.board.xLength <= 5 && StrategyMove(k, s, after, m, table, table')
    requires (k == Games.NormalAI || k == Games.HardAI) && !s.gameover && s.nextPick.Some? && exists x, y :: WinsAt(s, x, y)
    requires Consistent(s) && (|s.frees| > 0 || IsLastTurn(s))
    ensures m.Some? && after == s
    ensures var r := MakeMove(s, m.value.x, m.value.y, m.value.picked, false);
      r.gameover && !r.draw && Winner(r) == s.turn
  {
    ConsistentFacts(s);
    WinningMoveWins(s, m.value.x, m.value.y, m.value.picked);
  }

  /** `HardAI.genMove`, described by `HardAIMove`. */
  method HardMove(g: Games.Game, hard: HardAI.HardAI) returns (m: Option<Move>)
    requires g.Valid() && (g.nextPick.None? ==> |g.frees| > 0)
    modifies g, g.board, g.board.cells, hard.tt
    ensures g.Valid() && g.cpu == old(g.cpu)
    ensures HardAIMove(old(g.State()), g.State(), m, old(hard.tt.table), hard.tt.table)
  {
    m := hard.GenMove(g);
  }

  /** `cpu[turn].genMove(this)`: dispatch to the strategy of the player to move. */
  method GenMove(g: Games.Game, hard: HardAI.HardAI) returns (m: Option<Move>)
    requires g.Valid() && !g.gameover && g.IsCPUTurn() && CanOpen(g)
    modifies g, g.board, g.board.cells, hard.tt
    ensures g.Valid() && g.cpu == old(g.cpu)
    ensures StrategyMove(old(g.cpu[g.turn].value), old(g.State()), g.State(), m, old(hard.tt.table), hard.tt.table)
  {
    ghost var s := g.State();
    var k := g.cpu[g.turn].value;
    if k == Games.FirstAI {
      var first := FirstAI.GenMove(g);
      assert FirstAIMove(s, first);
      m := Some(first);
    } else if k == Games.RandomAI {
      var random := RandomAI.GenMove(g);
      assert RandomAIMove(s, random);
      m := Some(random);
    } else if k == Games.NormalAI {
      var normal := NormalAI.GenMove(g);
      assert NormalAIMove(s, normal);
      m := Some(normal);
    } else {
      m := HardMove(g, hard);
    }
  }

  /**
   * `runTurn(x, y, pick)`. `from` is the state `makeMove` is applied to and
   * `played` the move handed to it: the caller's for a human player, the
   * generated one for a strategy. The search of `HardAI` plays and takes
   * back moves on the game itself, so its move is applied to the state the
   * search leaves behind. `HardAI` generates no move when it finds none to
   * search; then nothing is played.
   */
  method RunTurn(g: Games.Game, hard: HardAI.HardAI, x: int, y: int, pick: Option<Piece>)
    returns (ghost from: GameState, ghost played: Option<Move>)
    requires g.Valid() && CanOpen(g)
    modifies g, g.board, g.board.cells, hard.tt
    ensures g.Valid() && g.cpu == old(g.cpu) && from.Valid()
    ensures old(g.gameover) ==> played.None? && g.State() == old(g.State()) && hard.tt.table == old(hard.tt.table)
    ensures !old(g.gameover) && !old(g.IsCPUTurn()) ==>
      from == old(g.State()) && played == Some(Move(old(g.nextPick), x, y, pick)) && hard.tt.table == old(hard.tt.table)
    ensures !old(g.gameover) && old(g.IsCPUTurn()) ==>
      StrategyMove(old(g.cpu[g.turn].value), old(g.State()), from, played, old(hard.tt.table), hard.tt.table)
    ensures played.Some? ==> g.State() == MakeMove(from, played.value.x, played.value.y, played.value.picked, false)
    ensures played.None? ==> g.State() == from
    ensures old(PlaysAs(g, Games.NormalAI)) || old(PlaysAs(g, Games.HardAI)) ==>
      var s := old(g.State());
      s.nextPick.Some? && (exists x, y :: WinsAt(s, x, y)) && Consistent(s) && (|s.frees| > 0 || IsLastTurn(s)) ==>
        g.State().gameover && !g.State().draw && Winner(g.State()) == s.turn
  {
    from, played := g.State(), None;
    if g.gameover {
      return;
    }
    ghost var s := g.State();
    var mx, my, mpick := x, y, pick;
    if g.IsCPUTurn() {
      ghost var k := g.cpu[g.turn].value;
      var m := GenMove(g, hard);
      from := g.State();
      if m.None? {
        return;
      }
      mx, my, mpick := m.value.x, m.value.y, m.value.picked;
      played := m;
      if (k == Games.NormalAI || k == Games.HardAI) && s.nextPick.Some? && (exists x, y :: WinsAt(s, x, y)) &&
         Consistent(s) && (|s.frees| > 0 || IsLastTurn(s)) {
        StrategyWins(k, s, from, m, old(hard.tt.table), hard.tt.table);
      }
    } else {
      played := Some(Move(g.nextPick, x, y, pick));
    }
    g.MakeMove(mx, my, mpick, false);
  }
}
