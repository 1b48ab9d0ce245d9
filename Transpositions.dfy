/**
 * The memo of HardAI's search (model/Game/GameAI/TranpositionTable.java):
 * a map from the game's `boardState` string to the score found for that
 * position, the depth it was searched to and how the score relates to the
 * alpha-beta window it was searched with.
 */
module Transpositions {
  import opened Wrappers
  import opened Boards
  import opened Keys
  import opened Games

  /** How a stored score bounds the true one: from below, from above, or exactly. */
  datatype TTFlag = LOWER | UPPER | EXACT

  datatype TTEntry = TTEntry(value: int, depth: int, flag: TTFlag)

  type Table = map<string, TTEntry>

  /**
   * The flag `add` derives from the window (alphaPrior, beta) the score was
   * searched with: at or below alpha the score is an upper bound, at or
   * above beta a lower bound, strictly inside the window exact.
   */
  function FlagOf(alphaPrior: int, beta: int, bestScore: int): (f: TTFlag)
    ensures f == UPPER <==> bestScore <= alphaPrior
    ensures f == LOWER <==> alphaPrior < bestScore && beta <= bestScore
    ensures f == EXACT <==> alphaPrior < bestScore < beta
  {
    if bestScore <= alphaPrior then UPPER
    else if bestScore >= beta then LOWER
    else EXACT
  }

  /** The entry `add` stores: the score and the depth as given, with the derived flag. */
  function EntryOf(depth: int, alphaPrior: int, beta: int, bestScore: int): TTEntry
  {
    TTEntry(bestScore, depth, FlagOf(alphaPrior, beta, bestScore))
  }

  /** The key under which the table files the game's current position. */
  ghost function KeyOf(g: Game): string
    reads g, g.board, g.board.cells
    requires g.Valid()
  {
    BoardState(g.board.View(), g.nextPick)
  }

  class TranspositionTable {
    var table: Table

    constructor ()
      ensures table == map[]
    {
      table := map[];
    }

    /** `add`: file the entry for the game's position, replacing any earlier one under that key. */
    method Add(g: Game, depth: int, alphaPrior: int, beta: int, bestScore: int)
      requires g.Valid()
      modifies this
      ensures table == old(table)[KeyOf(g) := EntryOf(depth, alphaPrior, beta, bestScore)]
    {
      var flag: TTFlag;
      if bestScore <= alphaPrior {
        flag := UPPER;
      } else if bestScore >= beta {
        flag := LOWER;
      } else {
        flag := EXACT;
      }
      var entry := TTEntry(bestScore, depth, flag);
      var key := g.BoardState();
      table := table[key := entry];
    }

    /** `get`: the entry filed under the game's position, none if there is none. */
    method Get(g: Game) returns (e: Option<TTEntry>)
      requires g.Valid()
      ensures e.Some? <==> KeyOf(g) in table
      ensures e.Some? ==> e.value == table[KeyOf(g)]
    {
      var key := g.BoardState();
      if key in table {
        e := Some(table[key]);
      } else {
        e := None;
      }
    }

    /** `clear`: forget every entry. */
    method Clear()
      modifies this
      ensures table == map[]
      ensures forall key :: key !in table
    {
      table := map[];
    }
  }
}
