/**
 * The game object (model/Game/Game.java, with its only concrete subclass
 * model/Game/Quarto.java folded in as two constructors). Every method
 * changes the fields in place and is proved to do what the corresponding
 * function of module `Rules` does to the state as a value.
 */
module Games {
  import opened Wrappers
  import opened Attributes
  import opened Pieces
  import opened Boards
  import opened Lines
  import opened Rules
  import opened Setup
  import opened Keys

  /** The strategy object a `cpu` slot holds. */
  datatype Strength = FirstAI | RandomAI | NormalAI | HardAI

  /** `addDefaultAttrs`: the attributes of standard Quarto, in this order. */
  const DefaultAttrs: seq<Option<Attribute>> := [Some(SIZE), Some(SHAPE), Some(COLOR), Some(TOP)]

  /**
   * `addAttr`: append the attribute unless that same attribute object is
   * already in the list. Attributes are compared as objects (by `id`), not
   * with `Attribute.equals`, and a missing attribute is appended too.
   */
  method AddAttr(atts: seq<Option<Attribute>>, newAttr: Option<Attribute>) returns (r: seq<Option<Attribute>>)
    ensures r == if newAttr in atts then atts else atts + [newAttr]
  {
    var disjoint := true;
    for i := 0 to |atts|
      invariant disjoint <==> newAttr !in atts[..i]
    {
      assert atts[..i + 1] == atts[..i] + [atts[i]];
      disjoint := disjoint && atts[i] != newAttr;
    }
    assert atts[..|atts|] == atts;
    r := atts;
    if disjoint {
      r := atts + [newAttr];
    }
  }

  /** `Quarto.toString`; none where the source dereferences a missing fifth attribute. */
  function Name(atts: seq<Option<Attribute>>): (r: Option<string>)
    ensures r == Some("Standard") <==> |atts| == 4
    ensures |atts| > 4 && atts[4].Some? ==> r == Some("Custom: " + atts[4].value.name)
  {
    if |atts| == 4 then Some("Standard")
    else if |atts| > 4 && atts[4].Some? then
      var c := "Custom: " + atts[4].value.name;
      assert c[0] == 'C' && "Standard"[0] == 'S';
      Some(c)
    else None
  }

  /** The state of a game just set up with the given attributes on an n by n board. */
  function NewGame(atts: seq<Option<Attribute>>, n: int): (s: GameState)
    requires n > 0
    ensures s.Valid()
  {
    GameState(Empty(n, n), Pool(atts), [], [], 0, None, false, false)
  }

  class Game {
    const atts: seq<Option<Attribute>>
    const board: Board
    var frees: seq<Piece>
    var actives: seq<Piece>
    var moves: seq<Move>
    var cpu: seq<Option<Strength>>
    var turn: int
    var nextPick: Option<Piece>
    var gameover: bool
    var draw: bool

    ghost predicate Valid()
      reads this, board, board.cells
    {
      board.Valid() && board.xLength == board.yLength && board.xLength == |atts| && 4 <= |atts| <= 5 && |cpu| == 2 &&
      (turn == 0 || turn == 1) && (draw ==> gameover)
    }

    /** The fields the rules read and write, as a value. */
    ghost function State(): GameState
      reads this, board
    {
      GameState(board.View(), frees, actives, moves, turn, nextPick, gameover, draw)
    }

    /** The fields other than `frees`. */
    ghost function Rest(): (seq<Piece>, seq<Move>, seq<Option<Strength>>, int, Option<Piece>, bool, bool)
      reads this
    {
      (actives, moves, cpu, turn, nextPick, gameover, draw)
    }

    /** `Quarto()`: the four default attributes, a 4 by 4 board, every piece free. */
    constructor Standard()
      ensures Valid() && fresh(board) && fresh(board.cells)
      ensures atts == DefaultAttrs && board.xLength == 4 && cpu == [None, None]
      ensures State() == NewGame(atts, 4)
    {
      atts := DefaultAttrs;
      board := new Board(4, 4);
      frees, actives, moves := [], [], [];
      cpu := [None, None];
      turn, nextPick, gameover, draw := 0, None, false, false;
      new;
      SetupPieces();
    }

    /**
     * `Quarto(newAttr)`: the default attributes plus `newAttr` unless it is one
     * of them; the board side is the number of attributes.
     */
    constructor Custom(newAttr: Option<Attribute>)
      ensures Valid() && fresh(board) && fresh(board.cells)
      ensures atts == if newAttr in DefaultAttrs then DefaultAttrs else DefaultAttrs + [newAttr]
      ensures board.xLength == |atts| && cpu == [None, None]
      ensures State() == NewGame(atts, |atts|)
    {
      var a := AddAttr(DefaultAttrs, newAttr);
      atts := a;
      board := new Board(|a|, |a|);
      frees, actives, moves := [], [], [];
      cpu := [None, None];
      turn, nextPick, gameover, draw := 0, None, false, false;
      new;
      SetupPieces();
    }

    /** `setupPieces`: all pieces over the game's attributes become free. */
    method SetupPieces()
      requires frees == []
      modifies this
      ensures frees == Pool(atts)
      ensures Rest() == old(Rest())
    {
      var n := |atts|;
      var attNums := new Byte[n](_ => 0);
      GenPieces(attNums, n);
      assert attNums[n..] == [];
    }

    /** `genPieces(attNums, n)`: one piece per setting of the first n bits, the others kept. */
    method GenPieces(attNums: array<Byte>, n: int)
      requires attNums.Length == |atts| && 0 <= n <= |atts|
      modifies this, attNums
      decreases n, 1
      ensures frees == old(frees) + Gen(atts, n, old(attNums[n..]))
      ensures attNums[n..] == old(attNums[n..])
      ensures Rest() == old(Rest())
    {
      ghost var suffix := attNums[n..];
      if n < 1 {
        var p := FromAttributes(atts, attNums[..]);
        assert Combos(0)[0] + suffix == attNums[..];
        frees := frees + [p];
      } else {
        GenHalf(attNums, n, 0, suffix);
        GenHalf(attNums, n, 1, suffix);
        GenSplit(atts, n, suffix);
      }
    }

    /** One branch of `genPieces`: bit n-1 set to `bit`, then every setting of the bits below it. */
    method GenHalf(attNums: array<Byte>, n: int, bit: Byte, ghost suffix: seq<Byte>)
      requires attNums.Length == |atts| && 0 < n <= |atts| && attNums[n..] == suffix
      modifies this, attNums
      decreases n, 0
      ensures frees == old(frees) + Gen(atts, n - 1, [bit] + suffix)
      ensures attNums[n..] == suffix
      ensures Rest() == old(Rest())
    {
      attNums[n - 1] := bit;
      assert attNums[n - 1..] == [bit] + suffix;
      GenPieces(attNums, n - 1);
      assert attNums[n..] == attNums[n - 1..][1..];
    }

    predicate IsFree(p: Option<Piece>)
      reads this, board
      ensures IsFree(p) == Rules.IsFree(State(), p)
    {
      p.Some? && p.value in frees && p.value !in actives
    }

    predicate IsLastTurn()
      reads this, board, board.cells
      requires Valid()
      ensures IsLastTurn() == Rules.IsLastTurn(State())
    {
      |actives| == board.xLength * board.yLength - 1
    }

    predicate IsOpen(x: int, y: int)
      reads this, board, board.cells
      requires Valid()
      ensures IsOpen(x, y) == State().board.IsOpen(x, y)
    {
      board.IsOpen(x, y)
    }

    function Dim(): int
      reads this
    {
      board.xLength
    }

    function Winner(): (r: int)
      reads this, board, board.cells
      requires Valid()
      ensures r == Rules.Winner(State())
    {
      if !gameover then -1 else if draw then -2 else Other(turn)
    }

    /** `isCPUTurn`: the player to move is controlled by a strategy. */
    predicate IsCPUTurn()
      reads this, board, board.cells
      requires Valid()
    {
      turn >= 0 && cpu[turn].Some?
    }

    /** `setAI`: only players 0 and 1 have a slot. */
    method SetAI(ai: Option<Strength>, playerNum: int)
      requires Valid()
      modifies this
      ensures Valid() && State() == old(State())
      ensures cpu == if playerNum == 0 || playerNum == 1 then old(cpu)[playerNum := ai] else old(cpu)
    {
      if playerNum == 0 || playerNum == 1 {
        cpu := cpu[playerNum := ai];
      }
    }

    method PutPiece(p: Option<Piece>, x: int, y: int)
      requires Valid()
      modifies this, board, board.cells
      ensures Valid() && cpu == old(cpu)
      ensures State() == Rules.PutPiece(old(State()), p, x, y)
    {
      if p.None? {
        return;
      }
      board.Put(p, x, y);
      actives := actives + [p.value];
    }

    method PickPiece(pick: Option<Piece>)
      requires Valid()
      modifies this
      ensures Valid() && cpu == old(cpu)
      ensures State() == Rules.PickPiece(old(State()), pick)
    {
      if !IsFree(pick) {
        return;
      }
      nextPick := pick;
      frees := RemoveFirst(frees, pick.value);
    }

    method UpdateState()
      requires Valid()
      modifies this
      ensures Valid() && cpu == old(cpu)
      ensures State() == Rules.UpdateState(old(State()))
    {
      if gameover {
        return;
      }
      if |actives| == board.xLength * board.yLength {
        gameover, draw := true, true;
      }
      turn := Other(turn);
    }

    /** `checkAllSimilar`: intersect p's values with every piece's, in order. */
    method CheckAllSimilar(pieces: seq<Piece>, p: Piece) returns (r: bool)
      ensures r == Lines.CheckAllSimilar(pieces, p)
    {
      if |pieces| == 0 {
        return false;
      }
      var intersect := p.atts;
      for i := 0 to |pieces|
        invariant Common(intersect, pieces[i..]) == Common(p.atts, pieces)
      {
        assert pieces[i..][1..] == pieces[i + 1..];
        intersect := intersect * pieces[i].atts;
      }
      r := |intersect| > 0;
    }

    /** `checkLines`: collect the other pieces of each line through (x, y), then test each line. */
    method CheckLines(p: Piece, x: int, y: int) returns (hasWin: bool)
      requires Valid()
      ensures hasWin == Lines.CheckLines(board.View(), p, x, y)
    {
      var vert, hrzn, diagP, diagN := CollectLines(x, y);
      hasWin := false;
      var lines := [vert, hrzn, diagP, diagN];
      for k := 0 to |lines|
        invariant hasWin <==> exists j :: 0 <= j < k && |lines[j]| >= Dim() - 1 && Lines.CheckAllSimilar(lines[j], p)
      {
        if |lines[k]| >= Dim() - 1 {
          var similar := CheckAllSimilar(lines[k], p);
          hasWin := hasWin || similar;
        }
      }
      AnyLineWins(board.View(), p, x, y, lines);
    }

    /** The first loop of `checkLines`: the pieces on the other cells of the row, column and diagonals. */
    method CollectLines(x: int, y: int) returns (vert: seq<Piece>, hrzn: seq<Piece>, diagP: seq<Piece>, diagN: seq<Piece>)
      requires board.Valid()
      ensures var b, n := board.View(), board.xLength;
        vert == Occupants(b, RowOthers(y, x, n)) && hrzn == Occupants(b, ColumnOthers(x, y, n)) &&
        diagP == Occupants(b, DiagOthers(x, y, n)) && diagN == Occupants(b, AntiOthers(x, y, n, n))
    {
      var n := board.xLength;
      ghost var b := board.View();
      var onYeqX, onYeqNX := x == y, x + y == n - 1;
      vert, hrzn, diagP, diagN := [], [], [], [];
      for i := 0 to n
        invariant hrzn == Occupants(b, ColumnOthers(x, y, i))
        invariant vert == Occupants(b, RowOthers(y, x, i))
        invariant diagP == Occupants(b, DiagOthers(x, y, i))
        invariant diagN == Occupants(b, AntiOthers(x, y, n, i))
      {
        hrzn, vert := CollectStraight(b, x, y, i, hrzn, vert);
        diagP, diagN := CollectDiagonals(b, x, y, i, onYeqX, onYeqNX, diagP, diagN);
      }
    }

    /** One round of that loop for the column and the row through (x, y). */
    method CollectStraight(ghost b: BoardView, x: int, y: int, i: nat, hrzn: seq<Piece>, vert: seq<Piece>)
      returns (hrzn': seq<Piece>, vert': seq<Piece>)
      requires board.Valid() && b == board.View()
      requires hrzn == Occupants(b, ColumnOthers(x, y, i)) && vert == Occupants(b, RowOthers(y, x, i))
      ensures hrzn' == Occupants(b, ColumnOthers(x, y, i + 1)) && vert' == Occupants(b, RowOthers(y, x, i + 1))
    {
      ColumnStep(b, x, y, i, hrzn);
      hrzn' := AddIfOccupied(hrzn, i != y, x, i);
      RowStep(b, x, y, i, vert);
      vert' := AddIfOccupied(vert, i != x, i, y);
    }

    /** One round of that loop for the two diagonals, which count only if (x, y) lies on them. */
    method CollectDiagonals(ghost b: BoardView, x: int, y: int, i: nat, onYeqX: bool, onYeqNX: bool,
                            diagP: seq<Piece>, diagN: seq<Piece>) returns (diagP': seq<Piece>, diagN': seq<Piece>)
      requires board.Valid() && b == board.View()
      requires onYeqX == (x == y) && onYeqNX == (x + y == board.xLength - 1)
      requires diagP == Occupants(b, DiagOthers(x, y, i)) && diagN == Occupants(b, AntiOthers(x, y, board.xLength, i))
      ensures diagP' == Occupants(b, DiagOthers(x, y, i + 1)) && diagN' == Occupants(b, AntiOthers(x, y, board.xLength, i + 1))
    {
      var n := board.xLength;
      DiagStep(b, x, y, i, diagP);
      diagP' := AddIfOccupied(diagP, i != x && onYeqX, i, i);
      AntiStep(b, x, y, n, i, diagN);
      diagN' := AddIfOccupied(diagN, i != x && onYeqNX, i, n - 1 - i);
    }

    /** One step of that loop for one line: add the piece on (cx, cy) if `keep` holds and there is one. */
    method AddIfOccupied(acc: seq<Piece>, keep: bool, cx: int, cy: int) returns (r: seq<Piece>)
      requires board.Valid()
      ensures r == acc + PieceIf(board.View(), keep, cx, cy)
    {
      r := acc;
      if keep && board.HasPiece(cx, cy) {
        r := acc + [board.Get(cx, cy).value];
      }
    }

    method CheckWin(p: Option<Piece>, x: int, y: int) returns (r: bool)
      requires Valid()
      ensures r == Rules.CheckWin(State(), p, x, y)
    {
      if p.None? {
        return false;
      }
      r := CheckLines(p.value, x, y);
    }

    /** `makeMove(x, y, pick, forceMove)`. */
    method MakeMove(x: int, y: int, pick: Option<Piece>, force: bool)
      requires Valid()
      modifies this, board, board.cells
      ensures Valid() && cpu == old(cpu)
      ensures State() == Rules.MakeMove(old(State()), x, y, pick, force)
    {
      if gameover {
        return;
      }
      var firstMove := nextPick.None? && IsFree(pick);
      var lastMove := board.IsOpen(x, y) && |actives| == board.xLength * board.yLength - 1;
      var normMove := board.IsOpen(x, y) && IsFree(pick);
      var mx, my, mpick := x, y, pick;
      if firstMove {
        mx, my := -1, -1;
      }
      if lastMove {
        mpick := None;
      }
      if firstMove || lastMove || normMove {
        Play(Move(nextPick, mx, my, mpick), force);
      }
    }

    /** The accepted branch of `makeMove`. */
    method Play(m: Move, force: bool)
      requires Valid() && !gameover
      modifies this, board, board.cells
      ensures Valid() && cpu == old(cpu)
      ensures State() == Rules.Play(old(State()), m, force)
    {
      Place(m, force);
      Pass(m.picked);
    }

    method Place(m: Move, force: bool)
      requires Valid() && !gameover
      modifies this, board, board.cells
      ensures Valid() && cpu == old(cpu)
      ensures State() == Rules.Place(old(State()), m, force)
    {
      moves := moves + [m];
      PutPiece(m.placed, m.x, m.y);
      if !force {
        gameover := CheckWin(m.placed, m.x, m.y);
      }
    }

    method Pass(pick: Option<Piece>)
      requires Valid()
      modifies this
      ensures Valid() && cpu == old(cpu)
      ensures State() == Rules.Pass(old(State()), pick)
    {
      PickPiece(pick);
      if gameover {
        turn := Other(turn);
      }
      UpdateState();
    }

    /** `makeMove(Move, forceMove)`. */
    method MakeMoveFrom(m: Option<Move>, force: bool)
      requires Valid()
      modifies this, board, board.cells
      ensures Valid() && cpu == old(cpu)
      ensures State() == Rules.MakeMoveFrom(old(State()), m, force)
    {
      if gameover || m.None? {
        return;
      }
      MakeMove(m.value.x, m.value.y, m.value.picked, force);
    }

    /** `undoTurn(forceUndo)`. */
    method UndoTurn(force: bool) returns (m: Option<Move>)
      requires Valid()
      modifies this, board, board.cells
      ensures Valid() && cpu == old(cpu)
      ensures (State(), m) == Rules.Undo(old(State()), force)
    {
      if (gameover && !force) || |moves| == 0 {
        return None;
      }
      var last := moves[|moves| - 1];
      moves := moves[..|moves| - 1];
      var placed := last.placed;
      board.Remove(last.x, last.y);
      if placed.Some? {
        actives := RemoveFirst(actives, placed.value);
      }
      if nextPick.Some? {
        frees := frees + [nextPick.value];
      }
      nextPick := placed;
      UpdateState();
      return Some(last);
    }

    /** `findPieces`. */
    method FindPieces(attributes: Option<seq<Att>>) returns (ps: seq<Piece>)
      ensures ps == Rules.FindPieces(frees, attributes)
    {
      ps := [];
      for i := 0 to |frees|
        invariant ps == Rules.FindPieces(frees[..i], attributes)
      {
        assert frees[..i + 1][..i] == frees[..i];
        if HasAtts(frees[i], attributes) {
          ps := ps + [frees[i]];
        }
      }
      assert frees[..|frees|] == frees;
    }

    /** `findSimilarPieces`. */
    method FindSimilarPieces(piece: Option<Piece>) returns (ps: seq<Piece>)
      ensures ps == Rules.FindSimilarPieces(frees, piece)
    {
      ps := [];
      for i := 0 to |frees|
        invariant ps == Rules.FindSimilarPieces(frees[..i], piece)
      {
        assert frees[..i + 1][..i] == frees[..i];
        if IsSimilar(frees[i], piece) {
          ps := ps + [frees[i]];
        }
      }
      assert frees[..|frees|] == frees;
    }

    /** `boardState`: the cells row by row, then the piece to be placed. */
    method BoardState() returns (r: string)
      requires Valid()
      ensures r == Keys.BoardState(board.View(), nextPick)
    {
      ghost var b := board.View();
      var w := board.xLength;
      var sb := "";
      for y := 0 to board.yLength
        invariant sb == CellsUpTo(b, y * w)
      {
        var row := RowState(y);
        RowTextIsCells(b, y, y * w, w, y * w + w);
        sb := sb + row;
        assert y * w + w == (y + 1) * w;
      }
      r := sb + Token(nextPick);
    }

    /** The inner loop of `boardState`: the cells of row y, left to right. */
    method RowState(y: int) returns (r: string)
      requires board.Valid()
      ensures r == RowText(board.View(), y, board.xLength)
    {
      r := "";
      for x := 0 to board.xLength
        invariant r == RowText(board.View(), y, x)
      {
        var p := board.Get(x, y);
        r := r + Token(p) + ",";
      }
    }
  }
}
