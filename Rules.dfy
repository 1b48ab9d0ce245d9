/**
 * The rules of a game of Quarto (model/Game/Game.java) as functions on an
 * immutable game state. Class `Games.Game` performs the same steps in place
 * and is proved against these functions.
 */
module Rules {
  import opened Wrappers
  import opened Attributes
  import opened Pieces
  import opened Boards
  import opened Lines

  /** One half-cycle of play: the piece placed at (x, y) and the piece picked for the opponent. */
  datatype Move = Move(placed: Option<Piece>, x: int, y: int, picked: Option<Piece>)

  /**
   * Everything `makeMove` and `undoTurn` read or change. `frees` are the
   * pieces not yet handed out, `actives` those on the board, `nextPick`
   * the piece the player to move must place.
   */
  datatype GameState = GameState(board: BoardView, frees: seq<Piece>, actives: seq<Piece>, moves: seq<Move>,
                                 turn: int, nextPick: Option<Piece>, gameover: bool, draw: bool)
  {
    ghost predicate Valid()
    {
      board.WellFormed() && board.xLength == board.yLength && (turn == 0 || turn == 1) && (draw ==> gameover)
    }

    function Capacity(): int
      requires Valid()
    {
      board.xLength * board.yLength
    }
  }

  /** `turn ^ 1` for a turn that is 0 or 1. */
  function Other(turn: int): int
  {
    if turn == 0 then 1 else 0
  }

  /** `List.remove(Object)`: drop the first occurrence of v, if any. */
  function RemoveFirst<T(==)>(xs: seq<T>, v: T): (r: seq<T>)
    ensures v in xs ==> multiset(r) == multiset(xs) - multiset{v} && |r| == |xs| - 1
    ensures v !in xs ==> r == xs
  {
    if |xs| == 0 then []
    else
      assert xs == [xs[0]] + xs[1..];
      if xs[0] == v then xs[1..] else [xs[0]] + RemoveFirst(xs[1..], v)
  }

  /** The occurrence `RemoveFirst` drops is the first one; the others keep their order. */
  lemma {:induction false} RemoveFirstIsFirstOccurrence<T>(xs: seq<T>, v: T) returns (i: nat)
    requires v in xs
    ensures i < |xs| && xs[i] == v && v !in xs[..i]
    ensures RemoveFirst(xs, v) == xs[..i] + xs[i + 1..]
  {
    if xs[0] == v {
      i := 0;
      assert xs[..0] + xs[1..] == xs[1..];
    } else {
      assert xs == [xs[0]] + xs[1..];
      var j := RemoveFirstIsFirstOccurrence(xs[1..], v);
      RemoveFirstPastHead(xs, v, j);
      RemoveFirstPastHeadRest(xs, v, j);
      i := j + 1;
    }
  }

  /** When the head is not v, the first occurrence in the tail is the first one in the list. */
  lemma RemoveFirstPastHead<T>(xs: seq<T>, v: T, j: nat)
    requires |xs| > 0 && xs[0] != v
    requires j < |xs| - 1 && xs[1..][j] == v && v !in xs[1..][..j]
    ensures xs[j + 1] == v && v !in xs[..j + 1]
  {
    assert xs[..j + 1] == [xs[0]] + xs[1..][..j];
  }

  /** When the head is not v, dropping v from the list is dropping it from the tail. */
  lemma RemoveFirstPastHeadRest<T>(xs: seq<T>, v: T, j: nat)
    requires |xs| > 0 && xs[0] != v && j < |xs| - 1
    requires RemoveFirst(xs[1..], v) == xs[1..][..j] + xs[1..][j + 1..]
    ensures RemoveFirst(xs, v) == xs[..j + 1] + xs[j + 2..]
  {
    var tail, head := xs[1..], [xs[0]];
    var before, after := tail[..j], tail[j + 1..];
    assert xs == head + tail;
    assert RemoveFirst(xs, v) == head + (before + after);
    assert xs[..j + 1] == head + before;
    assert xs[j + 2..] == after;
  }

  lemma RemoveFirstOfAppended<T>(xs: seq<T>, v: T)
    requires v !in xs
    ensures RemoveFirst(xs + [v], v) == xs
  {
    if |xs| > 0 {
      assert (xs + [v])[1..] == xs[1..] + [v];
      RemoveFirstOfAppended(xs[1..], v);
    }
  }

  /** `isFree`: a piece of the game that is neither handed out nor placed. */
  predicate IsFree(s: GameState, p: Option<Piece>)
  {
    p.Some? && p.value in s.frees && p.value !in s.actives
  }

  predicate IsLastTurn(s: GameState)
    requires s.Valid()
  {
    |s.actives| == s.Capacity() - 1
  }

  /** `putPiece`: nothing for no piece; otherwise place it and record it as active. */
  function PutPiece(s: GameState, p: Option<Piece>, x: int, y: int): (r: GameState)
    requires s.Valid()
    ensures r.Valid()
  {
    if p.None? then s else s.(board := s.board.Put(p, x, y), actives := s.actives + [p.value])
  }

  /** `pickPiece`: a free piece becomes the next pick and leaves the free list. */
  function PickPiece(s: GameState, pick: Option<Piece>): (r: GameState)
    requires s.Valid()
    ensures r.Valid()
  {
    if !IsFree(s, pick) then s else s.(nextPick := pick, frees := RemoveFirst(s.frees, pick.value))
  }

  /** `updateState`: unless the game is over, a full board ends it in a draw; the turn passes. */
  function UpdateState(s: GameState): (r: GameState)
    requires s.Valid()
    ensures r.Valid()
  {
    if s.gameover then s
    else
      var t := if |s.actives| == s.Capacity() then s.(gameover := true, draw := true) else s;
      t.(turn := Other(t.turn))
  }

  /** `checkWin`: a piece was placed and it completes a line. */
  predicate CheckWin(s: GameState, p: Option<Piece>, x: int, y: int)
    requires s.Valid()
  {
    p.Some? && CheckLines(s.board, p.value, x, y)
  }

  // ---- makeMove ----

  /** The very first half-move: only a piece is picked. */
  predicate FirstMove(s: GameState, pick: Option<Piece>)
  {
    s.nextPick.None? && IsFree(s, pick)
  }

  /** The last half-move: the board's last open cell is filled and nothing is left to pick. */
  predicate LastMove(s: GameState, x: int, y: int)
    requires s.Valid()
  {
    s.board.IsOpen(x, y) && |s.actives| == s.Capacity() - 1
  }

  predicate NormalMove(s: GameState, x: int, y: int, pick: Option<Piece>)
    requires s.Valid()
  {
    s.board.IsOpen(x, y) && IsFree(s, pick)
  }

  /** Whether `makeMove` does anything. */
  predicate Accepted(s: GameState, x: int, y: int, pick: Option<Piece>)
    requires s.Valid()
  {
    !s.gameover && (FirstMove(s, pick) || LastMove(s, x, y) || NormalMove(s, x, y, pick))
  }

  /** The move `makeMove` records: a first move is placed at (-1, -1), a last move picks nothing. */
  function MoveOf(s: GameState, x: int, y: int, pick: Option<Piece>): Move
    requires s.Valid()
  {
    var first := FirstMove(s, pick);
    Move(s.nextPick, if first then -1 else x, if first then -1 else y, if LastMove(s, x, y) then None else pick)
  }

  /** `makeMove(x, y, pick, forceMove)`; with `force` no win is looked for. */
  function MakeMove(s: GameState, x: int, y: int, pick: Option<Piece>, force: bool): (r: GameState)
    requires s.Valid()
    ensures r.Valid() && r.board.xLength == s.board.xLength
  {
    if !Accepted(s, x, y, pick) then s else Play(s, MoveOf(s, x, y, pick), force)
  }

  /** The body of an accepted `makeMove`: record and place, then pick and pass the turn. */
  function Play(s: GameState, m: Move, force: bool): (r: GameState)
    requires s.Valid() && !s.gameover
    ensures r.Valid() && r.board.xLength == s.board.xLength
  {
    Pass(Place(s, m, force), m.picked)
  }

  /** The first half of an accepted move: record it, place the piece and, unless forced, look for a win. */
  function Place(s: GameState, m: Move, force: bool): (r: GameState)
    requires s.Valid() && !s.gameover
    ensures r.Valid() && r.board.xLength == s.board.xLength
  {
    var s1 := PutPiece(s.(moves := s.moves + [m]), m.placed, m.x, m.y);
    if force then s1 else s1.(gameover := CheckWin(s1, m.placed, m.x, m.y))
  }

  /** The second half: pick, and pass the turn (twice over if the move won). */
  function Pass(s: GameState, pick: Option<Piece>): (r: GameState)
    requires s.Valid()
    ensures r.Valid() && r.board.xLength == s.board.xLength
  {
    var s3 := PickPiece(s, pick);
    var s4 := if s3.gameover then s3.(turn := Other(s3.turn)) else s3;
    UpdateState(s4)
  }

  /** `makeMove(Move, forceMove)`: replays a move's coordinates and pick. */
  function MakeMoveFrom(s: GameState, m: Option<Move>, force: bool): (r: GameState)
    requires s.Valid()
    ensures r.Valid() && r.board.xLength == s.board.xLength
  {
    if s.gameover || m.None? then s else MakeMove(s, m.value.x, m.value.y, m.value.picked, force)
  }

  /** `undoTurn(forceUndo)`: the new state and the move taken back, if any. */
  function Undo(s: GameState, force: bool): (r: (GameState, Option<Move>))
    requires s.Valid()
    ensures r.0.Valid() && r.0.board.xLength == s.board.xLength
  {
    if (s.gameover && !force) || |s.moves| == 0 then (s, None)
    else
      var last := s.moves[|s.moves| - 1];
      var s1 := s.(moves := s.moves[..|s.moves| - 1], board := s.board.Remove(last.x, last.y));
      var s2 := if last.placed.Some? then s1.(actives := RemoveFirst(s1.actives, last.placed.value)) else s1;
      var s3 := if s2.nextPick.Some? then s2.(frees := s2.frees + [s2.nextPick.value]) else s2;
      (UpdateState(s3.(nextPick := last.placed)), Some(last))
  }

  /** `winner`: -1 while playing, -2 for a draw, otherwise the player who moved last. */
  function Winner(s: GameState): int
    requires s.Valid()
  {
    if !s.gameover then -1 else if s.draw then -2 else Other(s.turn)
  }

  // ---- findPieces / findSimilarPieces ----

  /** `findPieces`: the free pieces carrying every listed value, in order. */
  function FindPieces(frees: seq<Piece>, attrs: Option<seq<Att>>): (r: seq<Piece>)
    ensures |r| <= |frees|
  {
    if |frees| == 0 then []
    else
      var last := frees[|frees| - 1];
      assert frees == frees[..|frees| - 1] + [last];
      FindPieces(frees[..|frees| - 1], attrs) + (if HasAtts(last, attrs) then [last] else [])
  }

  /** `findSimilarPieces`: the free pieces sharing a value with `piece`, in order. */
  function FindSimilarPieces(frees: seq<Piece>, piece: Option<Piece>): (r: seq<Piece>)
    ensures |r| <= |frees|
  {
    if |frees| == 0 then []
    else
      var last := frees[|frees| - 1];
      assert frees == frees[..|frees| - 1] + [last];
      FindSimilarPieces(frees[..|frees| - 1], piece) + (if IsSimilar(last, piece) then [last] else [])
  }

  /** Each free piece carrying every listed value is kept as often as it occurs; no other piece is. */
  lemma {:induction false} FindPiecesCounts(frees: seq<Piece>, attrs: Option<seq<Att>>)
    ensures forall p :: multiset(FindPieces(frees, attrs))[p] == if HasAtts(p, attrs) then multiset(frees)[p] else 0
  {
    if |frees| > 0 {
      var n := |frees| - 1;
      var init, last := frees[..n], frees[n];
      FindPiecesCounts(init, attrs);
      assert frees == init + [last];
      var kept := if HasAtts(last, attrs) then [last] else [];
      assert FindPieces(frees, attrs) == FindPieces(init, attrs) + kept;
      assert multiset(frees) == multiset(init) + multiset{last};
    }
  }

  /** Each free piece similar to `piece` is kept as often as it occurs; no other piece is. */
  lemma {:induction false} FindSimilarPiecesCounts(frees: seq<Piece>, piece: Option<Piece>)
    ensures forall p :: multiset(FindSimilarPieces(frees, piece))[p] == if IsSimilar(p, piece) then multiset(frees)[p] else 0
  {
    if |frees| > 0 {
      var n := |frees| - 1;
      var init, last := frees[..n], frees[n];
      FindSimilarPiecesCounts(init, piece);
      assert frees == init + [last];
      var kept := if IsSimilar(last, piece) then [last] else [];
      assert FindSimilarPieces(frees, piece) == FindSimilarPieces(init, piece) + kept;
      assert multiset(frees) == multiset(init) + multiset{last};
    }
  }

  /** r lists the elements of xs at the strictly increasing positions idx. */
  ghost predicate Picks<T>(r: seq<T>, xs: seq<T>, idx: seq<nat>)
  {
    |idx| == |r| &&
    (forall i :: 0 <= i < |idx| ==> idx[i] < |xs| && r[i] == xs[idx[i]]) &&
    (forall i, j :: 0 <= i < j < |idx| ==> idx[i] < idx[j])
  }

  /** Keeping or dropping one more element at the end of xs extends the positions kept. */
  lemma PicksExtend<T>(r: seq<T>, xs: seq<T>, idx: seq<nat>, keep: bool)
    requires |xs| > 0 && Picks(r, xs[..|xs| - 1], idx)
    ensures var n := |xs| - 1;
      Picks(r + (if keep then [xs[n]] else []), xs, if keep then idx + [n] else idx) &&
      forall k :: 0 <= k < |xs| ==> (k in (if keep then idx + [n] else idx) <==> (k < n && k in idx) || (k == n && keep))
  {
    var n := |xs| - 1;
    assert forall i :: 0 <= i < |idx| ==> idx[i] < n && r[i] == xs[idx[i]];
  }

  /** `findPieces` keeps the pieces carrying every listed value, at their positions in `frees` and in that order. */
  lemma {:induction false} FindPiecesKeepsOrder(frees: seq<Piece>, attrs: Option<seq<Att>>) returns (idx: seq<nat>)
    ensures Picks(FindPieces(frees, attrs), frees, idx)
    ensures forall k :: 0 <= k < |frees| ==> (k in idx <==> HasAtts(frees[k], attrs))
  {
    if |frees| == 0 {
      idx := [];
    } else {
      var n := |frees| - 1;
      var before := FindPiecesKeepsOrder(frees[..n], attrs);
      var keep := HasAtts(frees[n], attrs);
      PicksExtend(FindPieces(frees[..n], attrs), frees, before, keep);
      idx := if keep then before + [n] else before;
      assert forall k :: 0 <= k < n ==> frees[..n][k] == frees[k];
    }
  }

  /** `findSimilarPieces` keeps the pieces similar to `piece`, at their positions in `frees` and in that order. */
  lemma {:induction false} FindSimilarPiecesKeepsOrder(frees: seq<Piece>, piece: Option<Piece>) returns (idx: seq<nat>)
    ensures Picks(FindSimilarPieces(frees, piece), frees, idx)
    ensures forall k :: 0 <= k < |frees| ==> (k in idx <==> IsSimilar(frees[k], piece))
  {
    if |frees| == 0 {
      idx := [];
    } else {
      var n := |frees| - 1;
      var before := FindSimilarPiecesKeepsOrder(frees[..n], piece);
      var keep := IsSimilar(frees[n], piece);
      PicksExtend(FindSimilarPieces(frees[..n], piece), frees, before, keep);
      idx := if keep then before + [n] else before;
      assert forall k :: 0 <= k < n ==> frees[..n][k] == frees[k];
    }
  }

  /** Filtering a concatenation filters each part. */
  lemma {:induction false} FindPiecesAppend(a: seq<Piece>, b: seq<Piece>, attrs: Option<seq<Att>>)
    ensures FindPieces(a + b, attrs) == FindPieces(a, attrs) + FindPieces(b, attrs)
  {
    if |b| > 0 {
      var n, ab := |b| - 1, a + b;
      var tail := if HasAtts(b[n], attrs) then [b[n]] else [];
      assert ab[..|ab| - 1] == a + b[..n] && ab[|ab| - 1] == b[n];
      assert FindPieces(ab, attrs) == FindPieces(a + b[..n], attrs) + tail;
      assert FindPieces(b, attrs) == FindPieces(b[..n], attrs) + tail;
      FindPiecesAppend(a, b[..n], attrs);
      var fa, fb := FindPieces(a, attrs), FindPieces(b[..n], attrs);
      assert fa + (fb + tail) == (fa + fb) + tail;
    } else {
      assert a + b == a;
    }
  }

  // ---- Properties of makeMove ----

  /** A rejected move changes nothing; an accepted one records exactly one move. */
  lemma MakeMoveRecords(s: GameState, x: int, y: int, pick: Option<Piece>, force: bool)
    requires s.Valid()
    ensures !Accepted(s, x, y, pick) ==> MakeMove(s, x, y, pick, force) == s
    ensures Accepted(s, x, y, pick) ==> MakeMove(s, x, y, pick, force).moves == s.moves + [MoveOf(s, x, y, pick)]
    ensures MakeMove(s, x, y, pick, force).moves == s.moves <==> !Accepted(s, x, y, pick)
    ensures s.gameover ==> MakeMove(s, x, y, pick, force) == s
  {
    if Accepted(s, x, y, pick) {
      assert |MakeMove(s, x, y, pick, force).moves| == |s.moves| + 1;
    }
  }

  /**
   * Where an accepted move puts things: the piece to be placed lands on the
   * open cell (x, y) and becomes active; a first move places nothing and is
   * recorded at (-1, -1); a last move records no pick.
   */
  lemma MakeMovePlaces(s: GameState, x: int, y: int, pick: Option<Piece>, force: bool)
    requires s.Valid() && Accepted(s, x, y, pick)
    ensures var r := MakeMove(s, x, y, pick, force);
      if s.nextPick.Some? then
        s.board.IsOpen(x, y) && r.board.Get(x, y) == s.nextPick &&
        (forall i, j :: (i, j) != (x, y) ==> r.board.Get(i, j) == s.board.Get(i, j)) &&
        r.actives == s.actives + [s.nextPick.value]
      else r.board == s.board && r.actives == s.actives
    ensures FirstMove(s, pick) ==> MoveOf(s, x, y, pick).x == -1 && MoveOf(s, x, y, pick).y == -1
    ensures !FirstMove(s, pick) ==> s.board.IsOpen(x, y) && MoveOf(s, x, y, pick).x == x && MoveOf(s, x, y, pick).y == y
    ensures MoveOf(s, x, y, pick).picked == if LastMove(s, x, y) then None else pick
  {
    if s.nextPick.Some? {
      PutThenGet(s.board, s.nextPick, x, y);
    }
  }

  /** The piece is on the board and some line through it completes with at least one shared value. */
  predicate Won(s: GameState, x: int, y: int, pick: Option<Piece>)
    requires s.Valid()
  {
    var m := MoveOf(s, x, y, pick);
    m.placed.Some? && CheckLines(s.board.Put(m.placed, m.x, m.y), m.placed.value, m.x, m.y)
  }

  /** After the move every cell holds a piece. */
  predicate Fills(s: GameState)
    requires s.Valid()
  {
    |s.actives| + (if s.nextPick.Some? then 1 else 0) == s.Capacity()
  }

  /**
   * Outcome of an accepted move: the turn passes exactly once, the game ends
   * with a win for the mover when the placed piece completes a line, and
   * otherwise in a draw when the board is full. A forced move never wins.
   */
  lemma MakeMoveOutcome(s: GameState, x: int, y: int, pick: Option<Piece>, force: bool)
    requires s.Valid() && Accepted(s, x, y, pick)
    ensures var r := MakeMove(s, x, y, pick, force);
      var won := !force && Won(s, x, y, pick);
      r.turn == Other(s.turn) &&
      (r.gameover <==> won || Fills(s)) &&
      (r.draw <==> !won && Fills(s)) &&
      Winner(r) == (if won then s.turn else if Fills(s) then -2 else -1)
  {
  }

  // ---- Pieces are neither created nor lost ----

  /** All pieces a state holds: free, placed, and the one to be placed. */
  function Inventory(s: GameState): multiset<Piece>
  {
    multiset(s.frees) + multiset(s.actives) + (if s.nextPick.Some? then multiset{s.nextPick.value} else multiset{})
  }

  /** No piece is held twice. */
  predicate Consistent(s: GameState)
  {
    forall p :: p in Inventory(s) ==> Inventory(s)[p] <= 1
  }

  lemma ConsistentFacts(s: GameState)
    requires Consistent(s)
    ensures forall p :: p in s.frees ==> p !in s.actives
    ensures s.nextPick.Some? ==> s.nextPick.value !in s.frees && s.nextPick.value !in s.actives
    ensures forall p :: IsFree(s, Some(p)) <==> p in s.frees
  {
    forall p | p in s.frees ensures p !in s.actives {
      assert Inventory(s)[p] <= 1;
    }
    if s.nextPick.Some? {
      assert Inventory(s)[s.nextPick.value] <= 1;
    }
  }

  /** Which lists an accepted move changes, whether or not it is forced. */
  lemma MakeMoveLists(s: GameState, x: int, y: int, pick: Option<Piece>, force: bool)
    requires s.Valid() && Consistent(s) && Accepted(s, x, y, pick)
    ensures var r := MakeMove(s, x, y, pick, force);
      r.actives == s.actives + (if s.nextPick.Some? then [s.nextPick.value] else []) &&
      if LastMove(s, x, y) then r.nextPick == s.nextPick && r.frees == s.frees
      else IsFree(s, pick) && r.nextPick == pick && r.frees == RemoveFirst(s.frees, pick.value)
  {
    ConsistentFacts(s);
    if !LastMove(s, x, y) {
      assert IsFree(s, pick);
      assert s.nextPick.Some? ==> pick.value != s.nextPick.value;
    }
  }

  /**
   * A move that does not fill the last cell keeps every piece: the picked
   * piece moves from the free list to `nextPick` and the placed one onto
   * the board. After the last move the placed piece stays `nextPick` as
   * well, so it is held twice.
   */
  lemma MakeMoveConserves(s: GameState, x: int, y: int, pick: Option<Piece>, force: bool)
    requires s.Valid() && Consistent(s) && Accepted(s, x, y, pick)
    ensures var r := MakeMove(s, x, y, pick, force);
      if LastMove(s, x, y) then
        Inventory(r) == Inventory(s) + (if s.nextPick.Some? then multiset{s.nextPick.value} else multiset{})
      else
        Inventory(r) == Inventory(s) && Consistent(r)
  {
    MakeMoveLists(s, x, y, pick, force);
    InventoryShift(s, MakeMove(s, x, y, pick, force), LastMove(s, x, y), pick);
  }

  /** The multiset bookkeeping behind `MakeMoveConserves`. */
  lemma InventoryShift(s: GameState, r: GameState, last: bool, pick: Option<Piece>)
    requires r.actives == s.actives + (if s.nextPick.Some? then [s.nextPick.value] else [])
    requires last ==> r.nextPick == s.nextPick && r.frees == s.frees
    requires !last ==> IsFree(s, pick) && r.nextPick == pick && r.frees == RemoveFirst(s.frees, pick.value)
    requires Consistent(s)
    ensures last ==> Inventory(r) == Inventory(s) + (if s.nextPick.Some? then multiset{s.nextPick.value} else multiset{})
    ensures !last ==> Inventory(r) == Inventory(s) && Consistent(r)
  {
    var placed := if s.nextPick.Some? then multiset{s.nextPick.value} else multiset{};
    assert multiset(r.actives) == multiset(s.actives) + placed;
    if !last {
      var v := pick.value;
      assert multiset(r.frees) == multiset(s.frees) - multiset{v};
      assert r.nextPick == Some(v);
      calc {
        Inventory(r);
        multiset(r.frees) + multiset(r.actives) + multiset{v};
        (multiset(s.frees) - multiset{v}) + (multiset(s.actives) + placed) + multiset{v};
        { assert v in multiset(s.frees); }
        multiset(s.frees) + multiset(s.actives) + placed;
        Inventory(s);
      }
    }
  }

  // ---- undoTurn ----

  /** Undo refuses exactly when the game is over (unless forced) or nothing was played; then nothing changes. */
  lemma UndoRefuses(s: GameState, force: bool)
    requires s.Valid()
    ensures Undo(s, force).1.None? <==> (s.gameover && !force) || |s.moves| == 0
    ensures Undo(s, force).1.None? ==> Undo(s, force).0 == s
    ensures Undo(s, force).1.Some? ==>
      Undo(s, force).1.value == s.moves[|s.moves| - 1] && Undo(s, force).0.moves == s.moves[..|s.moves| - 1]
  {
  }

  /**
   * A forced move followed by a forced undo restores the state, as HardAI
   * relies on, provided the move does not fill the board: the only change
   * is that the picked piece now comes last in the free list.
   */
  lemma UndoRestores(s: GameState, x: int, y: int, pick: Option<Piece>)
    requires s.Valid() && Consistent(s) && Accepted(s, x, y, pick)
    requires |s.actives| + 1 < s.Capacity()
    ensures var (u, m) := Undo(MakeMove(s, x, y, pick, true), true);
      m == Some(MoveOf(s, x, y, pick)) &&
      u == s.(frees := u.frees) &&
      u.frees == RemoveFirst(s.frees, pick.value) + [pick.value] &&
      multiset(u.frees) == multiset(s.frees)
  {
    ConsistentFacts(s);
    var m := MoveOf(s, x, y, pick);
    var r := MakeMove(s, x, y, pick, true);
    assert IsFree(s, pick);
    assert r.nextPick == pick;
    if s.nextPick.Some? {
      assert s.board.IsOpen(x, y);
      PutThenRemove(s.board, s.nextPick, x, y);
      RemoveFirstOfAppended(s.actives, s.nextPick.value);
    } else {
      RemoveUnoccupied(s.board, m.x, m.y);
    }
  }

  /**
   * `runTurn` plays unforced. An accepted move after which the game goes on
   * is undone the same way, from any running state with an open cell left:
   * everything comes back, the free list possibly reordered. Here a first
   * move may also be the one that leaves a single cell open.
   */
  lemma UndoRestoresUnforced(s: GameState, x: int, y: int, pick: Option<Piece>)
    requires s.Valid() && Consistent(s) && Accepted(s, x, y, pick) && |s.actives| < s.Capacity()
    requires !MakeMove(s, x, y, pick, false).gameover
    ensures var (u, m) := Undo(MakeMove(s, x, y, pick, false), true);
      m == Some(MoveOf(s, x, y, pick)) &&
      u == s.(frees := u.frees) &&
      multiset(u.frees) == multiset(s.frees) &&
      (MoveOf(s, x, y, pick).picked.Some? ==> u.frees == RemoveFirst(s.frees, pick.value) + [pick.value])
  {
    MakeMoveOutcome(s, x, y, pick, false);
    MakeMoveOutcome(s, x, y, pick, true);
    assert MakeMove(s, x, y, pick, false) == MakeMove(s, x, y, pick, true);
    if |s.actives| + 1 < s.Capacity() {
      UndoRestores(s, x, y, pick);
    } else {
      ConsistentFacts(s);
      var m := MoveOf(s, x, y, pick);
      RemoveUnoccupied(s.board, m.x, m.y);
    }
  }

  /**
   * The same holds when the free list was reordered in between, as a search
   * below the move does: undo only appends to that list, so the pieces come
   * back, in some order.
   */
  lemma UndoRestoresAnyOrder(s: GameState, x: int, y: int, pick: Option<Piece>, f: seq<Piece>)
    requires s.Valid() && Consistent(s) && Accepted(s, x, y, pick)
    requires |s.actives| + 1 < s.Capacity()
    requires multiset(f) == multiset(MakeMove(s, x, y, pick, true).frees)
    ensures var u := Undo(MakeMove(s, x, y, pick, true).(frees := f), true).0;
      u == s.(frees := u.frees) && multiset(u.frees) == multiset(s.frees)
  {
    UndoRestores(s, x, y, pick);
    MakeMoveLists(s, x, y, pick, true);
    MakeMoveRecords(s, x, y, pick, true);
    var r := MakeMove(s, x, y, pick, true);
    UndoFreeOrder(r, f);
    var u := Undo(r.(frees := f), true).0;
    assert u.frees == f + [pick.value];
    assert multiset(f) == multiset(s.frees) - multiset{pick.value};
  }

  /** Undo only appends to the free list, whatever its order. */
  lemma UndoFreeOrder(c: GameState, f: seq<Piece>)
    requires c.Valid() && |c.moves| > 0 && c.nextPick.Some?
    ensures Undo(c.(frees := f), true).0 == Undo(c, true).0.(frees := f + [c.nextPick.value])
  {
  }

  /**
   * Undoing, with force, the move that filled the board does not restore the
   * state: the game stays over as a draw, the turn is not handed back, and
   * the placed piece, still recorded as `nextPick`, is also added to the
   * free list.
   */
  lemma UndoAfterLastMove(s: GameState, x: int, y: int, pick: Option<Piece>)
    requires s.Valid() && Consistent(s) && Accepted(s, x, y, pick)
    requires LastMove(s, x, y) && s.nextPick.Some?
    ensures var (u, m) := Undo(MakeMove(s, x, y, pick, true), true);
      m == Some(MoveOf(s, x, y, pick)) &&
      u.board == s.board && u.actives == s.actives && u.nextPick == s.nextPick &&
      u.frees == s.frees + [s.nextPick.value] &&
      u.gameover && u.draw && u.turn == Other(s.turn)
  {
    ConsistentFacts(s);
    PutThenRemove(s.board, s.nextPick, x, y);
    RemoveFirstOfAppended(s.actives, s.nextPick.value);
  }

  /**
   * `undoTurn` as its use by the search intends it: taking back a move also
   * takes back the end of the game it caused, and a move that picked
   * nothing hands no piece back to the free list.
   */
  function UndoCorrected(s: GameState, force: bool): (r: (GameState, Option<Move>))
    requires s.Valid()
    ensures r.0.Valid() && r.0.board.xLength == s.board.xLength
  {
    if (s.gameover && !force) || |s.moves| == 0 then (s, None)
    else
      var last := s.moves[|s.moves| - 1];
      var s1 := s.(moves := s.moves[..|s.moves| - 1], board := s.board.Remove(last.x, last.y), gameover := false, draw := false);
      var s2 := if last.placed.Some? then s1.(actives := RemoveFirst(s1.actives, last.placed.value)) else s1;
      var s3 := if s2.nextPick.Some? && last.picked.Some? then s2.(frees := s2.frees + [s2.nextPick.value]) else s2;
      (UpdateState(s3.(nextPick := last.placed)), Some(last))
  }

  /**
   * The corrected undo takes back every accepted move, forced or not,
   * winning, filling the board or neither: the state comes back with the
   * free pieces possibly reordered.
   */
  lemma UndoCorrectedRestores(s: GameState, x: int, y: int, pick: Option<Piece>, force: bool)
    requires s.Valid() && Consistent(s) && Accepted(s, x, y, pick) && |s.actives| < s.Capacity()
    ensures var (u, m) := UndoCorrected(MakeMove(s, x, y, pick, force), true);
      m == Some(MoveOf(s, x, y, pick)) && SameButFreeOrder(u, s)
  {
    UndoCorrectedAnyOrder(s, x, y, pick, force, MakeMove(s, x, y, pick, force));
  }

  /**
   * The same when the free list was reordered after the move, as a search
   * below it does.
   */
  lemma UndoCorrectedAnyOrder(s: GameState, x: int, y: int, pick: Option<Piece>, force: bool, c: GameState)
    requires s.Valid() && Consistent(s) && Accepted(s, x, y, pick) && |s.actives| < s.Capacity()
    requires SameButFreeOrder(c, MakeMove(s, x, y, pick, force))
    ensures c.Valid()
    ensures var (u, m) := UndoCorrected(c, true);
      m == Some(MoveOf(s, x, y, pick)) && SameButFreeOrder(u, s)
  {
    var m := MoveOf(s, x, y, pick);
    var r := MakeMove(s, x, y, pick, force);
    assert r.moves == s.moves + [m] by {
      MakeMoveRecords(s, x, y, pick, force);
    }
    assert r.turn == Other(s.turn) by {
      MakeMoveOutcome(s, x, y, pick, force);
    }
    PlacedComesOff(s, x, y, pick, force);
    assert if m.picked.Some? then r.nextPick == m.picked && multiset(r.frees) + multiset{m.picked.value} == multiset(s.frees)
           else r.frees == s.frees
    by {
      MakeMoveLists(s, x, y, pick, force);
    }
    UndoCorrectedOf(s, c, m);
  }

  /** Removing what an accepted move placed gives back the board and the placed pieces. */
  lemma PlacedComesOff(s: GameState, x: int, y: int, pick: Option<Piece>, force: bool)
    requires s.Valid() && Consistent(s) && Accepted(s, x, y, pick)
    ensures var m, r := MoveOf(s, x, y, pick), MakeMove(s, x, y, pick, force);
      r.board.Remove(m.x, m.y) == s.board &&
      if m.placed.Some? then RemoveFirst(r.actives, m.placed.value) == s.actives else r.actives == s.actives
  {
    var m, r := MoveOf(s, x, y, pick), MakeMove(s, x, y, pick, force);
    ConsistentFacts(s);
    MakeMoveLists(s, x, y, pick, force);
    if s.nextPick.Some? {
      assert r.board == s.board.Put(s.nextPick, x, y);
      PutThenRemove(s.board, s.nextPick, x, y);
      RemoveFirstOfAppended(s.actives, s.nextPick.value);
    } else {
      RemoveUnoccupied(s.board, m.x, m.y);
    }
  }

  /** The corrected undo of a state one recorded move ahead of s, described field by field. */
  lemma UndoCorrectedOf(s: GameState, r: GameState, m: Move)
    requires s.Valid() && r.Valid() && !s.gameover && |s.actives| < s.Capacity() && r.Capacity() == s.Capacity()
    requires r.moves == s.moves + [m] && r.board.Remove(m.x, m.y) == s.board && m.placed == s.nextPick
    requires if m.placed.Some? then RemoveFirst(r.actives, m.placed.value) == s.actives else r.actives == s.actives
    requires if m.picked.Some? then r.nextPick == m.picked && multiset(r.frees) + multiset{m.picked.value} == multiset(s.frees)
             else multiset(r.frees) == multiset(s.frees)
    requires r.turn == Other(s.turn)
    ensures var (u, m') := UndoCorrected(r, true); m' == Some(m) && SameButFreeOrder(u, s)
  {
    assert r.moves[..|r.moves| - 1] == s.moves;
  }

  // ---- A run of turns and its undoing ----

  /** Equal states, except that the free list may hold its pieces in another order. */
  predicate SameButFreeOrder(a: GameState, b: GameState)
  {
    a == b.(frees := a.frees) && multiset(a.frees) == multiset(b.frees)
  }

  lemma SameButFreeOrderTrans(a: GameState, b: GameState, c: GameState)
    requires SameButFreeOrder(a, b) && SameButFreeOrder(b, c)
    ensures SameButFreeOrder(a, c)
  {
  }

  /** Undo reads nothing from the free list but appends to it, so the order there does not matter. */
  lemma UndoIgnoresFreeOrder(a: GameState, b: GameState)
    requires b.Valid() && SameButFreeOrder(a, b)
    ensures a.Valid() && SameButFreeOrder(Undo(a, true).0, Undo(b, true).0)
  {
    assert a == b.(frees := a.frees);
    if |b.moves| > 0 && b.nextPick.Some? {
      UndoFreeOrder(b, a.frees);
      UndoFreeOrder(b, b.frees);
      assert b.(frees := b.frees) == b;
    }
  }

  /** `runTurn(x, y, pick)` for each move in turn: the unforced `makeMove` of its coordinates and pick. */
  function PlayAll(s: GameState, ms: seq<Move>): (r: GameState)
    requires s.Valid()
    ensures r.Valid() && r.board.xLength == s.board.xLength
    decreases |ms|
  {
    if |ms| == 0 then s
    else
      var last := ms[|ms| - 1];
      MakeMove(PlayAll(s, ms[..|ms| - 1]), last.x, last.y, last.picked, false)
  }

  /** Every move of the run is accepted and leaves the game running. */
  ghost predicate Runs(s: GameState, ms: seq<Move>)
    requires s.Valid()
    decreases |ms|
  {
    |ms| == 0 ||
    (Runs(s, ms[..|ms| - 1]) &&
     var t, last := PlayAll(s, ms[..|ms| - 1]), ms[|ms| - 1];
     Accepted(t, last.x, last.y, last.picked) && !MakeMove(t, last.x, last.y, last.picked, false).gameover)
  }

  /** `undoTurn(true)`, n times. */
  function UndoTimes(s: GameState, n: nat): (r: GameState)
    requires s.Valid()
    ensures r.Valid()
    decreases n
  {
    if n == 0 then s else UndoTimes(Undo(s, true).0, n - 1)
  }

  lemma {:induction false} UndoTimesIgnoresFreeOrder(a: GameState, b: GameState, n: nat)
    requires b.Valid() && SameButFreeOrder(a, b)
    ensures a.Valid() && SameButFreeOrder(UndoTimes(a, n), UndoTimes(b, n))
    decreases n
  {
    UndoIgnoresFreeOrder(a, b);
    if n > 0 {
      UndoTimesIgnoresFreeOrder(Undo(a, true).0, Undo(b, true).0, n - 1);
    }
  }

  /** A running game keeps holding each piece once and keeps an open cell. */
  lemma {:induction false} RunKeepsConsistent(s: GameState, ms: seq<Move>)
    requires s.Valid() && Consistent(s) && |s.actives| < s.Capacity() && Runs(s, ms)
    ensures var r := PlayAll(s, ms); Consistent(r) && |r.actives| < r.Capacity()
    decreases |ms|
  {
    if |ms| > 0 {
      var t, last := PlayAll(s, ms[..|ms| - 1]), ms[|ms| - 1];
      RunKeepsConsistent(s, ms[..|ms| - 1]);
      MakeMoveOutcome(t, last.x, last.y, last.picked, false);
      MakeMoveConserves(t, last.x, last.y, last.picked, false);
      MakeMoveLists(t, last.x, last.y, last.picked, false);
    }
  }

  /** Undoing the last move of a run gives back the state before it. */
  lemma UndoLastOfRun(s: GameState, ms: seq<Move>)
    requires s.Valid() && Consistent(s) && |s.actives| < s.Capacity() && Runs(s, ms) && |ms| > 0
    ensures SameButFreeOrder(Undo(PlayAll(s, ms), true).0, PlayAll(s, ms[..|ms| - 1]))
  {
    var t, last := PlayAll(s, ms[..|ms| - 1]), ms[|ms| - 1];
    RunKeepsConsistent(s, ms[..|ms| - 1]);
    UndoRestoresUnforced(t, last.x, last.y, last.picked);
  }

  /**
   * Undoing, with force, as many times as moves were played gives back the
   * state the run started from: board, pieces placed, `nextPick`, turn and
   * history, with the free pieces possibly in another order.
   */
  lemma {:induction false} RunThenUndoRestores(s: GameState, ms: seq<Move>)
    requires s.Valid() && Consistent(s) && |s.actives| < s.Capacity() && Runs(s, ms)
    ensures SameButFreeOrder(UndoTimes(PlayAll(s, ms), |ms|), s)
    decreases |ms|
  {
    if |ms| > 0 {
      var n := |ms| - 1;
      var t := PlayAll(s, ms[..n]);
      var u := Undo(PlayAll(s, ms), true).0;
      UndoLastOfRun(s, ms);
      assert UndoTimes(PlayAll(s, ms), |ms|) == UndoTimes(u, n);
      UndoTimesIgnoresFreeOrder(u, t, n);
      assert Runs(s, ms[..n]);
      RunThenUndoRestores(s, ms[..n]);
      SameButFreeOrderTrans(UndoTimes(u, n), UndoTimes(t, n), s);
    }
  }
}
