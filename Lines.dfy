/**
 * N-in-a-row win detection (Game.checkLines and Game.checkAllSimilar).
 * For a cell (x, y) the model lists the OTHER cells of each line through
 * it, in the order the source's loop visits them, collects the pieces on
 * those cells and asks whether, together with the placed piece, they
 * share a value.
 */
module Lines {
  import opened Wrappers
  import opened Attributes
  import opened Pieces
  import opened Boards

  type Cell = (int, int)

  /** The values of `acc` carried by every piece of `pieces`: the source's `retainAll` loop. */
  function Common(acc: set<Att>, pieces: seq<Piece>): (r: set<Att>)
    ensures forall a :: a in r <==> a in acc && forall i :: 0 <= i < |pieces| ==> a in pieces[i].atts
  {
    if |pieces| == 0 then acc
    else
      var r := Common(acc * pieces[0].atts, pieces[1..]);
      assert forall i :: 1 <= i < |pieces| ==> pieces[i] == pieces[1..][i - 1];
      r
  }

  /** `checkAllSimilar`: false for no pieces, otherwise whether p and all of them share a value. */
  predicate CheckAllSimilar(pieces: seq<Piece>, p: Piece)
  {
    |pieces| > 0 && Common(p.atts, pieces) != {}
  }

  /** Column x without row `skip`, rows 0..k-1. */
  function ColumnOthers(x: int, skip: int, k: nat): seq<Cell>
  {
    if k == 0 then [] else ColumnOthers(x, skip, k - 1) + (if k - 1 != skip then [(x, k - 1)] else [])
  }

  /** Row y without column `skip`, columns 0..k-1. */
  function RowOthers(y: int, skip: int, k: nat): seq<Cell>
  {
    if k == 0 then [] else RowOthers(y, skip, k - 1) + (if k - 1 != skip then [(k - 1, y)] else [])
  }

  /** The diagonal y = x without (x, y), if (x, y) lies on it; otherwise nothing. */
  function DiagOthers(x: int, y: int, k: nat): seq<Cell>
  {
    if k == 0 then [] else DiagOthers(x, y, k - 1) + (if x == y && k - 1 != x then [(k - 1, k - 1)] else [])
  }

  /** The diagonal x + y = n - 1 without (x, y), if (x, y) lies on it; otherwise nothing. */
  function AntiOthers(x: int, y: int, n: int, k: nat): seq<Cell>
  {
    if k == 0 then [] else
      AntiOthers(x, y, n, k - 1) + (if x + y == n - 1 && k - 1 != x then [(k - 1, n - 1 - (k - 1))] else [])
  }

  /** The pieces on the occupied cells of `cs`, in order. */
  function Occupants(b: BoardView, cs: seq<Cell>): seq<Piece>
    requires b.WellFormed()
  {
    if |cs| == 0 then []
    else
      var c := cs[|cs| - 1];
      Occupants(b, cs[..|cs| - 1]) + (if b.HasPiece(c.0, c.1) then [b.Get(c.0, c.1).value] else [])
  }

  lemma OccupantsAppend(b: BoardView, cs: seq<Cell>, extra: seq<Cell>)
    requires b.WellFormed() && |extra| <= 1
    ensures Occupants(b, cs + extra) ==
      Occupants(b, cs) + (if |extra| == 1 && b.HasPiece(extra[0].0, extra[0].1) then [b.Get(extra[0].0, extra[0].1).value] else [])
  {
    if |extra| == 1 {
      assert (cs + extra)[..|cs|] == cs;
    } else {
      assert cs + extra == cs;
    }
  }

  /** The piece on (cx, cy) as a list, if `keep` holds and the cell is occupied. */
  function PieceIf(b: BoardView, keep: bool, cx: int, cy: int): seq<Piece>
    requires b.WellFormed()
  {
    if keep && b.HasPiece(cx, cy) then [b.Get(cx, cy).value] else []
  }

  /** One round of the collecting loop of `checkLines` for one line: the cell c is appended if `keep` holds. */
  lemma CollectStep(b: BoardView, cs: seq<Cell>, c: Cell, keep: bool, acc: seq<Piece>)
    requires b.WellFormed() && acc == Occupants(b, cs)
    ensures acc + PieceIf(b, keep, c.0, c.1) == Occupants(b, cs + if keep then [c] else [])
  {
    OccupantsAppend(b, cs, if keep then [c] else []);
  }

  lemma ColumnStep(b: BoardView, x: int, y: int, i: nat, acc: seq<Piece>)
    requires b.WellFormed() && acc == Occupants(b, ColumnOthers(x, y, i))
    ensures acc + PieceIf(b, i != y, x, i) == Occupants(b, ColumnOthers(x, y, i + 1))
  {
    CollectStep(b, ColumnOthers(x, y, i), (x, i), i != y, acc);
  }

  lemma RowStep(b: BoardView, x: int, y: int, i: nat, acc: seq<Piece>)
    requires b.WellFormed() && acc == Occupants(b, RowOthers(y, x, i))
    ensures acc + PieceIf(b, i != x, i, y) == Occupants(b, RowOthers(y, x, i + 1))
  {
    CollectStep(b, RowOthers(y, x, i), (i, y), i != x, acc);
  }

  lemma DiagStep(b: BoardView, x: int, y: int, i: nat, acc: seq<Piece>)
    requires b.WellFormed() && acc == Occupants(b, DiagOthers(x, y, i))
    ensures acc + PieceIf(b, i != x && x == y, i, i) == Occupants(b, DiagOthers(x, y, i + 1))
  {
    CollectStep(b, DiagOthers(x, y, i), (i, i), i != x && x == y, acc);
  }

  lemma AntiStep(b: BoardView, x: int, y: int, n: int, i: nat, acc: seq<Piece>)
    requires b.WellFormed() && acc == Occupants(b, AntiOthers(x, y, n, i))
    ensures acc + PieceIf(b, i != x && x + y == n - 1, i, n - 1 - i) == Occupants(b, AntiOthers(x, y, n, i + 1))
  {
    CollectStep(b, AntiOthers(x, y, n, i), (i, n - 1 - i), i != x && x + y == n - 1, acc);
  }

  /** A line wins when at least n - 1 of its other cells are occupied and those pieces share a value with p. */
  predicate LineWins(b: BoardView, p: Piece, cs: seq<Cell>)
    requires b.WellFormed()
  {
    |Occupants(b, cs)| >= b.xLength - 1 && CheckAllSimilar(Occupants(b, cs), p)
  }

  /** `checkLines` with n = xLength: whether the row, the column or a diagonal through (x, y) wins. */
  predicate CheckLines(b: BoardView, p: Piece, x: int, y: int)
    requires b.WellFormed()
  {
    var n := b.xLength;
    LineWins(b, p, RowOthers(y, x, n)) || LineWins(b, p, ColumnOthers(x, y, n)) ||
    LineWins(b, p, DiagOthers(x, y, n)) || LineWins(b, p, AntiOthers(x, y, n, n))
  }

  /** `checkLines`'s final loop over the four collected lists: row, column and the two diagonals. */
  lemma AnyLineWins(b: BoardView, p: Piece, x: int, y: int, lines: seq<seq<Piece>>)
    requires b.WellFormed()
    requires var n := b.xLength;
      lines == [Occupants(b, RowOthers(y, x, n)), Occupants(b, ColumnOthers(x, y, n)),
                Occupants(b, DiagOthers(x, y, n)), Occupants(b, AntiOthers(x, y, n, n))]
    ensures CheckLines(b, p, x, y) <==>
      exists j :: 0 <= j < |lines| && |lines[j]| >= b.xLength - 1 && CheckAllSimilar(lines[j], p)
  {
    var n := b.xLength;
    if CheckLines(b, p, x, y) {
      if LineWins(b, p, RowOthers(y, x, n)) {
        assert |lines[0]| >= n - 1 && CheckAllSimilar(lines[0], p);
      } else if LineWins(b, p, ColumnOthers(x, y, n)) {
        assert |lines[1]| >= n - 1 && CheckAllSimilar(lines[1], p);
      } else if LineWins(b, p, DiagOthers(x, y, n)) {
        assert |lines[2]| >= n - 1 && CheckAllSimilar(lines[2], p);
      } else {
        assert |lines[3]| >= n - 1 && CheckAllSimilar(lines[3], p);
      }
    }
  }

  // ---- Meaning of CheckLines ----

  /** Every cell of `cs` holds a piece. */
  predicate AllOccupied(b: BoardView, cs: seq<Cell>)
    requires b.WellFormed()
  {
    forall i :: 0 <= i < |cs| ==> b.HasPiece(cs[i].0, cs[i].1)
  }

  /**
   * The other cells of a line are all occupied, there is at least one,
   * and some value of p is carried by every piece on them.
   */
  predicate Completes(b: BoardView, p: Piece, cs: seq<Cell>)
    requires b.WellFormed()
  {
    |cs| > 0 && AllOccupied(b, cs) &&
    exists a :: a in p.atts && forall i :: 0 <= i < |cs| ==> a in b.Get(cs[i].0, cs[i].1).value.atts
  }

  lemma {:induction false} OccupantsOfFullLine(b: BoardView, cs: seq<Cell>)
    requires b.WellFormed()
    ensures |Occupants(b, cs)| <= |cs|
    ensures |Occupants(b, cs)| == |cs| <==> AllOccupied(b, cs)
    ensures AllOccupied(b, cs) ==>
      forall i :: 0 <= i < |cs| ==> Occupants(b, cs)[i] == b.Get(cs[i].0, cs[i].1).value
  {
    if |cs| > 0 {
      var front := cs[..|cs| - 1];
      OccupantsOfFullLine(b, front);
      if AllOccupied(b, cs) {
        assert AllOccupied(b, front) by {
          forall i | 0 <= i < |front| ensures b.HasPiece(front[i].0, front[i].1) {
            assert front[i] == cs[i];
          }
        }
      } else if AllOccupied(b, front) {
        var c := cs[|cs| - 1];
        assert !b.HasPiece(c.0, c.1) by {
          forall i | 0 <= i < |cs| - 1 ensures b.HasPiece(cs[i].0, cs[i].1) {
            assert front[i] == cs[i];
          }
        }
      }
    }
  }

  /** For a line of n - 1 other cells (or none), `LineWins` is `Completes`. */
  lemma LineWinsMeaning(b: BoardView, p: Piece, cs: seq<Cell>)
    requires b.WellFormed() && (|cs| == b.xLength - 1 || |cs| == 0)
    ensures LineWins(b, p, cs) <==> Completes(b, p, cs)
  {
    OccupantsOfFullLine(b, cs);
    var occ := Occupants(b, cs);
    if LineWins(b, p, cs) {
      assert |occ| == |cs|;
      var a :| a in Common(p.atts, occ);
      assert forall i :: 0 <= i < |cs| ==> a in b.Get(cs[i].0, cs[i].1).value.atts by {
        forall i | 0 <= i < |cs| ensures a in b.Get(cs[i].0, cs[i].1).value.atts {
          assert a in occ[i].atts;
        }
      }
    }
    if Completes(b, p, cs) {
      var a :| a in p.atts && forall i :: 0 <= i < |cs| ==> a in b.Get(cs[i].0, cs[i].1).value.atts;
      assert forall i :: 0 <= i < |occ| ==> a in occ[i].atts;
      assert a in Common(p.atts, occ);
    }
  }

  lemma {:induction false} ColumnOthersShape(x: int, skip: int, k: nat)
    requires 0 <= skip
    ensures |ColumnOthers(x, skip, k)| == if skip < k then k - 1 else k
    ensures forall c :: c in ColumnOthers(x, skip, k) <==> c.0 == x && 0 <= c.1 < k && c.1 != skip
  {
    if k > 0 { ColumnOthersShape(x, skip, k - 1); }
  }

  lemma {:induction false} RowOthersShape(y: int, skip: int, k: nat)
    requires 0 <= skip
    ensures |RowOthers(y, skip, k)| == if skip < k then k - 1 else k
    ensures forall c :: c in RowOthers(y, skip, k) <==> c.1 == y && 0 <= c.0 < k && c.0 != skip
  {
    if k > 0 { RowOthersShape(y, skip, k - 1); }
  }

  lemma {:induction false} DiagOthersShape(x: int, y: int, k: nat)
    requires 0 <= x
    ensures |DiagOthers(x, y, k)| == if x != y then 0 else if x < k then k - 1 else k
    ensures forall c :: c in DiagOthers(x, y, k) <==> x == y && c.0 == c.1 && 0 <= c.0 < k && c.0 != x
  {
    if k > 0 { DiagOthersShape(x, y, k - 1); }
  }

  lemma {:induction false} AntiOthersShape(x: int, y: int, n: int, k: nat)
    requires 0 <= x
    ensures |AntiOthers(x, y, n, k)| == if x + y != n - 1 then 0 else if x < k then k - 1 else k
    ensures forall c :: c in AntiOthers(x, y, n, k) <==>
      x + y == n - 1 && c.0 + c.1 == n - 1 && 0 <= c.0 < k && c.0 != x
  {
    if k > 0 { AntiOthersShape(x, y, n, k - 1); }
  }

  /**
   * On a square board, for a cell on the board: `checkLines` holds iff the
   * row, the column, or a diagonal through (x, y) has all its other cells
   * occupied by pieces that share a value with p. Which cells these are is
   * spelled out by the four Shape lemmas above.
   */
  lemma CheckLinesMeaning(b: BoardView, p: Piece, x: int, y: int)
    requires b.WellFormed() && b.xLength == b.yLength && b.IsValid(x, y)
    ensures CheckLines(b, p, x, y) <==>
      Completes(b, p, RowOthers(y, x, b.xLength)) || Completes(b, p, ColumnOthers(x, y, b.xLength)) ||
      Completes(b, p, DiagOthers(x, y, b.xLength)) || Completes(b, p, AntiOthers(x, y, b.xLength, b.xLength))
  {
    var n := b.xLength;
    RowOthersShape(y, x, n);
    ColumnOthersShape(x, y, n);
    DiagOthersShape(x, y, n);
    AntiOthersShape(x, y, n, n);
    LineWinsMeaning(b, p, RowOthers(y, x, n));
    LineWinsMeaning(b, p, ColumnOthers(x, y, n));
    LineWinsMeaning(b, p, DiagOthers(x, y, n));
    LineWinsMeaning(b, p, AntiOthers(x, y, n, n));
  }

  /** Filling a cell that is not in `cs` leaves the pieces on `cs` as they were. */
  lemma {:induction false} OccupantsAway(b: BoardView, cs: seq<Cell>, piece: Option<Piece>, x: int, y: int)
    requires b.WellFormed() && (x, y) !in cs
    ensures Occupants(b.Put(piece, x, y), cs) == Occupants(b, cs)
  {
    if |cs| > 0 {
      var front, c := cs[..|cs| - 1], cs[|cs| - 1];
      assert forall d :: d in front ==> d in cs;
      OccupantsAway(b, front, piece, x, y);
      if b.IsValid(x, y) {
        PutThenGet(b, piece, x, y);
      } else {
        OffBoardIgnored(b, piece, x, y);
      }
      OccupiedOrOpen(b, c.0, c.1);
      OccupiedOrOpen(b.Put(piece, x, y), c.0, c.1);
    }
  }

  /** A line that does not contain (x, y) wins or not whatever is put at (x, y). */
  lemma LineWinsAway(b: BoardView, p: Piece, cs: seq<Cell>, piece: Option<Piece>, x: int, y: int)
    requires b.WellFormed() && (x, y) !in cs
    ensures LineWins(b.Put(piece, x, y), p, cs) == LineWins(b, p, cs)
  {
    OccupantsAway(b, cs, piece, x, y);
  }

  /**
   * `checkLines` at (x, y) never looks at (x, y) itself, so it gives the same
   * answer before and after the piece is put there.
   */
  lemma CheckLinesIgnoresOwnCell(b: BoardView, p: Piece, piece: Option<Piece>, x: int, y: int)
    requires b.WellFormed()
    ensures CheckLines(b.Put(piece, x, y), p, x, y) == CheckLines(b, p, x, y)
  {
    if b.IsValid(x, y) {
      var n := b.xLength;
      assert (x, y) !in RowOthers(y, x, n) by { RowOthersShape(y, x, n); }
      assert (x, y) !in ColumnOthers(x, y, n) by { ColumnOthersShape(x, y, n); }
      assert (x, y) !in DiagOthers(x, y, n) by { DiagOthersShape(x, y, n); }
      assert (x, y) !in AntiOthers(x, y, n, n) by { AntiOthersShape(x, y, n, n); }
      LineWinsAway(b, p, RowOthers(y, x, n), piece, x, y);
      LineWinsAway(b, p, ColumnOthers(x, y, n), piece, x, y);
      LineWinsAway(b, p, DiagOthers(x, y, n), piece, x, y);
      LineWinsAway(b, p, AntiOthers(x, y, n, n), piece, x, y);
    } else {
      OffBoardIgnored(b, piece, x, y);
    }
  }
}
