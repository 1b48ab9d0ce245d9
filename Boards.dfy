/**
 * The game board (model/Board.java): a grid of optional pieces whose
 * `put`, `remove` and `get` ignore coordinates off the board.
 * `BoardView` is the board's contents as a value; class `Board` keeps the
 * cells in a two-dimensional array and mirrors them in a ghost `BoardView`.
 */
module Boards {
  import opened Wrappers
  import opened Pieces

  /** Board contents as a value: `cells[x][y]` is the cell at column x, row y. */
  datatype BoardView = BoardView(xLength: int, yLength: int, cells: seq<seq<Option<Piece>>>)
  {
    ghost predicate WellFormed()
    {
      xLength > 0 && yLength > 0 && |cells| == xLength &&
      forall x :: 0 <= x < xLength ==> |cells[x]| == yLength
    }

    predicate IsValid(x: int, y: int)
    {
      0 <= x < xLength && 0 <= y < yLength
    }

    function Get(x: int, y: int): Option<Piece>
      requires WellFormed()
    {
      if IsValid(x, y) then cells[x][y] else None
    }

    predicate HasPiece(x: int, y: int)
      requires WellFormed()
    {
      IsValid(x, y) && cells[x][y].Some?
    }

    predicate IsOpen(x: int, y: int)
      requires WellFormed()
    {
      IsValid(x, y) && cells[x][y].None?
    }

    function Put(piece: Option<Piece>, x: int, y: int): (b: BoardView)
      requires WellFormed()
      ensures b.WellFormed() && b.xLength == xLength && b.yLength == yLength
    {
      if IsValid(x, y) then BoardView(xLength, yLength, cells[x := cells[x][y := piece]]) else this
    }

    function Remove(x: int, y: int): (b: BoardView)
      requires WellFormed()
      ensures b.WellFormed() && b.xLength == xLength && b.yLength == yLength
    {
      Put(None, x, y)
    }
  }

  /** A board of the given size with every cell empty. */
  function Empty(xLength: int, yLength: int): (b: BoardView)
    requires xLength > 0 && yLength > 0
    ensures b.WellFormed() && b.xLength == xLength && b.yLength == yLength
    ensures forall x, y :: b.IsValid(x, y) ==> b.IsOpen(x, y)
  {
    BoardView(xLength, yLength, seq(xLength, x => seq(yLength, y => None)))
  }

  /** `put` at a valid cell stores the piece there and leaves every other cell alone. */
  lemma PutThenGet(b: BoardView, piece: Option<Piece>, x: int, y: int)
    requires b.WellFormed() && b.IsValid(x, y)
    ensures b.Put(piece, x, y).Get(x, y) == piece
    ensures forall i, j :: (i, j) != (x, y) ==> b.Put(piece, x, y).Get(i, j) == b.Get(i, j)
  {
  }

  /** Off the board, `put` and `remove` change nothing and `get` finds nothing. */
  lemma OffBoardIgnored(b: BoardView, piece: Option<Piece>, x: int, y: int)
    requires b.WellFormed() && !b.IsValid(x, y)
    ensures b.Put(piece, x, y) == b && b.Remove(x, y) == b
    ensures b.Get(x, y).None? && !b.HasPiece(x, y) && !b.IsOpen(x, y)
  {
  }

  /** `remove` at a valid cell opens it. */
  lemma RemoveOpens(b: BoardView, x: int, y: int)
    requires b.WellFormed() && b.IsValid(x, y)
    ensures !b.Remove(x, y).HasPiece(x, y) && b.Remove(x, y).IsOpen(x, y)
  {
  }

  /** On the board a cell is either occupied or open; off it, neither. */
  lemma OccupiedOrOpen(b: BoardView, x: int, y: int)
    requires b.WellFormed()
    ensures b.IsValid(x, y) ==> (b.HasPiece(x, y) <==> !b.IsOpen(x, y))
    ensures !b.IsValid(x, y) ==> !b.HasPiece(x, y) && !b.IsOpen(x, y)
    ensures b.HasPiece(x, y) <==> b.Get(x, y).Some?
  {
  }

  /** Putting a piece into an open cell and removing it again restores the board. */
  lemma PutThenRemove(b: BoardView, piece: Option<Piece>, x: int, y: int)
    requires b.WellFormed() && b.IsOpen(x, y)
    ensures b.Put(piece, x, y).Remove(x, y) == b
  {
    assert b.cells[x][y := piece][y := None] == b.cells[x];
    assert b.cells[x := b.cells[x][y := piece]][x := b.cells[x]] == b.cells;
  }

  /** Removing from a cell that holds no piece (open or off the board) changes nothing. */
  lemma RemoveUnoccupied(b: BoardView, x: int, y: int)
    requires b.WellFormed() && !b.HasPiece(x, y)
    ensures b.Remove(x, y) == b
  {
    if b.IsValid(x, y) {
      assert b.cells[x][y := None] == b.cells[x];
      assert b.cells[x := b.cells[x]] == b.cells;
    }
  }

  class Board {
    const xLength: int
    const yLength: int
    const cells: array2<Option<Piece>>
    ghost var contents: seq<seq<Option<Piece>>>

    ghost predicate Valid()
      reads this, cells
    {
      View().WellFormed() && cells.Length0 == xLength && cells.Length1 == yLength &&
      forall x, y :: 0 <= x < xLength && 0 <= y < yLength ==> contents[x][y] == cells[x, y]
    }

    ghost function View(): BoardView
      reads this
    {
      BoardView(xLength, yLength, contents)
    }

    /** A board of the given size, or 4 by 4 if either size is not positive; all cells empty. */
    constructor (xLen: int, yLen: int)
      ensures Valid() && fresh(cells)
      ensures if xLen <= 0 || yLen <= 0 then xLength == 4 && yLength == 4
              else xLength == xLen && yLength == yLen
      ensures View() == Empty(xLength, yLength)
    {
      var xl, yl := xLen, yLen;
      if xl <= 0 || yl <= 0 {
        xl, yl := 4, 4;
      }
      xLength, yLength := xl, yl;
      cells := new Option<Piece>[xl, yl]((x, y) => None);
      contents := Empty(xl, yl).cells;
    }

    predicate IsValid(x: int, y: int)
    {
      (x >= 0) && (x < xLength) && (y >= 0) && (y < yLength)
    }

    function Get(x: int, y: int): (r: Option<Piece>)
      reads this, cells
      requires Valid()
      ensures r == View().Get(x, y)
    {
      if IsValid(x, y) then cells[x, y] else None
    }

    method Put(piece: Option<Piece>, x: int, y: int)
      requires Valid()
      modifies this, cells
      ensures Valid()
      ensures View() == old(View()).Put(piece, x, y)
    {
      if IsValid(x, y) {
        cells[x, y] := piece;
        contents := contents[x := contents[x][y := piece]];
      }
    }

    method Remove(x: int, y: int)
      requires Valid()
      modifies this, cells
      ensures Valid()
      ensures View() == old(View()).Remove(x, y)
    {
      if IsValid(x, y) {
        cells[x, y] := None;
        contents := contents[x := contents[x][y := None]];
      }
    }

    predicate HasPiece(x: int, y: int)
      reads this, cells
      requires Valid()
      ensures HasPiece(x, y) == View().HasPiece(x, y)
    {
      IsValid(x, y) && cells[x, y].Some?
    }

    predicate IsOpen(x: int, y: int)
      reads this, cells
      requires Valid()
      ensures IsOpen(x, y) == View().IsOpen(x, y)
    {
      IsValid(x, y) && cells[x, y].None?
    }
  }
}
