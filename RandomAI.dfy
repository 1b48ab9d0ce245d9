/**
 * The random strategy (model/Game/GameAI/RandomAI.java): some open cell and
 * some free piece. The model makes both choices arbitrary (`:|`); how
 * `java.util.Random` distributes them is not modelled.
 */
module RandomAI {
  import opened Wrappers
  import opened Pieces
  import opened Boards
  import opened Lines
  import opened Rules
  import opened Games
  import opened GameAI

  /** The `freeSqrs` list: the open cells, row by row. */
  method FreeSquares(g: Game) returns (freeSqrs: seq<Cell>)
    requires g.Valid()
    ensures freeSqrs == OpenByRows(g.State().board, g.Dim())
  {
    ghost var b := g.State().board;
    var n := g.Dim();
    freeSqrs := [];
    for j := 0 to n
      invariant freeSqrs == OpenByRows(b, j)
    {
      var row := OpenCellsOfRow(g, j);
      freeSqrs := freeSqrs + row;
    }
  }

  /** The inner loop of that scan: the open cells of row j. */
  method OpenCellsOfRow(g: Game, j: int) returns (r: seq<Cell>)
    requires g.Valid()
    ensures r == OpenInRow(g.State().board, j, g.Dim())
  {
    ghost var b := g.State().board;
    var n := g.Dim();
    r := [];
    for i := 0 to n
      invariant r == OpenInRow(b, j, i)
    {
      if g.IsOpen(i, j) {
        r := r + [(i, j)];
      }
    }
  }

  /** `genMove`: an open cell if there is one, otherwise (-1, -1); a free piece if there is one. */
  method GenMove(g: Game) returns (m: Move)
    requires g.Valid()
    ensures var b := g.State().board;
      if exists x, y :: b.IsOpen(x, y) then b.IsOpen(m.x, m.y) else m.x == -1 && m.y == -1
    ensures m.placed.None?
    ensures m.picked.None? <==> |g.frees| == 0
    ensures m.picked.Some? ==> m.picked.value in g.frees
  {
    ghost var b := g.State().board;
    var freeSqrs := FreeSquares(g);
    OpenByRowsMembers(b, g.Dim());
    var mvX, mvY := -1, -1;
    if |freeSqrs| > 0 {
      var k :| 0 <= k < |freeSqrs|;
      mvX, mvY := freeSqrs[k].0, freeSqrs[k].1;
      assert freeSqrs[k] in freeSqrs;
    } else {
      forall x, y ensures !b.IsOpen(x, y) {
        assert (x, y) !in freeSqrs;
      }
    }
    var frees := g.frees;
    var pick: Option<Piece> := None;
    if |frees| > 0 {
      var k :| 0 <= k < |frees|;
      pick := Some(frees[k]);
    }
    m := Move(None, mvX, mvY, pick);
  }
}
