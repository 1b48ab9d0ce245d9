/** The simplest strategy (model/Game/GameAI/FirstAI.java): first open cell, first free piece. */
module FirstAI {
  import opened Wrappers
  import opened Pieces
  import opened Boards
  import opened Rules
  import opened Games
  import opened GameAI

  /** (x, y) is open and no open cell comes before it row by row. */
  ghost predicate FirstOpen(b: BoardView, x: int, y: int)
    requires b.WellFormed()
  {
    b.IsOpen(x, y) && forall x', y' :: RowMajorBefore(x', y', x, y) ==> !b.IsOpen(x', y')
  }

  /**
   * `genMove`: the nested scans stop at the first open cell, row by row;
   * (-1, -1) when the board is full. The pick is the first free piece.
   */
  method GenMove(g: Game) returns (m: Move)
    requires g.Valid()
    ensures var b := g.State().board;
      if exists x, y :: b.IsOpen(x, y) then FirstOpen(b, m.x, m.y) else m.x == -1 && m.y == -1
    ensures m.placed.None?
    ensures m.picked == if |g.frees| == 0 then None else Some(g.frees[0])
  {
    ghost var b := g.State().board;
    var n := g.Dim();
    var mvX, mvY := -1, -1;
    var j := 0;
    while j < n && mvY < 0
      invariant 0 <= j <= n
      invariant mvY < 0 ==> mvX == -1 && mvY == -1 && forall x', y' :: y' < j ==> !b.IsOpen(x', y')
      invariant mvY >= 0 ==> FirstOpen(b, mvX, mvY)
    {
      var i := 0;
      while i < n && mvX < 0
        invariant 0 <= i <= n
        invariant mvX < 0 ==> mvX == -1 && mvY == -1 && forall x' :: x' < i ==> !b.IsOpen(x', j)
        invariant mvX >= 0 ==> mvY == j && FirstOpen(b, mvX, mvY)
      {
        if g.IsOpen(i, j) {
          mvX, mvY := i, j;
        }
        i := i + 1;
      }
      j := j + 1;
    }
    var pick := if |g.frees| == 0 then None else Some(g.frees[0]);
    m := Move(None, mvX, mvY, pick);
  }
}
