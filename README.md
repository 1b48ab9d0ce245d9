# Quarto rules engine and AI players in Dafny

This project models the rules engine of a generalised Quarto game and the
move generators of its computer players.

In Quarto, two players place pieces on an n-by-n board. A player places the
piece the opponent picked for them, then picks a free piece for the
opponent. A line (row, column or diagonal) that fills with pieces sharing
some attribute value wins. Each piece carries one value of each of the
game's attributes. Standard Quarto has four attributes, 16 pieces and a 4×4
board; adding a fifth attribute gives 32 pieces and a 5×5 board.

The modules follow the classes of the program:

- `Attributes`: attributes, their value pairs and the six predefined
  attributes.
- `Pieces`: a piece is a value code and a set of attribute values. It is
  built from a bit array (the code, MSB first, wrapped to 32 bits) or from
  a list of attributes.
- `Boards`: a board is a `BoardView` value, plus a class `Board` over a
  2-D array that is proved to mirror it. Out-of-range coordinates are
  ignored.
- `Lines`: win detection on the lines through a cell.
- `Rules`: the game as a state machine over immutable `GameState`
  values. It covers `makeMove` (first, last and normal moves, rejection),
  `undoTurn`, `updateState`, `winner` and the piece queries.
- `Games`: class `Game` with the same fields. Its methods change them in
  place and are proved equal to the `Rules` functions. It also holds the
  two `Quarto` constructors and `addAttr`.
- `Setup`: the enumeration of all 2^k pieces by `genPieces`.
- `Keys`: the position key `boardState`.
- `GameAI`, `FirstAI`, `RandomAI`, `NormalAI` and `HardAI`: the computer
  players. `HardAI` is negamax with alpha-beta pruning and a transposition
  table. It plays and takes back moves on the live game, and is proved
  equal to the value-level functions `Search` and `Root`. `SearchFacts`
  proves score bounds and the choice rule of `bestMove`.
- `CorrectedSearch`: the same search with the corrected undo of the
  findings below. It hands the game back at any depth, and it agrees
  with `HardAI`'s search wherever that one hands the game back.
- `Transpositions`: the transposition table.
- `Turns`: `runTurn`, which dispatches to the strategy of the player to
  move.

Random choices (`java.util.Random`) are modelled as an arbitrary member of
the candidate set. Each `GameAI` object in the `cpu` slots is modelled by
its kind (`Games.Strength`). The one `HardAI` instance, with its table, is
passed to the turn explicitly.

## Model

| member | source | states |
|---|---|---|
| Attributes.GetAtt | src/main/java/model/Attribute.java:41-46 | a value is returned exactly for attNum 0 or 1; for a valid attribute it is att0 for 0 and att1 for 1; any other number gives none |
| Attributes.EqualsIsSamePair | src/main/java/model/Attribute.java:54-64 | `equals` holds exactly when the two attributes have the same unordered pair of values |
| Attributes.EqualsIsEquivalence | src/main/java/model/Attribute.java:54-64 | `equals` is reflexive, symmetric and transitive, and false for null |
| Attributes.HashCodeConsistent | src/main/java/model/Attribute.java:48-52 | equal attributes have equal hash codes |
| Attributes.PredefinedAreValidAndDisjoint | src/main/java/model/Attribute.java:69-74 | each of the six predefined attributes has two different values; no two of them share a value, and they are distinct objects |
| Pieces.Wrap32 | src/main/java/model/Piece.java:26-29 | Java `int` arithmetic: the result lies in the 32-bit range and equals the input when that is already in range |
| Pieces.CodeLoop | src/main/java/model/Piece.java:26-29 | the MSB-first loop `val = val*2 + bit` yields the binary number of the bits, wrapped to 32 bits |
| Pieces.BinaryBounds | src/main/java/model/Piece.java:21-31 | the code of k bits lies in [0, 2^k); with at most 31 bits no wrap-around happens |
| Pieces.BinaryInjective | src/main/java/model/Piece.java:21-31 | two bit arrays of the same length with the same code are equal |
| Pieces.FromBinary | src/main/java/model/Piece.java:21-31 | the piece carries no values; its code is -1 for a null array and otherwise the wrapped binary number |
| Pieces.AddAtt | src/main/java/model/Piece.java:45-50 | the code is unchanged and at most one value is added. A value is added exactly when the attribute is present, attNum is 0 or 1, and neither of the attribute's values is carried yet. The added value is the selected one, and a valid attribute never ends up with both values |
| Pieces.FromAttributes | src/main/java/model/Piece.java:33-38 | the piece is the fold of `addAtt` over the attributes with the values `attVals` selects; its values are described by `Pieces.BuiltIsSelection` and its code by `Setup.BuiltKeepsValue` |
| Pieces.BuiltIsSelection | src/main/java/model/Piece.java:33-38 | with pairwise-disjoint attributes, the values carried are exactly those that `attVals` selects |
| Pieces.SelectionSize | src/main/java/model/Piece.java:33-38 | a piece built from k disjoint attributes carries exactly k values |
| Pieces.OneValuePerAttribute | src/main/java/model/Piece.java:33-38 | of each attribute the piece carries exactly one value, the one `attVals[i]` selects |
| Pieces.AllCarried | src/main/java/model/Piece.java:67-73 | true exactly when every listed value is carried |
| Pieces.HasAtts | src/main/java/model/Piece.java:67-73 | false for a null or empty array; otherwise true exactly when every listed value is carried |
| Pieces.SimilarityLaws | src/main/java/model/Piece.java:89-112 | `isSimilar` is reflexive and symmetric and false for null. `countShared` is -1 for null, symmetric, and at most the piece's number of values. Two pieces are similar exactly when they share a value or both carry none |
| Boards.Empty | src/main/java/model/Board.java:20-27 | a board of the given size on which every valid cell is open |
| Boards.PutThenGet | src/main/java/model/Board.java:46-61 | after `put` at a valid cell, `get` there returns the piece and every other cell is unchanged |
| Boards.OffBoardIgnored | src/main/java/model/Board.java:46-93 | at invalid coordinates `put` and `remove` change nothing, `get` returns null, and neither `hasPiece` nor `isOpen` holds |
| Boards.RemoveOpens | src/main/java/model/Board.java:68-93 | after `remove` at a valid cell that cell holds no piece and is open |
| Boards.OccupiedOrOpen | src/main/java/model/Board.java:79-93 | on a valid cell exactly one of `hasPiece` and `isOpen` holds; off the board neither does; `hasPiece` means `get` is non-null |
| Boards.PutThenRemove | src/main/java/model/Board.java:57-71 | putting a piece on an open cell and removing it gives back the same board |
| Boards.RemoveUnoccupied | src/main/java/model/Board.java:68-71 | removing from a cell without a piece changes nothing |
| Boards.Board.constructor | src/main/java/model/Board.java:20-27 | a size that is not positive in either dimension gives 4×4, otherwise the given size; all cells empty |
| Boards.Board.Get | src/main/java/model/Board.java:46-50 | reads the array cell the board value describes, null off the board |
| Boards.Board.Put | src/main/java/model/Board.java:57-61 | the array afterwards is described by `BoardView.Put` of the board before |
| Boards.Board.Remove | src/main/java/model/Board.java:68-71 | the array afterwards is described by `BoardView.Remove` of the board before |
| Boards.Board.HasPiece | src/main/java/model/Board.java:79-82 | agrees with the board value's `HasPiece` |
| Boards.Board.IsOpen | src/main/java/model/Board.java:90-93 | agrees with the board value's `IsOpen` |
| Lines.Common | src/main/java/model/Game/Game.java:362-368 | the values of the starting set that every listed piece also carries (the `retainAll` loop) |
| Lines.OccupantsOfFullLine | src/main/java/model/Game/Game.java:385-394 | the collected pieces of a line are at most its cells; there are as many as cells exactly when every cell is occupied, and then they are those cells' pieces in order |
| Lines.ColumnOthersShape | src/main/java/model/Game/Game.java:385-394 | the cells visited in the column of (x, y): every cell of column x except row y |
| Lines.RowOthersShape | src/main/java/model/Game/Game.java:385-394 | the cells visited in the row: every cell of row y except column x |
| Lines.DiagOthersShape | src/main/java/model/Game/Game.java:385-394 | the main diagonal except (x, y), and nothing when (x, y) is not on it |
| Lines.AntiOthersShape | src/main/java/model/Game/Game.java:385-394 | the anti-diagonal except (x, y), and nothing when (x, y) is not on it |
| Lines.AnyLineWins | src/main/java/model/Game/Game.java:377-401 | `checkLines` holds exactly when one of the four collected lists has at least n-1 pieces that share a value with p |
| Lines.LineWinsMeaning | src/main/java/model/Game/Game.java:397-400 | a line's test holds exactly when every other cell of the line is occupied and the pieces there, with p, share a value |
| Lines.CheckLinesMeaning | src/main/java/model/Game/Game.java:377-401 | for a cell on the board, `checkLines` holds exactly when its row, its column, or a diagonal through it is otherwise full of pieces sharing a value with p |
| Lines.CheckLinesIgnoresOwnCell | src/main/java/model/Game/Game.java:377-401 | the answer does not depend on what occupies (x, y) itself, so testing before placing (as `findWin` does) and after placing (as `makeMove` does) agree |
| Rules.RemoveFirst | src/main/java/model/Game/Game.java:179-184 | `List.remove(Object)`: one occurrence of the piece is removed, leaving the list unchanged when it is absent |
| Rules.RemoveFirstIsFirstOccurrence | src/main/java/model/Game/Game.java:179-184 | `List.remove(Object)` takes out the first occurrence: the result is the list without the element at the first index that holds the piece |
| Rules.RemoveFirstOfAppended | src/main/java/model/Game/Game.java:128-139 | removing a piece that an undo appended, when it was not already there, gives the list back |
| Rules.FindPieces | src/main/java/model/Game/Game.java:259-265 | at most as many pieces as are free; which ones, and in what order, is stated by the three lemmas below |
| Rules.FindPiecesCounts | src/main/java/model/Game/Game.java:259-265 | each free piece occurs in the result as often as in `frees` when it carries every listed value, and otherwise not at all |
| Rules.FindPiecesKeepsOrder | src/main/java/model/Game/Game.java:259-265 | the result is taken from `frees` at strictly increasing positions, and a position is taken exactly when its piece carries every listed value: the loop's filter, in `frees` order |
| Rules.FindPiecesAppend | src/main/java/model/Game/Game.java:259-265 | the pieces found in two lists one after the other are those found in the first, then those found in the second |
| Rules.FindSimilarPieces | src/main/java/model/Game/Game.java:272-278 | at most as many pieces as are free; which ones, and in what order, is stated by the two lemmas below |
| Rules.FindSimilarPiecesCounts | src/main/java/model/Game/Game.java:272-278 | each free piece occurs in the result as often as in `frees` when it is similar to the given piece, and otherwise not at all |
| Rules.FindSimilarPiecesKeepsOrder | src/main/java/model/Game/Game.java:272-278 | the result is taken from `frees` at strictly increasing positions, and a position is taken exactly when its piece is similar to the given one |
| Rules.MakeMoveRecords | src/main/java/model/Game/Game.java:71-90 | a move that is not a first, last or normal move, or any move once the game is over, changes nothing. An accepted move appends exactly one history entry, and the history changes exactly when the move is accepted |
| Rules.MakeMovePlaces | src/main/java/model/Game/Game.java:71-90 | an accepted move puts the old `nextPick` on the open target cell, leaves every other cell unchanged and appends that piece to `actives`; a first move places nothing. The record of a first move has x = y = -1, and that of a last move picks nothing |
| Rules.MakeMoveOutcome | src/main/java/model/Game/Game.java:84-90 | an accepted move flips the turn. The game is over exactly when an unforced move completed a line or the board filled, and drawn exactly when it filled without a win. `winner` is then the mover on a win, -2 on a draw, -1 while play goes on |
| Rules.ConsistentFacts | src/main/java/model/Game/Game.java:222-225 | when every piece is held in one place, the free, active and next pieces are disjoint and `isFree` means being in `frees` |
| Rules.MakeMoveLists | src/main/java/model/Game/Game.java:168-184 | an accepted move adds the old `nextPick` to `actives`. A last move keeps `nextPick` and `frees`; any other move picks a free piece, which becomes `nextPick` and leaves `frees` |
| Rules.MakeMoveConserves | src/main/java/model/Game/Game.java:71-90 | a move other than the last keeps the multiset of all pieces and keeps each piece in one place; the last move counts the placed piece twice, because it stays `nextPick` |
| Rules.UndoRefuses | src/main/java/model/Game/Game.java:128-139 | `undoTurn` returns null and changes nothing exactly when the history is empty, or the game is over and the undo is not forced; otherwise it returns the last move and pops it |
| Rules.UndoRestores | src/main/java/model/Game/Game.java:128-139 | a forced undo after an accepted forced move that does not end the game gives back the move. It restores every field except the order of `frees`: the picked piece returns at the end, so the multiset of `frees` is restored |
| Rules.UndoRestoresUnforced | src/main/java/model/Game/Game.java:128-139 | in a running game with an open cell, undoing with force an accepted unforced move that leaves the game running gives back the move and every field; a picked piece leaves its place in `frees` and returns at the end |
| Rules.UndoRestoresAnyOrder | src/main/java/model/Game/Game.java:128-139 | the same restoration holds when `frees` was reordered in between |
| Rules.UndoFreeOrder | src/main/java/model/Game/Game.java:128-139 | undo appends the current `nextPick` to whatever `frees` is, and does nothing else to it |
| Rules.UndoAfterLastMove | src/main/java/model/Game/Game.java:128-139 | after the forced last move, undo restores the board, `actives` and `nextPick`, but appends the placed piece to `frees` a second time and leaves `gameover` and `draw` set |
| Rules.UndoCorrectedRestores | src/main/java/model/Game/Game.java:128-139 | the corrected undo (see Findings) takes back every accepted move, forced or not, including a win and the move that fills the board: the move comes back and the state is restored up to the order of `frees` |
| Rules.UndoCorrectedAnyOrder | src/main/java/model/Game/Game.java:128-139 | the same when the free list was reordered after the move, as a search below it does |
| Rules.RunKeepsConsistent | src/main/java/model/Game/Game.java:71-90 | a run of accepted moves that leave the game running keeps every piece in one place and an open cell on the board |
| Rules.UndoLastOfRun | src/main/java/model/Game/Game.java:128-139 | undoing the last move of such a run gives back the state before that move, up to the order of `frees` |
| Rules.RunThenUndoRestores | src/main/java/model/Game/Game.java:128-139 | after any run of `runTurn` moves that leave the game running, as many forced undos give back the starting state: board, `actives`, `nextPick`, turn, flags and history, with the free pieces possibly reordered |
| Games.AddAttr | src/main/java/model/Game/Quarto.java:35-40 | the attribute is appended unless that same object (or null) is already in the list |
| Games.Name | src/main/java/model/Game/Quarto.java:53-58 | "Standard" exactly when there are four attributes; "Custom: " and the fifth attribute's name when there is one; none in the cases where the source throws |
| Games.Game.Standard | src/main/java/model/Game/Quarto.java:12-17 | attributes SIZE, SHAPE, COLOR, TOP, a 4×4 board, no players set, and the fresh game with every generated piece free |
| Games.Game.Custom | src/main/java/model/Game/Quarto.java:23-29 | the default attributes plus the new one unless it is already among them; the board side is the number of attributes |
| Games.Game.SetupPieces | src/main/java/model/Game/Game.java:333-337 | `frees` becomes the full piece pool over the game's attributes; no other field changes |
| Games.Game.GenPieces | src/main/java/model/Game/Game.java:345-355 | appends, in recursion order, the pieces for every setting of the first n entries of `attNums`; the other entries are left as they were |
| Games.Game.GenHalf | src/main/java/model/Game/Game.java:345-355 | one branch of the recursion, with entry n-1 set to the given bit |
| Games.Game.IsFree | src/main/java/model/Game/Game.java:222-225 | agrees with the rules' `isFree` on the game's state |
| Games.Game.IsLastTurn | src/main/java/model/Game/Game.java:231-234 | agrees with the rules' `isLastTurn` |
| Games.Game.IsOpen | src/main/java/model/Game/Game.java:201-204 | agrees with the board's `isOpen` |
| Games.Game.Winner | src/main/java/model/Game/Game.java:294-298 | agrees with the rules' `winner` |
| Games.Game.SetAI | src/main/java/model/Game/Game.java:33-36 | sets player slot 0 or 1 and ignores any other slot number; the game state is unchanged |
| Games.Game.PutPiece | src/main/java/model/Game/Game.java:168-173 | the fields afterwards are the rules' `PutPiece` of the state before |
| Games.Game.PickPiece | src/main/java/model/Game/Game.java:179-184 | the fields afterwards are the rules' `PickPiece` of the state before |
| Games.Game.UpdateState | src/main/java/model/Game/Game.java:154-160 | the fields afterwards are the rules' `UpdateState` of the state before |
| Games.Game.CheckAllSimilar | src/main/java/model/Game/Game.java:362-368 | the loop's answer is false for no pieces, and otherwise whether p and all the pieces share a value |
| Games.Game.CollectLines | src/main/java/model/Game/Game.java:385-394 | the four lists hold the pieces on the other cells of the row, the column and the two diagonals, in order |
| Games.Game.CheckLines | src/main/java/model/Game/Game.java:377-401 | the loop's answer is the line test described by `Lines.CheckLinesMeaning` |
| Games.Game.CheckWin | src/main/java/model/Game/Game.java:46-49 | a non-null piece completes a line at (x, y) |
| Games.Game.MakeMove | src/main/java/model/Game/Game.java:71-90 | the fields afterwards are the rules' `MakeMove` of the state before, whose properties are the `Rules.MakeMove…` lemmas |
| Games.Game.MakeMoveFrom | src/main/java/model/Game/Game.java:97-100 | replays a move's coordinates and pick through `makeMove` |
| Games.Game.UndoTurn | src/main/java/model/Game/Game.java:128-139 | the fields afterwards and the returned move are the rules' `Undo` of the state before |
| Games.Game.FindPieces | src/main/java/model/Game/Game.java:259-265 | returns the rules' `FindPieces` of `frees` |
| Games.Game.FindSimilarPieces | src/main/java/model/Game/Game.java:272-278 | returns the rules' `FindSimilarPieces` of `frees` |
| Games.Game.BoardState | src/main/java/model/Game/Game.java:407-419 | the key is the n·n cell tokens in row-major order, then the `nextPick` token, comma-joined |
| Games.Game.RowState | src/main/java/model/Game/Game.java:411-416 | the text the inner loop adds for one row |
| Setup.Combos | src/main/java/model/Game/Game.java:345-355 | 2^k bit arrays, each of length k |
| Setup.Gen | src/main/java/model/Game/Game.java:345-355 | the recursion below level n makes 2^n pieces |
| Setup.Pool | src/main/java/model/Game/Game.java:333-337 | `setupPieces` makes 2^k pieces for k attributes |
| Setup.GenSplit | src/main/java/model/Game/Game.java:345-355 | every piece with entry n-1 set to 0 comes before every piece with it set to 1 |
| Setup.CombosDistinct | src/main/java/model/Game/Game.java:345-355 | the enumerated bit arrays are pairwise distinct |
| Setup.CombosComplete | src/main/java/model/Game/Game.java:345-355 | every bit array of length k is enumerated |
| Setup.FindPiecesInGen | src/main/java/model/Game/Game.java:345-355 | `findPieces` over the pieces the recursion appends below level n keeps as many as `Matches` counts, level by level |
| Setup.GenMatches | src/main/java/model/Game/Game.java:345-355 | below level n, the pieces carrying the chosen values number 2^(n − j), j being how many of the first n attributes the choice covers, when the fixed bits agree with the choice, and none otherwise |
| Setup.FindPiecesInPool | src/test/java/model/Game/QuartoTest.java:113-160 | in a new game, `findPieces` with j values of j different attributes, in any order, finds 2^(k − j) of the 2^k pieces (8, 4, 2, 1 in standard Quarto) |
| Setup.BuiltKeepsValue | src/main/java/model/Game/Game.java:323-328 | a piece made from `attNums` has the binary code of `attNums` |
| Setup.PoolValues | src/main/java/model/Game/Game.java:333-355 | the piece codes are pairwise distinct and are exactly 0 … 2^k − 1 |
| Setup.PoolAttributeSets | src/main/java/model/Game/Game.java:333-355 | with disjoint attributes, every piece carries k values and no two pieces carry the same values |
| Keys.NatRoundTrip | src/main/java/model/Game/Game.java:407-419 | the decimal text of a number parses back to it |
| Keys.IntToStringInjective | src/main/java/model/Game/Game.java:407-419 | different integers have different decimal texts |
| Keys.TokenInjective | src/main/java/model/Game/Game.java:407-419 | two cell tokens are equal only for equal piece codes, provided neither piece has code 88 |
| Keys.BoardStateInjective | src/main/java/model/Game/Game.java:407-419 | on equal-sized boards without a piece of code 88, equal keys mean equal piece codes in every cell and an equal `nextPick` code |
| Keys.RowTextIsCells | src/main/java/model/Game/Game.java:407-419 | the text built row by row is the row-major prefix of the key |
| Keys.EmptyCellReadsAs88 | src/main/java/model/Game/Game.java:414 | an empty cell is written "88" (the character 'X' promoted to `int`), the same text as a piece with code 88 |
| GameAI.OpenByColumnsMembers | src/main/java/model/Game/GameAI/GameAI.java:42-57 | the cells `genAllMoves` visits (x outer, y inner) are exactly the open cells |
| GameAI.OpenByRowsMembers | src/main/java/model/Game/GameAI/RandomAI.java:18-25 | the cells collected row by row are exactly the open cells |
| GameAI.MovesAtCount | src/main/java/model/Game/GameAI/GameAI.java:42-57 | one move per cell and free piece, or one per cell when nothing is free |
| GameAI.MovesAtMembers | src/main/java/model/Game/GameAI/GameAI.java:42-57 | a move is generated exactly when it places `nextPick` on one of the cells and picks a free piece, or picks nothing when none is free |
| GameAI.AllMovesMeaning | src/main/java/model/Game/GameAI/GameAI.java:42-57 | the generated moves are exactly the `nextPick` onto an open cell with a free (or no) pick, and there are open·max(1, \|frees\|) of them |
| GameAI.GenAllMoves | src/main/java/model/Game/GameAI/GameAI.java:42-57 | the loop yields those moves, x outer, y inner, `frees` order innermost; the game is only read |
| GameAI.FindWin | src/main/java/model/Game/GameAI/GameAI.java:24-34 | null exactly when no open cell wins with `nextPick`. Otherwise the move places `nextPick` on the first winning cell, row by row, and picks a free piece, or nothing when none is free. The game is only read |
| GameAI.RandomFirstMove | src/main/java/model/Game/GameAI/GameAI.java:64-73 | null exactly when `nextPick` is set; otherwise a move placing nothing at (-1, -1) that picks some free piece |
| FirstAI.GenMove | src/main/java/model/Game/GameAI/FirstAI.java:12-24 | the first open cell row by row, or (-1, -1) on a full board; the first free piece or null; places nothing; only reads the game |
| RandomAI.FreeSquares | src/main/java/model/Game/GameAI/RandomAI.java:18-25 | the open cells, row by row |
| RandomAI.GenMove | src/main/java/model/Game/GameAI/RandomAI.java:16-36 | some open cell, or (-1, -1) when none is open; some free piece, null exactly when none is free; places nothing; only reads the game |
| NormalAI.Counts | src/main/java/model/Game/GameAI/NormalAI.java:31-36 | each array entry is the number of values `nextPick` shares with the piece in that cell, -1 for an empty cell |
| NormalAI.ArrayScoreIsSimScore | src/main/java/model/Game/GameAI/NormalAI.java:63-78 | the array sum equals the board score: the counts over the column without row y, the row without column x, and each diagonal through (x, y) without the cell |
| NormalAI.CalcSimScore | src/main/java/model/Game/GameAI/NormalAI.java:63-78 | the loop computes that array sum |
| NormalAI.SimScoreBound | src/main/java/model/Game/GameAI/NormalAI.java:39-51 | on boards up to 5×5 every score is below `Integer.MAX_VALUE`, so the scan always finds a cell when one is open |
| NormalAI.PieceScoreBounds | src/main/java/model/Game/GameAI/NormalAI.java:92-95 | a piece's score lies between 0 and 12 per piece in play |
| NormalAI.PickCounterXY | src/main/java/model/Game/GameAI/NormalAI.java:28-53 | the open cell with the smallest score, the first row by row among equals; (-1, -1) when none is open |
| NormalAI.PieceScoreOf | src/main/java/model/Game/GameAI/NormalAI.java:94-95 | the number of values the free piece shares with the pieces in play, summed |
| NormalAI.PickCounterPiece | src/main/java/model/Game/GameAI/NormalAI.java:86-103 | the first free piece with the smallest score against the active pieces and `nextPick`; null exactly when nothing is free |
| NormalAI.GenMove | src/main/java/model/Game/GameAI/NormalAI.java:12-20 | the opening is a random first move; else the first winning cell with a free pick; else the counter cell and counter piece, placing nothing |
| HardAI.NearCompleteMeaning | src/main/java/model/Game/GameAI/HardAI.java:144-147 | `checkLine` holds exactly when the line has at least n-1 pieces that share a value |
| HardAI.RowsAndColumnsBounds | src/main/java/model/Game/GameAI/HardAI.java:111-136 | the rows and columns counted so far are at most two per index |
| HardAI.NearCompleteLinesBounds | src/main/java/model/Game/GameAI/HardAI.java:111-136 | the number of nearly complete lines lies in [0, 2n+2] |
| HardAI.CountLines | src/main/java/model/Game/GameAI/HardAI.java:111-136 | the loops count the nearly complete rows, columns and diagonals, a number in [0, 2n+2] |
| HardAI.SearchExact | src/main/java/model/Game/GameAI/HardAI.java:79-87 | an exact table entry searched at least as deep is the result, and the game and the table are untouched |
| HardAI.SearchLookup | src/main/java/model/Game/GameAI/HardAI.java:79-87 | otherwise a deep enough UPPER entry raises alpha, a LOWER one lowers beta, and the tree search runs with that window |
| HardAI.ExpandCases | src/main/java/model/Game/GameAI/HardAI.java:89-103 | depth 0 scores turn × nearly complete lines; a finished game scores 1; otherwise the move loop runs and its best score is stored with the flag for the original window |
| HardAI.SearchMovesStep | src/main/java/model/Game/GameAI/HardAI.java:91-100 | one round of the move loop: the child is searched and its score negated; the loop stops once alpha reaches beta, and otherwise goes on from the state the undo left |
| HardAI.RootMovesStep | src/main/java/model/Game/GameAI/HardAI.java:51-61 | one round of the root loop: a score at least the best so far replaces the best move |
| HardAI.HardAI.Negamax | src/main/java/model/Game/GameAI/HardAI.java:76-104 | the score, the game left behind and the table are those of the value-level search `Search` |
| HardAI.HardAI.MoveLoop | src/main/java/model/Game/GameAI/HardAI.java:91-100 | the move loop, played on the live game, computes `SearchMoves` |
| HardAI.HardAI.BestMove | src/main/java/model/Game/GameAI/HardAI.java:41-65 | the move returned, the game left behind and the table are those of `Root`: the table is cleared, then every generated move is scored |
| HardAI.HardAI.GenMove | src/main/java/model/Game/GameAI/HardAI.java:26-33 | the opening is a random first move and a win is taken when one exists, both leaving game and table alone; otherwise `bestMove` with base depth 7 − n |
| SearchFacts.SearchBounds | src/main/java/model/Game/GameAI/HardAI.java:76-104 | every score lies within ±max(10, 2n+2), and is at least `MIN_SCORE` except at a leaf scored for the opponent; the table keeps scores in that range |
| SearchFacts.SearchMovesBounds | src/main/java/model/Game/GameAI/HardAI.java:91-100 | the move loop's best score stays in [MIN_SCORE, max(10, 2n+2)] |
| SearchFacts.SearchRestores | src/main/java/model/Game/GameAI/HardAI.java:76-104 | `negamax`'s make/undo pairs hand back the game it was given, up to the order of `frees`, when the search stays short of the last cell and of the last free piece |
| SearchFacts.RootRestores | src/main/java/model/Game/GameAI/HardAI.java:41-65 | under the same condition for the root move and the levels below, `bestMove` hands the game back, up to the order of `frees` |
| SearchFacts.LastMoveEndsInDraw | src/main/java/model/Game/Game.java:71-90 | on the last turn every generated move, played forced, fills the board and ends the game in a draw |
| SearchFacts.RootMovesAfterFinish | src/main/java/model/Game/GameAI/HardAI.java:51-61 | once a root move ends the game, the root loop leaves it over with that outcome |
| SearchFacts.RootEndsRunningGame | src/main/java/model/Game/GameAI/HardAI.java:41-65 | with one open cell left, `bestMove` leaves a running game over and drawn (see Findings) |
| SearchFacts.LastMaxIsLastMaximum | src/main/java/model/Game/GameAI/HardAI.java:51-61 | the chosen index holds a maximal score, and every later score is strictly smaller |
| SearchFacts.BestMoveChoice | src/main/java/model/Game/GameAI/HardAI.java:41-65 | every generated move is scored. The result is null exactly when there are no moves; otherwise it is a generated move with the highest score, the last to reach it |
| CorrectedSearch.SearchRestores | src/main/java/model/Game/GameAI/HardAI.java:76-104 | with the corrected undo, `negamax` hands back the game it was given, up to the order of `frees`, at any depth, for a game whose pieces can fill its board |
| CorrectedSearch.RootRestores | src/main/java/model/Game/GameAI/HardAI.java:41-65 | with the corrected undo, `bestMove` hands back the running game it was given, up to the order of `frees`, with no depth condition and up to the last open cell |
| CorrectedSearch.LastTurnRestored | src/main/java/model/Game/GameAI/HardAI.java:51-61 | in the case where `bestMove` as written ends a running game (one open cell, `nextPick` set), the corrected one leaves it running and restored |
| CorrectedSearch.RootAgrees | src/main/java/model/Game/GameAI/HardAI.java:41-65 | wherever `bestMove` as written hands the game back, the corrected one returns the same move and scores and leaves the same game and table |
| SearchFacts.DepthBudget | src/main/java/model/Game/GameAI/HardAI.java:48 | the depth grows by 2 for at most 75 moves, 1 for 76 to 150 moves, and 0 above that |
| Transpositions.FlagOf | src/main/java/model/Game/GameAI/TranpositionTable.java:45-48 | UPPER exactly when best ≤ alphaPrior; LOWER exactly when alphaPrior < best and best ≥ beta; EXACT exactly when strictly inside the window |
| Transpositions.TranspositionTable.constructor | src/main/java/model/Game/GameAI/TranpositionTable.java:16 | the table starts empty |
| Transpositions.TranspositionTable.Add | src/main/java/model/Game/GameAI/TranpositionTable.java:43-51 | the entry (best score, depth, flag) replaces whatever was stored under the game's key |
| Transpositions.TranspositionTable.Get | src/main/java/model/Game/GameAI/TranpositionTable.java:58-61 | the entry stored under the game's key, null when there is none |
| Transpositions.TranspositionTable.Clear | src/main/java/model/Game/GameAI/TranpositionTable.java:66-69 | afterwards no key has an entry |
| Turns.WinningMoveWins | src/main/java/model/Game/Game.java:71-90 | placing `nextPick` on a cell where it completes a line, with a legal pick, ends the game won by the player who moved |
| Turns.StrategyWins | src/main/java/model/Game/GameAI/NormalAI.java:14-16 | when `NormalAI` or `HardAI` can complete a line, and a piece is left to pick or the move fills the last cell, its move wins the game |
| Turns.GenMove | src/main/java/model/Game/Game.java:115 | the move generated by the strategy of the player to move; only `HardAI` changes the game or the table |
| Turns.RunTurn | src/main/java/model/Game/Game.java:110-121 | nothing happens once the game is over. A human player's coordinates and pick go to an unforced `makeMove`, and so does the move the strategy generates for a computer player. A `NormalAI` or `HardAI` player who can win does win, on the last cell too |

## Left out

- The Swing view, its labels and the controller, `PieceIcons`, and the icon
  loading of `Piece.initIcon`/`getIcon` and `pieceFromBinary`: user
  interface and image files.
- The timing measurements and console prints in `HardAI.bestMove`: clock
  and output.
- `java.util.Random`: each random choice is an arbitrary member of its
  candidate set, and the distribution is not modelled.
- The iteration order of a piece's `LinkedHashSet` of values: values are a
  `set`; the order only shows in `toString`.
- The strategies' `toString` and plain getters (`getFrees`,
  `getActives`, `getNextPick`, `getTurn`, `prevMove`): they return fields
  the model exposes directly. `checkWin(Move)` is `checkWin` applied to the
  move's fields.
- Turns.RunTurn: when `HardAI` finds no move to search, the source
  dereferences null in `runTurn`. The model plays nothing instead.
- Turns.RunTurn, GameAI.RandomFirstMove, NormalAI.GenMove,
  HardAI.HardAI.GenMove: require a free piece when no piece has been
  picked yet, because the source's `Random.nextInt(0)` throws there.
- Pieces.FromAttributes: requires at least as many values as attributes.
  With fewer, `attVals[i]` throws an `ArrayIndexOutOfBoundsException` in
  the source. `genPieces`, its only caller, always passes enough values.
- Pieces.HasAtts: the list of wanted values is a `seq` of values, so a
  null element of the source's array is not modelled. Only a null array
  is. The null cases of `addAtt` and `countShared` are modelled through
  `Option`.
- CorrectedSearch.RootRestores: stated for games whose pieces can fill
  the board. On a custom board with more cells than pieces, the free list
  runs out before the last cell. `makeMove` then rejects the generated
  moves, which pick nothing, and an undo takes back an earlier move.
- Pieces are values: two pieces with the same code and the same values
  are one piece. `Piece` does not override `equals`, so the source's
  `frees.contains`, `frees.remove` and `actives.remove` (Game.java:224,
  183, 134) compare object references. The two agree on the pieces of one
  game, whose codes are pairwise distinct (`Setup.PoolValues`). They differ
  only for equal-looking pieces built separately.
- Games.Name: returns none where the source throws: an
  `IndexOutOfBoundsException` when there are fewer than four attributes,
  and a `NullPointerException` when the fifth attribute is null.
- HardAI.HardAI.GenMove: states the search's result through `Root`, not
  that the move is game-theoretically best. The root score is not negated,
  the terminal score is the constant 1, and forced moves never record a
  win, so the search is not textbook negamax.
- HardAI.HardAI.BestMove: the game it leaves behind is stated as `Root`'s
  state. `SearchFacts.RootRestores` proves it is the game it was given, up
  to the order of `frees`, only when the search stays short of the last
  cell and of the last free piece. Near a full board it is not (see
  Findings, and `CorrectedSearch` for the corrected search).
- Rules.UndoRestoresUnforced, Rules.RunThenUndoRestores: stated for games
  that still have an open cell, as every running game has. Undoing the
  move that filled the board is the first finding.
- Rules.FindPieces, Rules.FindSimilarPieces: order and multiplicities are
  stated by lemmas about the functions, not by their own contracts.
- NormalAI.PickCounterPiece: "null exactly when nothing is free" is stated
  when 12 times the number of pieces in play is below `Integer.MAX_VALUE`.
  That always holds for boards up to 5×5.
- Turns.StrategyWins: stated for states in which every piece is held in
  exactly one place, with a piece left to pick or one cell left. States
  seeded by reflection in the tests need not be such states.
- The `Board` class allows rectangular boards as the source does. The game
  state requires a square board, which every game constructor builds.

## Findings

| source | as written | input that shows it | evidently intended | confidence | as-written member | corrected member |
|---|---|---|---|---|---|---|
| src/main/java/model/Game/Game.java:128-139 | `undoTurn` pops the move but keeps `gameover` and `draw`, and adds `nextPick` back to `frees` even when the move picked nothing | a forced move onto the last open cell of a board, then `undoTurn(true)`: the game stays over as a draw and the placed piece is both `nextPick` and free | undo takes the move back completely, so a search can play and take back any move | not executed | Rules.UndoAfterLastMove | Rules.UndoCorrectedRestores |
| src/main/java/model/Game/GameAI/HardAI.java:51-61 | `bestMove` plays each root move forced and undoes it; with one cell left the first move fills the board and the undo leaves the game over | a running game with one open cell, `nextPick` set and no win there: after `bestMove` the game is over and drawn, and every later move is rejected | `bestMove` hands the game back as it found it | not executed | SearchFacts.RootEndsRunningGame | CorrectedSearch.RootRestores |

The rest of the model keeps `undoTurn` as written, since the search and
the turn loop are modelled as the program runs them. With the undo as
written, `SearchFacts.RootRestores` states the restoration where it does
hold. Module `CorrectedSearch` runs the same search over
`Rules.UndoCorrected`. `CorrectedSearch.RootRestores` proves that it
hands the game back with no depth condition, and
`CorrectedSearch.LastTurnRestored` covers the case of the second row.
`CorrectedSearch.RootAgrees` proves that the correction changes nothing
where the search as written already hands the game back.

