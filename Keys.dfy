/**
 * `Game.boardState`, the key of the transposition table: the cells in
 * row-major order (y outer, x inner), each followed by a comma, then the
 * piece to be placed. A cell holds its piece's value in decimal; for an
 * empty cell the source appends the character 'X' through a conditional
 * whose other branch is an `int`, so the character is promoted and its
 * code, 88, is written.
 */
module Keys {
  import opened Wrappers
  import opened Attributes
  import opened Pieces
  import opened Boards

  function Digit(d: int): char
    requires 0 <= d < 10
  {
    ('0' as int + d) as char
  }

  predicate IsDigit(c: char)
  {
    '0' <= c <= '9'
  }

  /** `Integer.toString` of a non-negative number. */
  function NatToString(n: nat): string
  {
    if n < 10 then [Digit(n)] else NatToString(n / 10) + [Digit(n % 10)]
  }

  /** `Integer.toString` / `StringBuilder.append(int)`. */
  function IntToString(i: int): string
  {
    if i < 0 then "-" + NatToString(-i) else NatToString(i)
  }

  /** A number is written as one or more digits. */
  lemma {:induction false} NatToStringDigits(n: nat)
    ensures var r := NatToString(n); |r| > 0 && forall i :: 0 <= i < |r| ==> IsDigit(r[i])
  {
    if n >= 10 {
      NatToStringDigits(n / 10);
    }
  }

  /** A number is written with a leading minus sign exactly when it is negative. */
  lemma IntToStringSign(i: int)
    ensures |IntToString(i)| > 0 && (IntToString(i)[0] == '-' <==> i < 0)
  {
    NatToStringDigits(if i < 0 then -i else i);
  }

  /** A number is written with digits and minus signs only. */
  lemma IntToStringChars(i: int)
    ensures forall k :: 0 <= k < |IntToString(i)| ==> IsDigit(IntToString(i)[k]) || IntToString(i)[k] == '-'
  {
    NatToStringDigits(if i < 0 then -i else i);
  }

  /** Reads back a string of decimal digits. */
  function ParseNat(s: string): nat
  {
    if |s| == 0 then 0
    else
      var c := s[|s| - 1];
      10 * ParseNat(s[..|s| - 1]) + (if IsDigit(c) then (c as int - '0' as int) else 0)
  }

  lemma {:induction false} NatRoundTrip(n: nat)
    ensures ParseNat(NatToString(n)) == n
  {
    if n >= 10 {
      NatRoundTrip(n / 10);
      var s := NatToString(n);
      assert s[..|s| - 1] == NatToString(n / 10);
    }
  }

  /** Distinct numbers are written differently. */
  lemma IntToStringInjective(i: int, j: int)
    requires IntToString(i) == IntToString(j)
    ensures i == j
  {
    var si, sj := IntToString(i), IntToString(j);
    IntToStringSign(i);
    IntToStringSign(j);
    if i < 0 {
      assert j < 0 by { assert sj[0] == si[0] == '-'; }
      var ni, nj := NatToString(-i), NatToString(-j);
      assert si == "-" + ni && sj == "-" + nj;
      assert ni == si[1..] == sj[1..] == nj;
      NatRoundTrip(-i);
      NatRoundTrip(-j);
    } else {
      assert j >= 0 by { assert sj[0] == si[0] != '-'; }
      assert NatToString(i) == si == sj == NatToString(j);
      NatRoundTrip(i);
      NatRoundTrip(j);
    }
  }

  /** The text written for a cell or for `nextPick`. */
  function Token(p: Option<Piece>): string
  {
    IntToString(if p.Some? then p.value.value else 'X' as int)
  }

  function CellAt(b: BoardView, k: nat): Option<Piece>
    requires b.WellFormed()
  {
    b.Get(k % b.xLength, k / b.xLength)
  }

  /** The first k cells in row-major order, each followed by a comma. */
  function CellsUpTo(b: BoardView, k: nat): string
    requires b.WellFormed()
  {
    if k == 0 then "" else CellsUpTo(b, k - 1) + Token(CellAt(b, k - 1)) + ","
  }

  /** `boardState` of a board and the piece to be placed. */
  function BoardState(b: BoardView, nextPick: Option<Piece>): string
    requires b.WellFormed()
  {
    CellsUpTo(b, b.xLength * b.yLength) + Token(nextPick)
  }

  /** The value a cell or `nextPick` stands for: none for an empty one. */
  function Code(p: Option<Piece>): Option<int>
  {
    if p.Some? then Some(p.value.value) else None
  }

  predicate CommaFree(s: string)
  {
    forall i :: 0 <= i < |s| ==> s[i] != ','
  }

  /** The text after the last comma is determined by the string. */
  lemma LastComma(a: string, t: string, a': string, t': string)
    requires CommaFree(t) && CommaFree(t')
    requires a + "," + t == a' + "," + t'
    ensures a == a' && t == t'
  {
    var s := a + "," + t;
    var i, i' := |a|, |a'|;
    assert s[i] == ',' && forall j :: i < j < |s| ==> s[j] == t[j - i - 1];
    assert s[i'] == ',' && forall j :: i' < j < |s| ==> s[j] == t'[j - i' - 1];
    assert i == i';
    assert t == s[i + 1..] == t';
    assert a == s[..i] == a';
  }

  /** A token is never 88's and a piece's at once unless that piece's value is 88. */
  lemma TokenInjective(p: Option<Piece>, q: Option<Piece>)
    requires Token(p) == Token(q)
    requires Code(p) != Some('X' as int) && Code(q) != Some('X' as int)
    ensures Code(p) == Code(q)
  {
    if p.Some? && q.Some? {
      IntToStringInjective(p.value.value, q.value.value);
    } else if p.Some? {
      IntToStringInjective(p.value.value, 'X' as int);
    } else if q.Some? {
      IntToStringInjective(q.value.value, 'X' as int);
    }
  }

  /** No cell among the first k, and not `nextPick`, holds a piece of value 88. */
  predicate No88(b: BoardView, k: nat)
    requires b.WellFormed()
  {
    forall i :: 0 <= i < k ==> Code(CellAt(b, i)) != Some('X' as int)
  }

  /** Strings each followed by a comma. */
  function Joined(ts: seq<string>): string
  {
    if |ts| == 0 then "" else Joined(ts[..|ts| - 1]) + ts[|ts| - 1] + ","
  }

  /** The tokens of the first k cells. */
  function TokensOf(b: BoardView, k: nat): (r: seq<string>)
    requires b.WellFormed()
    ensures |r| == k && forall i :: 0 <= i < k ==> r[i] == Token(CellAt(b, i))
  {
    seq(k, i requires 0 <= i < k => Token(CellAt(b, i)))
  }

  lemma {:induction false} CellsAreJoined(b: BoardView, k: nat)
    requires b.WellFormed()
    ensures CellsUpTo(b, k) == Joined(TokensOf(b, k))
  {
    if k > 0 {
      CellsAreJoined(b, k - 1);
      assert TokensOf(b, k)[..k - 1] == TokensOf(b, k - 1);
    }
  }

  /** Comma-free strings joined with commas can be split back uniquely. */
  lemma {:induction false} JoinedInjective(ts: seq<string>, ts': seq<string>, t: string, t': string)
    requires |ts| == |ts'|
    requires forall i :: 0 <= i < |ts| ==> CommaFree(ts[i]) && CommaFree(ts'[i])
    requires CommaFree(t) && CommaFree(t')
    requires Joined(ts) + t == Joined(ts') + t'
    ensures ts == ts' && t == t'
  {
    if |ts| == 0 {
      assert Joined(ts) + t == t && Joined(ts') + t' == t';
    } else {
      var n := |ts| - 1;
      LastComma(Joined(ts[..n]) + ts[n], t, Joined(ts'[..n]) + ts'[n], t');
      JoinedInjective(ts[..n], ts'[..n], ts[n], ts'[n]);
      assert ts == ts[..n] + [ts[n]] && ts' == ts'[..n] + [ts'[n]];
    }
  }

  lemma TokenCommaFree(p: Option<Piece>)
    ensures CommaFree(Token(p))
  {
    IntToStringChars(if p.Some? then p.value.value else 'X' as int);
  }

  /**
   * While no piece has value 88, equal keys mean the same value in every
   * cell and the same piece to be placed: the key identifies the position.
   */
  lemma BoardStateInjective(b: BoardView, p: Option<Piece>, b': BoardView, p': Option<Piece>)
    requires b.WellFormed() && b'.WellFormed()
    requires b.xLength == b'.xLength && b.yLength == b'.yLength
    requires No88(b, b.xLength * b.yLength) && No88(b', b.xLength * b.yLength)
    requires Code(p) != Some('X' as int) && Code(p') != Some('X' as int)
    requires BoardState(b, p) == BoardState(b', p')
    ensures forall x, y :: b.IsValid(x, y) ==> Code(b.Get(x, y)) == Code(b'.Get(x, y))
    ensures Code(p) == Code(p')
  {
    var n := b.xLength * b.yLength;
    var ts, ts' := TokensOf(b, n), TokensOf(b', n);
    CellsAreJoined(b, n);
    CellsAreJoined(b', n);
    forall i | 0 <= i < n ensures CommaFree(ts[i]) && CommaFree(ts'[i]) {
      TokenCommaFree(CellAt(b, i));
      TokenCommaFree(CellAt(b', i));
    }
    TokenCommaFree(p);
    TokenCommaFree(p');
    JoinedInjective(ts, ts', Token(p), Token(p'));
    TokenInjective(p, p');
    forall x, y | b.IsValid(x, y) ensures Code(b.Get(x, y)) == Code(b'.Get(x, y)) {
      var k := y * b.xLength + x;
      CellIndex(x, y, b.xLength, b.yLength);
      assert ts[k] == ts'[k];
      TokenInjective(CellAt(b, k), CellAt(b', k));
    }
  }

  /** Cell (x, y) is number y * w + x in row-major order. */
  lemma CellIndex(x: int, y: int, w: int, h: int)
    requires 0 <= x < w && 0 <= y < h
    ensures (y * w + x) / w == y && (y * w + x) % w == x
    ensures 0 <= y * w + x < w * h
  {
    var k := y * w + x;
    var q, r := k / w, k % w;
    assert k == q * w + r && 0 <= r < w;
    assert (q - y) * w == x - r;
    NoMultipleBetween(q - y, w);
    assert y * w <= (h - 1) * w by { MulMonotone(y, h - 1, w); }
  }

  /** The k-th cell written in row-major order is cell (x, y) for k = y * w + x + 1. */
  lemma CellsStep(b: BoardView, k: nat, x: int, y: int)
    requires b.WellFormed() && 0 <= x < b.xLength && 0 <= y < b.yLength && k == y * b.xLength + x + 1
    ensures CellsUpTo(b, k) == CellsUpTo(b, k - 1) + Token(b.Get(x, y)) + ","
  {
    CellIndex(x, y, b.xLength, b.yLength);
    assert CellAt(b, k - 1) == b.Get(x, y);
  }

  /** The cells (0, y) .. (x-1, y) of row y, each followed by a comma. */
  function RowText(b: BoardView, y: int, x: nat): string
    requires b.WellFormed()
  {
    if x == 0 then "" else RowText(b, y, x - 1) + Token(b.Get(x - 1, y)) + ","
  }

  /** Row y, which starts at cell number `start`, continues the cells before it up to cell k = start + x. */
  lemma {:induction false} RowTextIsCells(b: BoardView, y: int, start: nat, x: nat, k: nat)
    requires b.WellFormed() && 0 <= y < b.yLength && start == y * b.xLength && x <= b.xLength && k == start + x
    ensures CellsUpTo(b, k) == CellsUpTo(b, start) + RowText(b, y, x)
  {
    if x > 0 {
      RowTextIsCells(b, y, start, x - 1, k - 1);
      CellsStep(b, k, x - 1, y);
      AppendCell(CellsUpTo(b, start), RowText(b, y, x - 1), Token(b.Get(x - 1, y)), CellsUpTo(b, k - 1), CellsUpTo(b, k));
    }
  }

  /** Appending a cell's token to a text that extends `before` extends `before` by the cell. */
  lemma AppendCell(before: string, row: string, token: string, prev: string, whole: string)
    requires prev == before + row && whole == prev + token + ","
    ensures whole == before + (row + token + ",")
  {
  }

  lemma NoMultipleBetween(d: int, w: int)
    requires w > 0 && -w < d * w < w
    ensures d == 0
  {
    if d > 0 {
      MulMonotone(1, d, w);
    } else if d < 0 {
      MulMonotone(d, -1, w);
    }
  }

  lemma MulMonotone(a: int, b: int, w: int)
    requires a <= b && w >= 0
    ensures a * w <= b * w
  {
    assert b * w - a * w == (b - a) * w;
  }

  /** An empty cell and a piece of value 88 are written alike, so such positions would share a key. */
  lemma EmptyCellReadsAs88(atts: set<Att>)
    ensures Token(None) == Token(Some(Piece(88, atts)))
    ensures Token(None) == "88"
  {
    assert NatToString(88) == NatToString(8) + [Digit(8)];
  }
}
