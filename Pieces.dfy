/**
 * Quarto pieces (model/Piece.java). A piece is the set of attribute values
 * it carries plus the integer code built from the bit array it was made
 * from. Pieces are never changed once the game has created them, so they
 * are values here.
 */
module Pieces {
  import opened Wrappers
  import opened Attributes

  datatype Piece = Piece(value: int, atts: set<Att>)

  const TWO31: int := 0x8000_0000
  const TWO32: int := 0x1_0000_0000

  /** Java `int` arithmetic: the two's-complement 32-bit wrap of x. */
  function Wrap32(x: int): (r: int)
    ensures -TWO31 <= r < TWO31
    ensures -TWO31 <= x < TWO31 ==> r == x
  {
    var m := x % TWO32;
    if m >= TWO31 then m - TWO32 else m
  }

  function Pow2(k: nat): (r: nat)
    ensures r >= 1
  {
    if k == 0 then 1 else 2 * Pow2(k - 1)
  }

  /** The bits read most significant first, as an unbounded integer. */
  function Binary(bits: seq<Byte>): int
  {
    if |bits| == 0 then 0 else 2 * Binary(bits[..|bits| - 1]) + bits[|bits| - 1] as int
  }

  /** `value` of a piece made from `binaryVal`: -1 for null, else the code wrapped to 32 bits. */
  function CodeOf(binaryVal: Option<seq<Byte>>): int
  {
    match binaryVal
    case None => -1
    case Some(bits) => Wrap32(Binary(bits))
  }

  predicate IsBits(bits: seq<Byte>)
  {
    forall i :: 0 <= i < |bits| ==> bits[i] == 0 || bits[i] == 1
  }

  lemma WrapStep(val: int, b: int, v: int)
    requires (val - b) % TWO32 == 0
    ensures Wrap32(Wrap32(val * 2) + v) == Wrap32(2 * b + v)
  {
    var q := (val - b) / TWO32;
    assert val == b + TWO32 * q;
    var w := Wrap32(val * 2);
    var m := (val * 2) % TWO32;
    assert val * 2 == TWO32 * ((val * 2) / TWO32) + m;
    assert w == m || w == m - TWO32;
    var k := if w == m then (val * 2) / TWO32 else (val * 2) / TWO32 + 1;
    assert w + v == 2 * b + v + TWO32 * (2 * q - k);
    assert (w + v) % TWO32 == (2 * b + v) % TWO32;
  }

  /** The 32-bit code of a bit array, computed as the source's loop does. */
  method CodeLoop(bits: seq<Byte>) returns (val: int)
    ensures val == Wrap32(Binary(bits))
  {
    val := 0;
    var i := 0;
    while i < |bits|
      invariant 0 <= i <= |bits|
      invariant val == Wrap32(Binary(bits[..i]))
      invariant (val - Binary(bits[..i])) % TWO32 == 0
    {
      assert bits[..i + 1][..i] == bits[..i];
      WrapStep(val, Binary(bits[..i]), bits[i] as int);
      val := Wrap32(Wrap32(val * 2) + bits[i] as int);
      i := i + 1;
      WrapResidue(Binary(bits[..i]));
    }
    assert bits[..i] == bits;
  }

  lemma WrapResidue(x: int)
    ensures (Wrap32(x) - x) % TWO32 == 0
  {
    var m := x % TWO32;
    assert x == TWO32 * (x / TWO32) + m;
  }

  /** A 0/1 array of at most 31 bits has a non-negative code below 2^|bits|, with no wrap-around. */
  lemma {:induction false} BinaryBounds(bits: seq<Byte>)
    requires IsBits(bits)
    ensures 0 <= Binary(bits) < Pow2(|bits|)
    ensures |bits| <= 31 ==> CodeOf(Some(bits)) == Binary(bits)
  {
    if |bits| > 0 {
      BinaryBounds(bits[..|bits| - 1]);
    }
    if |bits| <= 31 {
      Pow2Monotone(|bits|, 31);
      Pow2At31();
    }
  }

  lemma {:induction false} Pow2Sum(a: nat, b: nat)
    ensures Pow2(a + b) == Pow2(a) * Pow2(b)
  {
    if a > 0 { Pow2Sum(a - 1, b); }
  }

  lemma Pow2At31()
    ensures Pow2(31) == TWO31
  {
    assert Pow2(4) == 16;
    Pow2Sum(4, 4);
    Pow2Sum(8, 8);
    Pow2Sum(16, 16);
    assert Pow2(32) == 2 * Pow2(31);
  }

  lemma {:induction false} Pow2Monotone(a: nat, b: nat)
    requires a <= b
    ensures Pow2(a) <= Pow2(b)
  {
    if a < b { Pow2Monotone(a, b - 1); }
  }

  /** Two 0/1 arrays of one length have the same code only if they are equal. */
  lemma {:induction false} BinaryInjective(a: seq<Byte>, b: seq<Byte>)
    requires IsBits(a) && IsBits(b) && |a| == |b|
    requires Binary(a) == Binary(b)
    ensures a == b
  {
    if |a| > 0 {
      var n := |a| - 1;
      assert IsBits(a[..n]) && IsBits(b[..n]);
      BinaryBounds(a[..n]);
      BinaryBounds(b[..n]);
      assert a[n] == b[n];
      BinaryInjective(a[..n], b[..n]);
      assert a == a[..n] + [a[n]] && b == b[..n] + [b[n]];
    }
  }

  /** `Piece(byte[])`: a piece with no attribute and the code of `binaryVal`. */
  method FromBinary(binaryVal: Option<seq<Byte>>) returns (p: Piece)
    ensures p.atts == {}
    ensures p.value == CodeOf(binaryVal)
  {
    if binaryVal.None? {
      p := Piece(-1, {});
    } else {
      var val := CodeLoop(binaryVal.value);
      p := Piece(val, {});
    }
  }

  /** The condition under which `addAtt` adds a value. */
  predicate Admits(atts: set<Att>, newAttr: Option<Attribute>, attNum: Byte)
  {
    newAttr.Some? && (attNum == 0 || attNum == 1) &&
    !(newAttr.value.att0 in atts || newAttr.value.att1 in atts)
  }

  /**
   * `addAtt`: the piece with the value `attNum` selects from `newAttr`
   * added, provided the attribute is present, `attNum` is 0 or 1 and
   * neither of its values is already carried.
   */
  function AddAtt(p: Piece, newAttr: Option<Attribute>, attNum: Byte): (q: Piece)
    ensures q.value == p.value && p.atts <= q.atts && |q.atts - p.atts| <= 1
    ensures q.atts != p.atts <==> Admits(p.atts, newAttr, attNum)
    ensures q.atts != p.atts ==> GetAtt(newAttr.value, attNum).value in q.atts
    ensures newAttr.Some? && !(newAttr.value.att0 in p.atts && newAttr.value.att1 in p.atts) &&
            IsValid(newAttr.value) ==>
              !(newAttr.value.att0 in q.atts && newAttr.value.att1 in q.atts)
  {
    if Admits(p.atts, newAttr, attNum) then
      var v := GetAtt(newAttr.value, attNum).value;
      assert (p.atts + {v}) - p.atts == {v} by {
        assert v !in p.atts;
      }
      Piece(p.value, p.atts + {v})
    else p
  }

  /** The piece `Piece(gameAtts, attVals)` has after its first k `addAtt` calls. */
  function Built(gameAtts: seq<Option<Attribute>>, attVals: seq<Byte>, k: nat): Piece
    requires k <= |gameAtts| <= |attVals|
  {
    if k == 0 then Piece(CodeOf(Some(attVals)), {})
    else AddAtt(Built(gameAtts, attVals, k - 1), gameAtts[k - 1], attVals[k - 1])
  }

  /** The piece the attribute-list constructor produces. */
  function PieceOf(gameAtts: seq<Option<Attribute>>, attVals: seq<Byte>): Piece
    requires |gameAtts| <= |attVals|
  {
    Built(gameAtts, attVals, |gameAtts|)
  }

  /** `Piece(List<Attribute>, byte[])`: the code of `attVals`, then one `addAtt` per game attribute. */
  method FromAttributes(gameAtts: seq<Option<Attribute>>, attVals: seq<Byte>) returns (p: Piece)
    requires |gameAtts| <= |attVals|
    ensures p == PieceOf(gameAtts, attVals)
  {
    p := FromBinary(Some(attVals));
    var i := 0;
    while i < |gameAtts|
      invariant 0 <= i <= |gameAtts|
      invariant p == Built(gameAtts, attVals, i)
    {
      p := AddAtt(p, gameAtts[i], attVals[i]);
      i := i + 1;
    }
  }

  /** The game's attributes are all present, valid and pairwise disjoint. */
  predicate DisjointAttributes(gameAtts: seq<Option<Attribute>>)
  {
    (forall i :: 0 <= i < |gameAtts| ==> gameAtts[i].Some? && IsValid(gameAtts[i].value)) &&
    (forall i, j :: 0 <= i < j < |gameAtts| ==> Disjoint(gameAtts[i].value, gameAtts[j].value))
  }

  /** The value the i-th attribute contributes to a piece made from `attVals`. */
  function Selected(gameAtts: seq<Option<Attribute>>, attVals: seq<Byte>, i: nat): Att
    requires DisjointAttributes(gameAtts) && i < |gameAtts| <= |attVals| && IsBits(attVals)
  {
    GetAtt(gameAtts[i].value, attVals[i]).value
  }

  /** The values `attVals` selects from the first k attributes. */
  function SelectionUpTo(gameAtts: seq<Option<Attribute>>, attVals: seq<Byte>, k: nat): set<Att>
    requires DisjointAttributes(gameAtts) && k <= |gameAtts| <= |attVals| && IsBits(attVals)
  {
    if k == 0 then {} else SelectionUpTo(gameAtts, attVals, k - 1) + {Selected(gameAtts, attVals, k - 1)}
  }

  lemma {:induction false} InSelection(gameAtts: seq<Option<Attribute>>, attVals: seq<Byte>, k: nat, w: Att)
    requires DisjointAttributes(gameAtts) && k <= |gameAtts| <= |attVals| && IsBits(attVals)
    requires w in SelectionUpTo(gameAtts, attVals, k)
    ensures exists i :: 0 <= i < k && w == Selected(gameAtts, attVals, i)
  {
    if w != Selected(gameAtts, attVals, k - 1) {
      InSelection(gameAtts, attVals, k - 1, w);
    }
  }

  lemma {:induction false} SelectionContains(gameAtts: seq<Option<Attribute>>, attVals: seq<Byte>, k: nat, i: nat)
    requires DisjointAttributes(gameAtts) && i < k <= |gameAtts| <= |attVals| && IsBits(attVals)
    ensures Selected(gameAtts, attVals, i) in SelectionUpTo(gameAtts, attVals, k)
  {
    if i < k - 1 {
      SelectionContains(gameAtts, attVals, k - 1, i);
    }
  }

  /** The value chosen from the i-th attribute belongs to no other attribute. */
  lemma SelectedBelongsTo(gameAtts: seq<Option<Attribute>>, attVals: seq<Byte>, i: nat, j: nat)
    requires DisjointAttributes(gameAtts) && i < |gameAtts| <= |attVals| && j < |gameAtts| && IsBits(attVals)
    ensures Selected(gameAtts, attVals, i) in {gameAtts[j].value.att0, gameAtts[j].value.att1} <==> i == j
  {
    if i < j {
      assert Disjoint(gameAtts[i].value, gameAtts[j].value);
    } else if j < i {
      assert Disjoint(gameAtts[j].value, gameAtts[i].value);
    }
  }

  /**
   * With pairwise-disjoint attributes and a 0/1 array, the piece carries
   * exactly the values `attVals` selects, one per attribute.
   */
  lemma {:induction false} BuiltIsSelection(gameAtts: seq<Option<Attribute>>, attVals: seq<Byte>, k: nat)
    requires DisjointAttributes(gameAtts) && k <= |gameAtts| <= |attVals| && IsBits(attVals)
    ensures Built(gameAtts, attVals, k).atts == SelectionUpTo(gameAtts, attVals, k)
  {
    if k > 0 {
      BuiltIsSelection(gameAtts, attVals, k - 1);
      var prev := SelectionUpTo(gameAtts, attVals, k - 1);
      var a := gameAtts[k - 1].value;
      var v := Selected(gameAtts, attVals, k - 1);
      FreshAttribute(gameAtts, attVals, k - 1);
      assert Admits(prev, gameAtts[k - 1], attVals[k - 1]);
      assert Built(gameAtts, attVals, k).atts == prev + {v};
    }
  }

  lemma SelectionStep(gameAtts: seq<Option<Attribute>>, attVals: seq<Byte>, k: nat)
    requires DisjointAttributes(gameAtts) && k <= |gameAtts| <= |attVals| && IsBits(attVals)
    ensures k > 0 ==>
      SelectionUpTo(gameAtts, attVals, k) == SelectionUpTo(gameAtts, attVals, k - 1) + {Selected(gameAtts, attVals, k - 1)}
    ensures k > 0 ==> Selected(gameAtts, attVals, k - 1) !in SelectionUpTo(gameAtts, attVals, k - 1)
    ensures k == 0 ==> SelectionUpTo(gameAtts, attVals, k) == {}
  {
    if k > 0 {
      FreshAttribute(gameAtts, attVals, k - 1);
    }
  }

  /** None of the first k selected values belongs to attribute k. */
  lemma FreshAttribute(gameAtts: seq<Option<Attribute>>, attVals: seq<Byte>, k: nat)
    requires DisjointAttributes(gameAtts) && k < |gameAtts| <= |attVals| && IsBits(attVals)
    ensures gameAtts[k].value.att0 !in SelectionUpTo(gameAtts, attVals, k)
    ensures gameAtts[k].value.att1 !in SelectionUpTo(gameAtts, attVals, k)
    ensures Selected(gameAtts, attVals, k) !in SelectionUpTo(gameAtts, attVals, k)
  {
    var a := gameAtts[k].value;
    forall w | w in SelectionUpTo(gameAtts, attVals, k)
      ensures w != a.att0 && w != a.att1
    {
      InSelection(gameAtts, attVals, k, w);
      var i :| 0 <= i < k && w == Selected(gameAtts, attVals, i);
      SelectedBelongsTo(gameAtts, attVals, i, k);
    }
  }

  /** A piece built from k disjoint attributes carries exactly k values. */
  lemma {:induction false} SelectionSize(gameAtts: seq<Option<Attribute>>, attVals: seq<Byte>, k: nat)
    requires DisjointAttributes(gameAtts) && k <= |gameAtts| <= |attVals| && IsBits(attVals)
    ensures |SelectionUpTo(gameAtts, attVals, k)| == k
  {
    SelectionStep(gameAtts, attVals, k);
    if k > 0 {
      SelectionSize(gameAtts, attVals, k - 1);
    }
  }

  /** Consequently each attribute contributes exactly its selected value. */
  lemma OneValuePerAttribute(gameAtts: seq<Option<Attribute>>, attVals: seq<Byte>, i: nat)
    requires DisjointAttributes(gameAtts) && i < |gameAtts| <= |attVals| && IsBits(attVals)
    ensures PieceOf(gameAtts, attVals).atts * {gameAtts[i].value.att0, gameAtts[i].value.att1} ==
            {Selected(gameAtts, attVals, i)}
  {
    var k := |gameAtts|;
    BuiltIsSelection(gameAtts, attVals, k);
    SelectionContains(gameAtts, attVals, k, i);
    var pair := {gameAtts[i].value.att0, gameAtts[i].value.att1};
    forall w | w in SelectionUpTo(gameAtts, attVals, k) * pair
      ensures w == Selected(gameAtts, attVals, i)
    {
      InSelection(gameAtts, attVals, k, w);
      var j :| 0 <= j < k && w == Selected(gameAtts, attVals, j);
      SelectedBelongsTo(gameAtts, attVals, j, i);
    }
  }

  function HasAtt(p: Piece, attr: Att): bool
  {
    attr in p.atts
  }

  /** The source's `matches &= atts.contains(a)` loop. */
  function AllCarried(atts: set<Att>, attrs: seq<Att>): (r: bool)
    ensures r <==> forall i :: 0 <= i < |attrs| ==> attrs[i] in atts
  {
    if |attrs| == 0 then true
    else AllCarried(atts, attrs[..|attrs| - 1]) && attrs[|attrs| - 1] in atts
  }

  /** `hasAtts`: false for a null or empty array, otherwise whether every listed value is carried. */
  function HasAtts(p: Piece, attrs: Option<seq<Att>>): (r: bool)
    ensures r <==> attrs.Some? && |attrs.value| > 0 && (set i | 0 <= i < |attrs.value| :: attrs.value[i]) <= p.atts
  {
    if attrs.None? || |attrs.value| == 0 then false
    else AllCarried(p.atts, attrs.value)
  }

  /** `isSimilar`: false for null, true for two pieces without values, otherwise whether they share a value. */
  function IsSimilar(p: Piece, other: Option<Piece>): bool
  {
    match other
    case None => false
    case Some(o) => (p.atts == {} && o.atts == {}) || p.atts * o.atts != {}
  }

  /** `countShared`: -1 for null, otherwise the number of values the two pieces share. */
  function CountShared(p: Piece, other: Option<Piece>): int
  {
    match other
    case None => -1
    case Some(o) => |p.atts * o.atts|
  }

  lemma SimilarityLaws(p: Piece, q: Piece)
    ensures IsSimilar(p, Some(p))
    ensures IsSimilar(p, Some(q)) == IsSimilar(q, Some(p))
    ensures !IsSimilar(p, None) && CountShared(p, None) == -1
    ensures CountShared(p, Some(q)) == CountShared(q, Some(p))
    ensures 0 <= CountShared(p, Some(q)) <= |p.atts|
    ensures IsSimilar(p, Some(q)) <==> CountShared(p, Some(q)) > 0 || (p.atts == {} && q.atts == {})
  {
    assert p.atts * q.atts == q.atts * p.atts;
    SubsetCardinality(p.atts * q.atts, p.atts);
    if p.atts != {} {
      var a :| a in p.atts;
      assert a in p.atts * p.atts;
    }
  }

  lemma {:induction false} SubsetCardinality<T>(a: set<T>, b: set<T>)
    requires a <= b
    ensures |a| <= |b|
    decreases b
  {
    if a != {} {
      var x :| x in a;
      SubsetCardinality(a - {x}, b - {x});
    }
  }
}
