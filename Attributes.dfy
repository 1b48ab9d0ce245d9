/**
 * The binary traits a piece can carry (model/Attribute.java).
 * An attribute is a named pair of symbolic values; two attributes are
 * `Equals` when they denote the same unordered pair.
 */
module Attributes {
  import opened Wrappers

  /** Java's signed 8-bit `byte`. */
  newtype Byte = x: int | -128 <= x < 128

  /** The symbolic attribute values (the enum `Attribute.Att`). */
  datatype Att = BWN | YLW | BIG | SML | SQR | CIR | HLW | SLD | FORW | BACK | VERT | DASH

  /**
   * An attribute object. `id` stands for the identity of the Java object:
   * two attributes with the same `id` are the same reference. Value
   * comparison (`Equals`) ignores it.
   */
  datatype Attribute = Attribute(id: nat, name: string, att0: Att, att1: Att)

  /** The two values of an attribute must differ. */
  predicate IsValid(a: Attribute)
  {
    a.att0 != a.att1
  }

  /** The value selected by `attNum`: 0 picks the first, 1 the second, anything else none. */
  function GetAtt(a: Attribute, attNum: Byte): (r: Option<Att>)
    ensures r.Some? <==> attNum == 0 || attNum == 1
    ensures r.Some? ==> r.value == a.att0 || r.value == a.att1
    ensures IsValid(a) && r.Some? ==> (r.value == a.att0 <==> attNum == 0)
  {
    if attNum == 0 then Some(a.att0)
    else if attNum == 1 then Some(a.att1)
    else None
  }

  /** `equals`: false for null, otherwise equality of unordered pairs. */
  function Equals(a: Attribute, other: Option<Attribute>): bool
  {
    match other
    case None => false
    case Some(rhs) =>
      (a.att0 == rhs.att0 && a.att1 == rhs.att1) ||
      (a.att1 == rhs.att0 && a.att0 == rhs.att1)
  }

  /** `hashCode`: one constant for every attribute. */
  function HashCode(a: Attribute): int
  {
    42
  }

  /** The unordered pair of an attribute's values. */
  function Pair(a: Attribute): multiset<Att>
  {
    multiset{a.att0, a.att1}
  }

  lemma {:induction false} EqualsIsSamePair(a: Attribute, b: Attribute)
    ensures Equals(a, Some(b)) <==> Pair(a) == Pair(b)
  {
    if Pair(a) == Pair(b) {
      assert a.att0 in Pair(b);
      if a.att0 == b.att0 {
        assert Pair(a) - multiset{a.att0} == Pair(b) - multiset{b.att0};
        assert multiset{a.att1} == multiset{b.att1};
        assert a.att1 in multiset{b.att1};
      } else {
        assert a.att0 == b.att1;
        assert Pair(a) - multiset{a.att0} == Pair(b) - multiset{b.att1};
        assert multiset{a.att1} == multiset{b.att0};
        assert a.att1 in multiset{b.att0};
      }
    }
  }

  lemma EqualsIsEquivalence(a: Attribute, b: Attribute, c: Attribute)
    ensures Equals(a, Some(a))
    ensures !Equals(a, None)
    ensures Equals(a, Some(b)) <==> Equals(b, Some(a))
    ensures Equals(a, Some(b)) && Equals(b, Some(c)) ==> Equals(a, Some(c))
  {
    EqualsIsSamePair(a, b);
    EqualsIsSamePair(b, a);
    EqualsIsSamePair(b, c);
    EqualsIsSamePair(a, c);
  }

  /** Equal attributes have equal hash codes, as `Object.hashCode` requires. */
  lemma HashCodeConsistent(a: Attribute, b: Attribute)
    requires Equals(a, Some(b))
    ensures HashCode(a) == HashCode(b)
  {
  }

  /** The predefined attributes; `id` follows their declaration order. */
  const COLOR := Attribute(0, "color", BWN, YLW)
  const SIZE := Attribute(1, "size", BIG, SML)
  const SHAPE := Attribute(2, "shape", SQR, CIR)
  const TOP := Attribute(3, "top", HLW, SLD)
  const SLASH := Attribute(4, "slash", FORW, BACK)
  const BAR := Attribute(5, "bar", VERT, DASH)

  const Predefined: seq<Attribute> := [COLOR, SIZE, SHAPE, TOP, SLASH, BAR]

  /** Two attributes share no value. */
  predicate Disjoint(a: Attribute, b: Attribute)
  {
    a.att0 != b.att0 && a.att0 != b.att1 && a.att1 != b.att0 && a.att1 != b.att1
  }

  lemma PredefinedAreValidAndDisjoint()
    ensures forall i :: 0 <= i < |Predefined| ==> IsValid(Predefined[i])
    ensures forall i, j :: 0 <= i < j < |Predefined| ==> Disjoint(Predefined[i], Predefined[j])
    ensures forall i, j :: 0 <= i < j < |Predefined| ==> Predefined[i].id != Predefined[j].id
  {
  }
}
