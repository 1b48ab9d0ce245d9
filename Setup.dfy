/**
 * Piece generation (Game.setupPieces / Game.genPieces): every bit array of
 * length k, one per piece, in the order the recursion visits them.
 */
module Setup {
  import opened Wrappers
  import opened Attributes
  import opened Pieces
  import Rules

  /** Each array of `c` extended by one more bit. */
  function Extend(c: seq<seq<Byte>>, b: Byte): (r: seq<seq<Byte>>)
    ensures |r| == |c| && forall i :: 0 <= i < |c| ==> r[i] == c[i] + [b]
  {
    seq(|c|, i requires 0 <= i < |c| => c[i] + [b])
  }

  /**
   * The bit arrays of length k in `genPieces` order: the recursion fixes the
   * last bit first, so it varies slowest and bit 0 fastest.
   */
  function Combos(k: nat): (r: seq<seq<Byte>>)
    ensures |r| == Pow2(k)
    ensures forall i :: 0 <= i < |r| ==> |r[i]| == k && IsBits(r[i])
  {
    if k == 0 then [[]] else Extend(Combos(k - 1), 0) + Extend(Combos(k - 1), 1)
  }

  /** The pieces `genPieces(attNums, n)` appends, when `attNums[n..]` is `suffix`. */
  function Gen(gameAtts: seq<Option<Attribute>>, n: nat, suffix: seq<Byte>): (r: seq<Piece>)
    requires n + |suffix| == |gameAtts|
    ensures |r| == Pow2(n)
  {
    var c := Combos(n);
    seq(|c|, i requires 0 <= i < |c| => PieceOf(gameAtts, c[i] + suffix))
  }

  /** `setupPieces`: the free pieces of a new game. */
  function Pool(gameAtts: seq<Option<Attribute>>): (r: seq<Piece>)
    ensures |r| == Pow2(|gameAtts|)
  {
    Gen(gameAtts, |gameAtts|, [])
  }

  /** The recursion step: bit n-1 set to 0, then to 1. */
  lemma GenSplit(gameAtts: seq<Option<Attribute>>, n: nat, suffix: seq<Byte>)
    requires 0 < n && n + |suffix| == |gameAtts|
    ensures Gen(gameAtts, n, suffix) == Gen(gameAtts, n - 1, [0] + suffix) + Gen(gameAtts, n - 1, [1] + suffix)
  {
    var c := Combos(n - 1);
    var zeros, ones := Gen(gameAtts, n - 1, [0] + suffix), Gen(gameAtts, n - 1, [1] + suffix);
    var lhs := Gen(gameAtts, n, suffix);
    assert Combos(n) == Extend(c, 0) + Extend(c, 1);
    forall i | 0 <= i < |lhs| ensures lhs[i] == (zeros + ones)[i] {
      if i < |c| {
        assert Combos(n)[i] == c[i] + [0];
        assert (c[i] + [0]) + suffix == c[i] + ([0] + suffix);
      } else {
        assert Combos(n)[i] == c[i - |c|] + [1];
        assert (c[i - |c|] + [1]) + suffix == c[i - |c|] + ([1] + suffix);
      }
    }
  }

  lemma {:induction false} CombosDistinct(k: nat)
    ensures forall i, j :: 0 <= i < j < |Combos(k)| ==> Combos(k)[i] != Combos(k)[j]
  {
    if k > 0 {
      CombosDistinct(k - 1);
      var c := Combos(k - 1);
      forall i, j | 0 <= i < j < |Combos(k)| ensures Combos(k)[i] != Combos(k)[j] {
        ExtendDistinct(c, k - 1, i, j);
      }
    }
  }

  /** Extending distinct arrays of one length by 0 and by 1 keeps all of them distinct. */
  lemma ExtendDistinct(c: seq<seq<Byte>>, len: nat, i: int, j: int)
    requires forall x :: 0 <= x < |c| ==> |c[x]| == len
    requires forall x, y :: 0 <= x < y < |c| ==> c[x] != c[y]
    requires 0 <= i < j < 2 * |c|
    ensures (Extend(c, 0) + Extend(c, 1))[i] != (Extend(c, 0) + Extend(c, 1))[j]
  {
    var r := Extend(c, 0) + Extend(c, 1);
    var bi, bj: Byte := if i < |c| then 0 else 1, if j < |c| then 0 else 1;
    var ci, cj := if i < |c| then c[i] else c[i - |c|], if j < |c| then c[j] else c[j - |c|];
    assert r[i] == ci + [bi] && r[j] == cj + [bj];
    assert r[i][..len] == ci && r[j][..len] == cj;
    assert r[i][len] == bi && r[j][len] == bj;
    assert ci != cj || bi != bj;
  }

  lemma {:induction false} CombosComplete(k: nat, bits: seq<Byte>)
    requires |bits| == k && IsBits(bits)
    ensures bits in Combos(k)
  {
    if k > 0 {
      var front := bits[..k - 1];
      CombosComplete(k - 1, front);
      var c := Combos(k - 1);
      var j :| 0 <= j < |c| && c[j] == front;
      assert bits == front + [bits[k - 1]];
      if bits[k - 1] == 0 {
        assert Combos(k)[j] == bits;
      } else {
        assert Combos(k)[|c| + j] == bits;
      }
    }
  }

  /** The bits of v, most significant first, padded to k. */
  function ToBits(v: nat, k: nat): (r: seq<Byte>)
    requires v < Pow2(k)
    ensures |r| == k && IsBits(r) && Binary(r) == v
  {
    if k == 0 then []
    else
      var r := ToBits(v / 2, k - 1) + [(v % 2) as Byte];
      assert r[..k - 1] == ToBits(v / 2, k - 1);
      r
  }

  lemma {:induction false} BuiltKeepsValue(gameAtts: seq<Option<Attribute>>, attVals: seq<Byte>, k: nat)
    requires k <= |gameAtts| <= |attVals|
    ensures Built(gameAtts, attVals, k).value == CodeOf(Some(attVals))
  {
    if k > 0 { BuiltKeepsValue(gameAtts, attVals, k - 1); }
  }

  /** The values of the given pieces. */
  function ValuesOf(ps: seq<Piece>): set<int>
  {
    set i | 0 <= i < |ps| :: ps[i].value
  }

  /**
   * With at most 31 attributes the pieces' values are exactly 0 .. 2^k - 1,
   * each once: piece i has the value of the i-th bit array.
   */
  lemma PoolValues(gameAtts: seq<Option<Attribute>>)
    requires |gameAtts| <= 31
    ensures forall i :: 0 <= i < |Pool(gameAtts)| ==> 0 <= Pool(gameAtts)[i].value < Pow2(|gameAtts|)
    ensures forall i, j :: 0 <= i < j < |Pool(gameAtts)| ==> Pool(gameAtts)[i].value != Pool(gameAtts)[j].value
    ensures forall v :: v in ValuesOf(Pool(gameAtts)) <==> 0 <= v < Pow2(|gameAtts|)
  {
    var k := |gameAtts|;
    var c := Combos(k);
    var pool := Pool(gameAtts);
    assert forall i :: 0 <= i < |c| ==> c[i] + [] == c[i];
    forall i | 0 <= i < |pool| ensures pool[i].value == Binary(c[i]) && 0 <= pool[i].value < Pow2(k) {
      BuiltKeepsValue(gameAtts, c[i], k);
      BinaryBounds(c[i]);
    }
    CombosDistinct(k);
    forall i, j | 0 <= i < j < |pool| ensures pool[i].value != pool[j].value {
      if pool[i].value == pool[j].value {
        BinaryInjective(c[i], c[j]);
      }
    }
    forall v | 0 <= v < Pow2(k) ensures v in ValuesOf(pool) {
      var bits := ToBits(v, k);
      CombosComplete(k, bits);
      var i :| 0 <= i < |c| && c[i] == bits;
      assert pool[i].value == v;
    }
  }

  /**
   * With valid, pairwise disjoint attributes every piece carries exactly one
   * value per attribute and no two pieces carry the same values.
   */
  lemma PoolAttributeSets(gameAtts: seq<Option<Attribute>>)
    requires DisjointAttributes(gameAtts)
    ensures forall i :: 0 <= i < |Pool(gameAtts)| ==> |Pool(gameAtts)[i].atts| == |gameAtts|
    ensures forall i, j :: 0 <= i < j < |Pool(gameAtts)| ==> Pool(gameAtts)[i].atts != Pool(gameAtts)[j].atts
  {
    var k := |gameAtts|;
    var c := Combos(k);
    var pool := Pool(gameAtts);
    assert forall i :: 0 <= i < |c| ==> c[i] + [] == c[i];
    forall i | 0 <= i < |pool| ensures |pool[i].atts| == k {
      BuiltIsSelection(gameAtts, c[i], k);
      SelectionSize(gameAtts, c[i], k);
    }
    CombosDistinct(k);
    forall i, j | 0 <= i < j < |pool| ensures pool[i].atts != pool[j].atts {
      var n :| 0 <= n < k && c[i][n] != c[j][n];
      var a := gameAtts[n].value;
      OneValuePerAttribute(gameAtts, c[i], n);
      OneValuePerAttribute(gameAtts, c[j], n);
      assert Selected(gameAtts, c[i], n) != Selected(gameAtts, c[j], n);
    }
  }

  // ---- findPieces on a new game ----

  /** A choice of values, at most one per attribute: none, or the bit that selects it. */
  predicate IsPattern(want: seq<Option<Byte>>)
  {
    forall n :: 0 <= n < |want| && want[n].Some? ==> want[n].value == 0 || want[n].value == 1
  }

  /** The values the pattern chooses from the first n attributes, in attribute order. */
  function Wanted(gameAtts: seq<Option<Attribute>>, want: seq<Option<Byte>>, n: nat): (r: seq<Att>)
    requires DisjointAttributes(gameAtts) && |want| == |gameAtts| && IsPattern(want) && n <= |want|
    ensures |r| <= n
  {
    if n == 0 then []
    else Wanted(gameAtts, want, n - 1) + if want[n - 1].Some? then [GetAtt(gameAtts[n - 1].value, want[n - 1].value).value] else []
  }

  /** The suffix holds the chosen bit wherever the pattern chooses one from attribute n on. */
  predicate AgreesFrom(want: seq<Option<Byte>>, n: nat, suffix: seq<Byte>)
    requires n + |suffix| == |want|
  {
    forall i :: 0 <= i < |suffix| && want[n + i].Some? ==> suffix[i] == want[n + i].value
  }

  /** A piece carries the values chosen from the first n attributes exactly when its bits agree with the pattern there. */
  lemma {:induction false} PieceCarries(gameAtts: seq<Option<Attribute>>, want: seq<Option<Byte>>, bits: seq<Byte>, n: nat)
    requires DisjointAttributes(gameAtts) && |want| == |gameAtts| == |bits| && IsPattern(want) && IsBits(bits) && n <= |want|
    ensures (forall v :: v in Wanted(gameAtts, want, n) ==> v in PieceOf(gameAtts, bits).atts) <==>
            (forall m :: 0 <= m < n && want[m].Some? ==> bits[m] == want[m].value)
  {
    if n > 0 {
      PieceCarries(gameAtts, want, bits, n - 1);
      if want[n - 1].Some? {
        var a := gameAtts[n - 1].value;
        var v := GetAtt(a, want[n - 1].value).value;
        var pair, atts := {a.att0, a.att1}, PieceOf(gameAtts, bits).atts;
        OneValuePerAttribute(gameAtts, bits, n - 1);
        assert v in pair;
        assert v in atts <==> v in atts * pair;
        assert v in atts <==> v == Selected(gameAtts, bits, n - 1);
        assert IsValid(a) && (bits[n - 1] == 0 || bits[n - 1] == 1) && (want[n - 1].value == 0 || want[n - 1].value == 1);
        assert v == Selected(gameAtts, bits, n - 1) <==> bits[n - 1] == want[n - 1].value;
      }
    }
  }

  /** How many of the pieces `genPieces` appends below level n, for the fixed bits `suffix`, carry the values. */
  function Matches(gameAtts: seq<Option<Attribute>>, vals: seq<Att>, n: nat, suffix: seq<Byte>): nat
    requires n + |suffix| == |gameAtts|
    decreases n
  {
    if n == 0 then (if HasAtts(PieceOf(gameAtts, suffix), Some(vals)) then 1 else 0)
    else Matches(gameAtts, vals, n - 1, [0] + suffix) + Matches(gameAtts, vals, n - 1, [1] + suffix)
  }

  /** The pieces found below level n are those found with bit n - 1 at 0 and then those with it at 1. */
  lemma {:induction false} GenSplitCount(gameAtts: seq<Option<Attribute>>, vals: seq<Att>, n: nat, suffix: seq<Byte>)
    requires 0 < n && n + |suffix| == |gameAtts|
    ensures |Rules.FindPieces(Gen(gameAtts, n, suffix), Some(vals))| == Matches(gameAtts, vals, n, suffix)
    decreases n, 0
  {
    FindPiecesInGen(gameAtts, vals, n - 1, [0] + suffix);
    FindPiecesInGen(gameAtts, vals, n - 1, [1] + suffix);
    GenSplit(gameAtts, n, suffix);
    Rules.FindPiecesAppend(Gen(gameAtts, n - 1, [0] + suffix), Gen(gameAtts, n - 1, [1] + suffix), Some(vals));
  }

  /** Below level 0 the recursion appends the one piece of the suffix, found when it carries the values. */
  lemma GenOne(gameAtts: seq<Option<Attribute>>, vals: seq<Att>, suffix: seq<Byte>)
    requires |suffix| == |gameAtts|
    ensures Gen(gameAtts, 0, suffix) == [PieceOf(gameAtts, suffix)]
    ensures |Rules.FindPieces(Gen(gameAtts, 0, suffix), Some(vals))| == Matches(gameAtts, vals, 0, suffix)
  {
    assert Combos(0)[0] + suffix == suffix;
    assert [PieceOf(gameAtts, suffix)][..0] == [];
  }

  /** `findPieces` on the pieces appended below level n keeps exactly those counted by `Matches`. */
  lemma {:induction false} FindPiecesInGen(gameAtts: seq<Option<Attribute>>, vals: seq<Att>, n: nat, suffix: seq<Byte>)
    requires n + |suffix| == |gameAtts|
    ensures |Rules.FindPieces(Gen(gameAtts, n, suffix), Some(vals))| == Matches(gameAtts, vals, n, suffix)
    decreases n, 1
  {
    if n == 0 {
      GenOne(gameAtts, vals, suffix);
    } else {
      GenSplitCount(gameAtts, vals, n, suffix);
    }
  }

  /**
   * The pieces `genPieces` appends below level n for the fixed bits
   * `suffix` that carry the chosen values: all 2^(n - j) combinations of the
   * n - j free attributes below n, j being the number of attributes below n
   * the pattern chooses from, when the suffix agrees; none otherwise.
   */
  lemma {:induction false} GenMatches(gameAtts: seq<Option<Attribute>>, want: seq<Option<Byte>>, vals: seq<Att>, n: nat,
                                      suffix: seq<Byte>)
    requires DisjointAttributes(gameAtts) && |want| == |gameAtts| && IsPattern(want)
    requires n + |suffix| == |gameAtts| && IsBits(suffix)
    requires |vals| > 0 && forall v :: v in vals <==> v in Wanted(gameAtts, want, |want|)
    ensures Matches(gameAtts, vals, n, suffix) == if AgreesFrom(want, n, suffix) then Pow2(n - |Wanted(gameAtts, want, n)|) else 0
    decreases n
  {
    if n == 0 {
      var p := PieceOf(gameAtts, suffix);
      PieceCarries(gameAtts, want, suffix, |want|);
      assert HasAtts(p, Some(vals)) == AllCarried(p.atts, vals);
      assert forall m :: 0 <= m < |want| ==> want[0 + m] == want[m];
    } else {
      var before, after := Wanted(gameAtts, want, n - 1), Wanted(gameAtts, want, n);
      var chosen := want[n - 1].Some?;
      assert |after| == |before| + if chosen then 1 else 0;
      CountStep(|before|, |after|, n, chosen);
      var zeros, ones := [0 as Byte] + suffix, [1 as Byte] + suffix;
      assert IsBits(zeros) by {
        assert forall i :: 0 < i < |zeros| ==> zeros[i] == suffix[i - 1];
      }
      assert IsBits(ones) by {
        assert forall i :: 0 < i < |ones| ==> ones[i] == suffix[i - 1];
      }
      GenMatches(gameAtts, want, vals, n - 1, zeros);
      GenMatches(gameAtts, want, vals, n - 1, ones);
      AgreesStep(want, n, suffix, 0);
      AgreesStep(want, n, suffix, 1);
      HalvesAdd(Matches(gameAtts, vals, n - 1, zeros), Matches(gameAtts, vals, n - 1, ones), Pow2(n - 1 - |before|),
                AgreesFrom(want, n, suffix), want[n - 1]);
    }
  }

  /** The two branches of one level add up: both halves when the level is free, the chosen one otherwise. */
  lemma HalvesAdd(c0: int, c1: int, half: int, agree: bool, w: Option<Byte>)
    requires w.Some? ==> w.value == 0 || w.value == 1
    requires c0 == if agree && (w.Some? ==> w.value == 0) then half else 0
    requires c1 == if agree && (w.Some? ==> w.value == 1) then half else 0
    ensures c0 + c1 == if agree then (if w.Some? then half else 2 * half) else 0
  {
  }

  /** One more level doubles the count when its attribute is free, and keeps it when it is chosen. */
  lemma CountStep(before: nat, after: nat, n: nat, chosen: bool)
    requires 0 < n && before <= n - 1 && after == before + (if chosen then 1 else 0)
    ensures after <= n
    ensures Pow2(n - after) == if chosen then Pow2(n - 1 - before) else 2 * Pow2(n - 1 - before)
  {
  }

  /** Agreeing from attribute n - 1 on: the bit b agrees with the choice at n - 1, and the rest from n on. */
  lemma AgreesStep(want: seq<Option<Byte>>, n: nat, suffix: seq<Byte>, b: Byte)
    requires 0 < n && n + |suffix| == |want|
    ensures AgreesFrom(want, n - 1, [b] + suffix) <==>
      (want[n - 1].Some? ==> b == want[n - 1].value) && AgreesFrom(want, n, suffix)
  {
    var ext, m := [b] + suffix, n - 1;
    if AgreesFrom(want, m, ext) {
      assert ext[0] == b && want[m + 0] == want[n - 1];
      forall i | 0 <= i < |suffix| && want[n + i].Some? ensures suffix[i] == want[n + i].value {
        assert ext[i + 1] == suffix[i] && want[m + (i + 1)] == want[n + i];
      }
    }
    if AgreesFrom(want, n, suffix) && (want[n - 1].Some? ==> b == want[n - 1].value) {
      forall i | 0 <= i < |ext| && want[m + i].Some? ensures ext[i] == want[m + i].value {
        if i > 0 {
          assert ext[i] == suffix[i - 1] && want[m + i] == want[n + (i - 1)];
        }
      }
    }
  }

  /** Lists with the same elements, counted with multiplicity, have the same length and members. */
  lemma SameElements<T>(xs: seq<T>, ys: seq<T>)
    requires multiset(xs) == multiset(ys)
    ensures |xs| == |ys| && forall v :: v in xs <==> v in ys
  {
    assert |xs| == |multiset(xs)| && |ys| == |multiset(ys)|;
    forall v ensures v in xs <==> v in ys {
      assert v in xs <==> v in multiset(xs);
      assert v in ys <==> v in multiset(ys);
    }
  }

  /**
   * `findPieces` on the pieces of a new game, for j values taken from j
   * different attributes and listed in any order, finds 2^(k - j) pieces:
   * one for each choice of the other k - j attributes.
   */
  lemma FindPiecesInPool(gameAtts: seq<Option<Attribute>>, want: seq<Option<Byte>>, vals: seq<Att>)
    requires DisjointAttributes(gameAtts) && |want| == |gameAtts| && IsPattern(want)
    requires |vals| > 0 && multiset(vals) == multiset(Wanted(gameAtts, want, |want|))
    ensures |vals| <= |gameAtts| && |Rules.FindPieces(Pool(gameAtts), Some(vals))| == Pow2(|gameAtts| - |vals|)
  {
    var k, w := |gameAtts|, Wanted(gameAtts, want, |gameAtts|);
    SameElements(vals, w);
    PoolMatches(gameAtts, vals);
    GenMatches(gameAtts, want, vals, k, []);
    assert AgreesFrom(want, k, []);
    assert |vals| == |w| <= k;
  }

  /** `findPieces` on the whole pool keeps as many pieces as `Matches` counts from the top level. */
  lemma PoolMatches(gameAtts: seq<Option<Attribute>>, vals: seq<Att>)
    ensures |Rules.FindPieces(Pool(gameAtts), Some(vals))| == Matches(gameAtts, vals, |gameAtts|, [])
  {
    FindPiecesInGen(gameAtts, vals, |gameAtts|, []);
  }
}
