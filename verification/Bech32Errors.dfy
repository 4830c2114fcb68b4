/**
 What the Bech32 checksum detects.  The generator was chosen such that it has
 three consecutive powers of an element of order 1023 of the field with 1024
 elements as roots; any three errors within 1023 positions therefore change
 the remainder.
 */
module Bech32Errors {
  import opened Bech32Checksum
  import opened Bech32Field

  // ---------------------------------------------------------------- evaluation

  /** The field element of a five-bit value. */
  function Embed(e: Word): Word {
    Xor(Xor(Xor(Xor(Bit(e, 1, 1), Bit(e, 2, 0xe)), Bit(e, 4, 0x54)), Bit(e, 8, 0x358)), Bit(e, 0x10, 0xbf))
  }

  lemma EmbedLinear(a: Word, b: Word)
    ensures Embed(Xor(a, b)) == Xor(Embed(a), Embed(b))
  {
    hide Xor, Bit;
    var c := Xor(a, b);
    BitLinear(a, b, 1, 1);
    BitLinear(a, b, 2, 0xe);
    BitLinear(a, b, 4, 0x54);
    BitLinear(a, b, 8, 0x358);
    BitLinear(a, b, 0x10, 0xbf);
    SumLinear(Bit(c, 1, 1), Bit(a, 1, 1), Bit(b, 1, 1), Bit(c, 2, 0xe), Bit(a, 2, 0xe), Bit(b, 2, 0xe));
    SumLinear(EmbedTwo(c), EmbedTwo(a), EmbedTwo(b), Bit(c, 4, 0x54), Bit(a, 4, 0x54), Bit(b, 4, 0x54));
    SumLinear(EmbedThree(c), EmbedThree(a), EmbedThree(b), Bit(c, 8, 0x358), Bit(a, 8, 0x358), Bit(b, 8, 0x358));
    SumLinear(Xor(EmbedThree(c), Bit(c, 8, 0x358)), Xor(EmbedThree(a), Bit(a, 8, 0x358)),
              Xor(EmbedThree(b), Bit(b, 8, 0x358)), Bit(c, 0x10, 0xbf), Bit(a, 0x10, 0xbf), Bit(b, 0x10, 0xbf));
  }

  ghost function EmbedTwo(e: Word): Word { Xor(Bit(e, 1, 1), Bit(e, 2, 0xe)) }

  ghost function EmbedThree(e: Word): Word { Xor(EmbedTwo(e), Bit(e, 4, 0x54)) }

  lemma EmbedField(e: Word)
    ensures Embed(e) < FIELD && (e < 32 ==> (Embed(e) == 0 <==> e == 0))
  {
  }

  /** The polynomial of a list of values at a power of the element of order 1023. */
  function Value(v: Data, s: nat): Word {
    if v == [] then 0 else Xor(Power(Value(v[..|v| - 1], s), s), Embed(v[|v| - 1]))
  }

  lemma {:induction false} ValueField(v: Data, s: nat)
    ensures Value(v, s) < FIELD
    decreases |v|
  {
    hide Xor, Power, Embed;
    if v != [] {
      var init := v[..|v| - 1];
      ValueField(init, s);
      PowerField(Value(init, s), s);
      EmbedField(v[|v| - 1]);
      XorField(Power(Value(init, s), s), Embed(v[|v| - 1]));
    }
  }

  lemma {:induction false} ValueLinear(v: Data, w: Data, s: nat)
    requires |v| == |w|
    ensures Value(Diff(v, w), s) == Xor(Value(v, s), Value(w, s))
    decreases |v|
  {
    hide Xor, Power, Embed;
    if v == [] {
      XorSelf(0);
    } else {
      var n := |v| - 1;
      ValueLinear(v[..n], w[..n], s);
      assert Diff(v, w)[..n] == Diff(v[..n], w[..n]);
      PowerLinear(Value(v[..n], s), Value(w[..n], s), s);
      EmbedLinear(v[n], w[n]);
      var a, b := Value(v[..n], s), Value(w[..n], s);
      SumLinear(Power(Xor(a, b), s), Power(a, s), Power(b, s), Embed(Xor(v[n], w[n])), Embed(v[n]), Embed(w[n]));
    }
  }

  lemma {:induction false} ValueConcat(v: Data, w: Data, s: nat)
    ensures Value(v + w, s) == Xor(Power(Value(v, s), s * |w|), Value(w, s))
    decreases |w|
  {
    hide Xor, Power, Embed;
    if w == [] {
      assert v + w == v && s * |w| == 0;
      PowerNone(Value(v, s));
      XorSelf(Value(v, s));
    } else {
      var n := |w| - 1;
      var a, b, e := Power(Value(v, s), s * n), Value(w[..n], s), Embed(w[n]);
      ValueConcat(v, w[..n], s);
      assert (v + w)[..|v + w| - 1] == v + w[..n];
      PowerLinear(a, b, s);
      PowerAdd(Value(v, s), s * n, s);
      assert s * n + s == s * |w|;
      XorAssoc(Power(a, s), Power(b, s), e);
    }
  }

  lemma PowerNone(v: Word)
    ensures Power(v, 0) == v
  {
  }

  lemma ValueOne(e: Word, s: nat)
    ensures Value([e], s) == Embed(e)
  {
    hide Xor, Power, Embed;
    assert [e][..0] == [];
    PowerField(0, s);
    XorSelf(Embed(e));
  }

  lemma {:induction false} ValueZeros(v: Data, s: nat)
    requires Zeros(v)
    ensures Value(v, s) == 0
    decreases |v|
  {
    hide Xor, Power, Embed;
    if v != [] {
      ValueZeros(v[..|v| - 1], s);
      PowerField(0, s);
      EmbedField(0);
      XorSelf(0);
    }
  }

  // ------------------------------------------------- evaluation of a remainder

  /** The value of the polynomial of a remainder. */
  ghost function Rest(c: Word, s: nat): Word { Value(Groups(c), s) }

  lemma GroupLinear(a: Word, b: Word, i: nat)
    requires i < 6
    ensures Group(Xor(a, b), i) == Xor(Group(a, i), Group(b, i))
  {
    if i == 0 {
    } else if i == 1 {
    } else if i == 2 {
    } else if i == 3 {
    } else if i == 4 {
    } else {
    }
  }

  lemma RestLinear(a: Word, b: Word, s: nat)
    ensures Rest(Xor(a, b), s) == Xor(Rest(a, s), Rest(b, s))
  {
    hide Xor, Group, Value;
    forall i | 0 <= i < 6
      ensures Groups(Xor(a, b))[i] == Diff(Groups(a), Groups(b))[i]
    {
      GroupLinear(a, b, i);
    }
    assert Groups(Xor(a, b)) == Diff(Groups(a), Groups(b));
    ValueLinear(Groups(a), Groups(b), s);
  }

  lemma RestZero(s: nat)
    ensures Rest(0, s) == 0
  {
    assert Zeros(Groups(0));
    hide Value, Group;
    ValueZeros(Groups(0), s);
  }

  lemma RestTerm(c: Word, bit: Word, k: Word, s: nat)
    ensures Rest(Term(c, bit, k), s) == if Leading(c, bit) then Rest(k, s) else 0
  {
    hide Rest;
    RestZero(s);
  }

  /** The remainder of x to the sixth has the value of the sixth power, once for each bit of the coefficient. */
  ghost predicate Root(s: nat) {
    && Rest(0x3b6a_57b2, s) == Power(1, 6 * s)
    && Rest(0x2650_8e6d, s) == Power(0xe, 6 * s)
    && Rest(0x1ea1_19fa, s) == Power(0x54, 6 * s)
    && Rest(0x3d42_33dd, s) == Power(0x358, 6 * s)
    && Rest(0x2a14_62b3, s) == Power(0xbf, 6 * s)
  }

  lemma LeadingBits(c: Word)
    ensures var g := Group(c, 0);
            && (Leading(c, 1) <==> g & 1 != 0) && (Leading(c, 2) <==> g & 2 != 0) && (Leading(c, 4) <==> g & 4 != 0)
            && (Leading(c, 8) <==> g & 8 != 0) && (Leading(c, 16) <==> g & 0x10 != 0)
  {
  }

  lemma RestReduction(c: Word, s: nat)
    requires Root(s)
    ensures Rest(Reduction(c), s) == Power(Embed(Group(c, 0)), 6 * s)
  {
    hide Xor, Power, Rest, Leading, Group;
    var g, n := Group(c, 0), 6 * s;
    LeadingBits(c);
    RestTerm(c, 1, 0x3b6a_57b2, s);
    RestTerm(c, 2, 0x2650_8e6d, s);
    RestTerm(c, 4, 0x1ea1_19fa, s);
    RestTerm(c, 8, 0x3d42_33dd, s);
    RestTerm(c, 16, 0x2a14_62b3, s);
    PowerBit(g, 1, 1, n);
    PowerBit(g, 2, 0xe, n);
    PowerBit(g, 4, 0x54, n);
    PowerBit(g, 8, 0x358, n);
    PowerBit(g, 0x10, 0xbf, n);
    var t1, b1 := Term(c, 1, 0x3b6a_57b2), Bit(g, 1, 1);
    RestLinear(t1, Term(c, 2, 0x2650_8e6d), s);
    PowerLinear(b1, Bit(g, 2, 0xe), n);
    var t2, b2 := Xor(t1, Term(c, 2, 0x2650_8e6d)), Xor(b1, Bit(g, 2, 0xe));
    RestLinear(t2, Term(c, 4, 0x1ea1_19fa), s);
    PowerLinear(b2, Bit(g, 4, 0x54), n);
    var t3, b3 := Xor(t2, Term(c, 4, 0x1ea1_19fa)), Xor(b2, Bit(g, 4, 0x54));
    RestLinear(t3, Term(c, 8, 0x3d42_33dd), s);
    PowerLinear(b3, Bit(g, 8, 0x358), n);
    var t4, b4 := Xor(t3, Term(c, 8, 0x3d42_33dd)), Xor(b3, Bit(g, 8, 0x358));
    RestLinear(t4, Term(c, 16, 0x2a14_62b3), s);
    PowerLinear(b4, Bit(g, 0x10, 0xbf), n);
  }

  /** The groups but the first, with a value behind them. */
  function Next(c: Word, x: Word): (r: Data)
    ensures |r| == 6
  {
    [Group(c, 1), Group(c, 2), Group(c, 3), Group(c, 4), Group(c, 5), x]
  }

  lemma GroupMoved(c: Word, i: nat)
    requires i < 6
    ensures Group(Moved(c), i) == if i < 5 then Group(c, i + 1) else 0
  {
    if i == 0 {
    } else if i == 1 {
    } else if i == 2 {
    } else if i == 3 {
    } else if i == 4 {
    } else {
    }
  }

  lemma GroupValue(x: Word, i: nat)
    requires i < 6 && x < 32
    ensures Group(x, i) == if i < 5 then 0 else x
  {
  }

  lemma GroupOfStep(c: Word, x: Word, i: nat)
    requires x < 32 && i < 6
    ensures Group(Step(c, x), i) == Xor(Next(c, x)[i], Group(Reduction(c), i))
  {
    hide Xor, Group, Moved, Reduction;
    var m, r := Group(Moved(c), i), Group(Reduction(c), i);
    GroupLinear(Xor(Moved(c), Reduction(c)), x, i);
    GroupLinear(Moved(c), Reduction(c), i);
    GroupMoved(c, i);
    GroupValue(x, i);
    if i < 5 {
      XorSelf(Xor(m, r));
    } else {
      XorSelf(r);
      XorCommutes(r, x);
    }
  }

  lemma GroupsOfStep(c: Word, x: Word)
    requires x < 32
    ensures Groups(Step(c, x)) == Diff(Next(c, x), Groups(Reduction(c)))
  {
    hide Xor, Group, Step, Reduction, Next;
    forall i | 0 <= i < 6
      ensures Groups(Step(c, x))[i] == Diff(Next(c, x), Groups(Reduction(c)))[i]
    {
      GroupOfStep(c, x, i);
    }
  }

  lemma GroupsThen(c: Word, x: Word)
    ensures Groups(c) + [x] == [Group(c, 0)] + Next(c, x)
  {
    hide Group;
  }

  /** A step on the remainder is a step of the evaluation. */
  lemma RestStep(c: Word, x: Word, s: nat)
    requires x < 32 && Root(s)
    ensures Rest(Step(c, x), s) == Xor(Power(Rest(c, s), s), Embed(x))
  {
    hide Xor, Power, Embed, Group, Value, Step, Reduction, Root, Diff, Groups, Next;
    var g, u := Group(c, 0), Next(c, x);
    var red := Rest(Reduction(c), s);
    GroupsOfStep(c, x);
    ValueLinear(u, Groups(Reduction(c)), s);
    RestReduction(c, s);
    GroupsThen(c, x);
    ValueConcat(Groups(c), [x], s);
    ValueOne(x, s);
    assert s * |[x]| == s;
    ValueConcat([g], u, s);
    ValueOne(g, s);
    assert s * |u| == 6 * s;
    XorCommutes(red, Value(u, s));
  }

  /** The remainder of a list has the same value as the list. */
  lemma {:induction false} ValueIsRest(v: Data, s: nat)
    requires FiveBits(v) && Root(s)
    ensures Value(v, s) == Rest(Run(0, v), s)
    decreases |v|
  {
    hide Xor, Power, Embed, Rest, Step, Root;
    if v == [] {
      RestZero(s);
    } else {
      var n := |v| - 1;
      ValueIsRest(v[..n], s);
      RestStep(Run(0, v[..n]), v[n], s);
    }
  }

  // ------------------------------------------------------------- the generator

  /** The value of six groups, written out with the images of multiplication by the power. */
  function Horner(c: Word, m: Images): Word {
    Xor(Ten(Xor(Ten(Xor(Ten(Xor(Ten(Xor(Ten(Embed(Group(c, 0)), m), Embed(Group(c, 1))), m), Embed(Group(c, 2))), m),
                        Embed(Group(c, 3))), m), Embed(Group(c, 4))), m), Embed(Group(c, 5)))
  }

  function SixTimes(v: Word, m: Images): Word { Ten(Ten(Ten(Ten(Ten(Ten(v, m), m), m), m), m), m) }

  lemma ValueAt(g: Data, k: nat, s: nat, m: Images)
    requires k < |g| && Powers(s, m)
    ensures Value(g[..k + 1], s) == Xor(Ten(Value(g[..k], s), m), Embed(g[k]))
  {
    hide Xor, Power, Embed, Ten, Powers;
    assert g[..k + 1][..k] == g[..k];
    ValueField(g[..k], s);
    PowerTen(Value(g[..k], s), s, m);
  }

  lemma RestHorner(c: Word, s: nat, m: Images)
    requires Powers(s, m)
    ensures Rest(c, s) == Horner(c, m)
  {
    hide Xor, Embed, Ten, Powers, Group, Value;
    var g := Groups(c);
    ValueAt(g, 1, s, m);
    ValueAt(g, 2, s, m);
    ValueAt(g, 3, s, m);
    ValueAt(g, 4, s, m);
    ValueAt(g, 5, s, m);
    assert g[..1] == [g[0]] && g[..6] == g;
    ValueOne(g[0], s);
  }

  lemma PowerSix(v: Word, s: nat, m: Images)
    requires v < FIELD && Powers(s, m)
    ensures Power(v, 6 * s) == SixTimes(v, m)
  {
    hide Power, Ten, Powers;
    PowerMultiple(v, 0, s, m);
    var v1 := Power(v, s);
    var v2 := Power(v, 2 * s);
    var v3 := Power(v, 3 * s);
    var v4 := Power(v, 4 * s);
    var v5 := Power(v, 5 * s);
    PowerMultiple(v, 1, s, m);
    PowerMultiple(v, 2, s, m);
    PowerMultiple(v, 3, s, m);
    PowerMultiple(v, 4, s, m);
    PowerMultiple(v, 5, s, m);
    PowerNone(v);
    assert 0 * s == 0;
  }

  lemma PowerMultiple(v: Word, k: nat, s: nat, m: Images)
    requires v < FIELD && Powers(s, m)
    ensures Power(v, (k + 1) * s) == Ten(Power(v, k * s), m)
  {
    hide Power, Ten, Powers;
    PowerField(v, k * s);
    PowerTen(Power(v, k * s), s, m);
    PowerAdd(v, k * s, s);
    assert k * s + s == (k + 1) * s;
  }

  // ------------------------------------------------------- the other multiples

  /** Twice a five-bit value, in the field with 32 elements. */
  function Double(e: Word): Word { Xor((e & 0xf) << 1, Bit(e, 0x10, 9)) }

  lemma EmbedDouble(e: Word)
    requires e < 32
    ensures Embed(Double(e)) == Ten(Embed(e), M924)
  {
  }

  lemma {:induction false} ValueDouble(v: Data, w: Data, s: nat)
    requires |v| == |w| && FiveBits(v) && forall i | 0 <= i < |v| :: w[i] == Double(v[i])
    ensures Value(w, s) == Power(Value(v, s), 924)
    decreases |v|
  {
    hide Xor, Power, Embed, Double, Ten, Powers;
    if v == [] {
      PowerField(0, 924);
    } else {
      var n := |v| - 1;
      var a, e := Value(v[..n], s), Embed(v[n]);
      ValueDouble(v[..n], w[..n], s);
      PowerLinear(Power(a, s), e, 924);
      PowerAdd(a, s, 924);
      PowerAdd(a, 924, s);
      assert s + 924 == 924 + s;
      EmbedDouble(v[n]);
      EmbedField(v[n]);
      Powers924();
      PowerTen(e, 924, M924);
    }
  }

  ghost predicate Doubled(c: Word, d: Word) { forall i: nat | i < 6 :: Group(d, i) == Double(Group(c, i)) }

  lemma RestDouble(c: Word, d: Word, s: nat)
    requires Doubled(c, d)
    ensures Rest(d, s) == Power(Rest(c, s), 924)
  {
    hide Group, Double, Value, Power;
    forall i | 0 <= i < 6
      ensures Groups(c)[i] < 32
    {
      GroupSmall(c, i);
    }
    ValueDouble(Groups(c), Groups(d), s);
  }

  lemma GeneratorDoubles()
    ensures Doubled(0x3b6a_57b2, 0x2650_8e6d) && Doubled(0x2650_8e6d, 0x1ea1_19fa)
    ensures Doubled(0x1ea1_19fa, 0x3d42_33dd) && Doubled(0x3d42_33dd, 0x2a14_62b3)
  {
    hide Group, Double;
    GeneratorParts();
    DoubleParts();
  }

  lemma GeneratorParts()
    ensures Group(0x3b6a_57b2, 0) == 29 && Group(0x3b6a_57b2, 1) == 22 && Group(0x3b6a_57b2, 2) == 20
    ensures Group(0x3b6a_57b2, 3) == 21 && Group(0x3b6a_57b2, 4) == 29 && Group(0x3b6a_57b2, 5) == 18
    ensures Group(0x2650_8e6d, 0) == 19 && Group(0x2650_8e6d, 1) == 5 && Group(0x2650_8e6d, 2) == 1
    ensures Group(0x2650_8e6d, 3) == 3 && Group(0x2650_8e6d, 4) == 19 && Group(0x2650_8e6d, 5) == 13
    ensures Group(0x1ea1_19fa, 0) == 15 && Group(0x1ea1_19fa, 1) == 10 && Group(0x1ea1_19fa, 2) == 2
    ensures Group(0x1ea1_19fa, 3) == 6 && Group(0x1ea1_19fa, 4) == 15 && Group(0x1ea1_19fa, 5) == 26
    ensures Group(0x3d42_33dd, 0) == 30 && Group(0x3d42_33dd, 1) == 20 && Group(0x3d42_33dd, 2) == 4
    ensures Group(0x3d42_33dd, 3) == 12 && Group(0x3d42_33dd, 4) == 30 && Group(0x3d42_33dd, 5) == 29
    ensures Group(0x2a14_62b3, 0) == 21 && Group(0x2a14_62b3, 1) == 1 && Group(0x2a14_62b3, 2) == 8
    ensures Group(0x2a14_62b3, 3) == 24 && Group(0x2a14_62b3, 4) == 21 && Group(0x2a14_62b3, 5) == 19
  {
  }

  lemma DoubleParts()
    ensures Double(1) == 2 && Double(2) == 4 && Double(3) == 6 && Double(4) == 8 && Double(5) == 10 && Double(6) == 12
    ensures Double(10) == 20 && Double(12) == 24 && Double(13) == 26
    ensures Double(15) == 30 && Double(18) == 13 && Double(19) == 15
    ensures Double(20) == 1 && Double(21) == 3 && Double(22) == 5
    ensures Double(26) == 29 && Double(29) == 19 && Double(30) == 21
  {
  }

  lemma UnitDoubles()
    ensures Power(1, 924) == 0xe && Power(0xe, 924) == 0x54 && Power(0x54, 924) == 0x358 && Power(0x358, 924) == 0xbf
  {
    hide Power, Powers, Ten;
    Powers924();
    DoubleValues();
    PowerTen(1, 924, M924);
    PowerTen(0xe, 924, M924);
    PowerTen(0x54, 924, M924);
    PowerTen(0x358, 924, M924);
  }

  lemma DoubleValues()
    ensures Ten(1, M924) == 0xe && Ten(0xe, M924) == 0x54 && Ten(0x54, M924) == 0x358 && Ten(0x358, M924) == 0xbf
  {
  }

  lemma PowersSwap(v: Word, m: nat, n: nat)
    ensures Power(Power(v, m), n) == Power(Power(v, n), m)
  {
    hide Power;
    PowerAdd(v, m, n);
    PowerAdd(v, n, m);
    assert m + n == n + m;
  }

  /** What holds for the remainder of x to the sixth holds for its multiples. */
  lemma RootFrom(s: nat)
    requires Rest(0x3b6a_57b2, s) == Power(1, 6 * s)
    ensures Root(s)
  {
    hide Rest, Power, Doubled;
    GeneratorDoubles();
    UnitDoubles();
    RestDouble(0x3b6a_57b2, 0x2650_8e6d, s);
    RestDouble(0x2650_8e6d, 0x1ea1_19fa, s);
    RestDouble(0x1ea1_19fa, 0x3d42_33dd, s);
    RestDouble(0x3d42_33dd, 0x2a14_62b3, s);
    PowersSwap(1, 6 * s, 924);
    PowersSwap(0xe, 6 * s, 924);
    PowersSwap(0x54, 6 * s, 924);
    PowersSwap(0x358, 6 * s, 924);
  }

  // -------------------------------------------------------------- the roots

  lemma GeneratorGroups()
    ensures Embed(Group(0x3b6a_57b2, 0)) == 0x3b2 && Embed(Group(0x3b6a_57b2, 1)) == 0xe5
    ensures Embed(Group(0x3b6a_57b2, 2)) == 0xeb
    ensures Embed(Group(0x3b6a_57b2, 3)) == 0xea && Embed(Group(0x3b6a_57b2, 4)) == 0x3b2
    ensures Embed(Group(0x3b6a_57b2, 5)) == 0xb1
  {
  }

  lemma Root24Values()
    ensures Ten(0x3b2, M24) == 0x98 && Ten(0x7d, M24) == 0x96
    ensures Ten(0x7c, M24) == 0x366 && Ten(0xd4, M24) == 0x20b
    ensures Ten(1, M24) == 0x3f0 && Ten(0x3f0, M24) == 0x24d && Ten(0x24d, M24) == 0x2b9
    ensures Ten(0x2b9, M24) == 0xb9 && Ten(0xb9, M24) == 0x9 && Ten(0x9, M24) == 0x2ba
  {
  }

  lemma Root24()
    ensures Root(24)
  {
    hide Rest, Power, Powers, Ten, Embed, Group;
    Powers24();
    GeneratorGroups();
    Root24Values();
    RestHorner(0x3b6a_57b2, 24, M24);
    PowerSix(1, 24, M24);
    RootFrom(24);
  }

  lemma Root25Values()
    ensures Ten(0x3b2, M25) == 0x130 && Ten(0x1d5, M25) == 0x346 && Ten(0x3ad, M25) == 0x83
    ensures Ten(0x69, M25) == 0x6d && Ten(0x3df, M25) == 0x17
    ensures Ten(1, M25) == 0x2c3 && Ten(0x2c3, M25) == 0x372 && Ten(0x372, M25) == 0x144
    ensures Ten(0x144, M25) == 0x1d6 && Ten(0x1d6, M25) == 0x120 && Ten(0x120, M25) == 0xa6
  {
  }

  lemma Root25()
    ensures Root(25)
  {
    hide Rest, Power, Powers, Ten, Embed, Group;
    Powers25();
    GeneratorGroups();
    Root25Values();
    RestHorner(0x3b6a_57b2, 25, M25);
    PowerSix(1, 25, M25);
    RootFrom(25);
  }

  lemma Root26Values()
    ensures Ten(0x3b2, M26) == 0x260 && Ten(0x285, M26) == 0x41 && Ten(0xaa, M26) == 0x1dd
    ensures Ten(0x137, M26) == 0x221 && Ten(0x193, M26) == 0x29
    ensures Ten(1, M26) == 0xa5 && Ten(0xa5, M26) == 0x2ad && Ten(0x2ad, M26) == 0x66
    ensures Ten(0x66, M26) == 0x3aa && Ten(0x3aa, M26) == 0x27d && Ten(0x27d, M26) == 0x98
  {
  }

  lemma Root26()
    ensures Root(26)
  {
    hide Rest, Power, Powers, Ten, Embed, Group;
    Powers26();
    GeneratorGroups();
    Root26Values();
    RestHorner(0x3b6a_57b2, 26, M26);
    PowerSix(1, 26, M26);
    RootFrom(26);
  }

  // -------------------------------------------------------------- three errors

  /** A field element times the power of a root for a distance. */
  function Far(x: Word, s: nat, p: nat): Word { Power(x, s * p) }

  lemma FarLinear(x: Word, y: Word, s: nat, p: nat)
    ensures Far(Xor(x, y), s, p) == Xor(Far(x, s, p), Far(y, s, p))
  {
    hide Xor, Power;
    PowerLinear(x, y, s * p);
  }

  lemma FarPlus(x: Word, s: nat, p: nat, q: nat)
    ensures Far(Far(x, s, p), s, q) == Far(x, s, p + q)
  {
    hide Power;
    PowerAdd(x, s * p, s * q);
    assert s * p + s * q == s * (p + q);
  }

  lemma FarZero(x: Word, s: nat, p: nat)
    requires x < FIELD
    ensures Far(x, s, p) < FIELD && (Far(x, s, p) == 0 <==> x == 0)
  {
    hide Power;
    PowerField(x, s * p);
  }

  lemma FarMore(x: Word, p: nat)
    ensures Far(x, 25, p) == Power(Far(x, 24, p), p) && Far(x, 26, p) == Power(Far(x, 24, p), 2 * p)
  {
    hide Power;
    PowerAdd(x, 24 * p, p);
    PowerAdd(x, 24 * p, 2 * p);
  }

  lemma ValueLast(zeros: Data, e: Word, s: nat)
    requires Zeros(zeros)
    ensures Value(zeros + [e], s) == Embed(e)
  {
    hide Xor, Power, Embed, Value;
    ValueConcat(zeros, [e], s);
    ValueZeros(zeros, s);
    ValueOne(e, s);
    PowerField(0, s * 1);
    XorSelf(Embed(e));
  }

  /** The value of a list up to a position, from that up to an earlier one, with only zeros between. */
  lemma ValueUpTo(v: Data, i: nat, j: nat, s: nat, gap: nat)
    requires i < j < |v| && gap == j - i && forall k | i < k < j :: v[k] == 0
    ensures Value(v[..j + 1], s) == Xor(Far(Value(v[..i + 1], s), s, gap), Embed(v[j]))
  {
    hide Xor, Power, Embed, Value;
    var more := v[i + 1..j] + [v[j]];
    assert v[..j + 1] == v[..i + 1] + more;
    ValueConcat(v[..i + 1], more, s);
    ValueLast(v[i + 1..j], v[j], s);
  }

  lemma ValueEnd(v: Data, j: nat, s: nat, gap: nat)
    requires j < |v| && gap == |v| - 1 - j && forall k | j < k < |v| :: v[k] == 0
    ensures Value(v, s) == Far(Value(v[..j + 1], s), s, gap)
  {
    hide Xor, Power, Embed, Value;
    var rest := v[j + 1..];
    assert v == v[..j + 1] + rest;
    ValueConcat(v[..j + 1], rest, s);
    assert Zeros(rest);
    ValueZeros(rest, s);
    XorSelf(Far(Value(v[..j + 1], s), s, gap));
  }

  /** A list that is zero but at three positions. */
  ghost predicate OnlyAt(v: Data, a: nat, b: nat, c: nat) {
    a < b < c < |v| && forall i | 0 <= i < |v| && i != a && i != b && i != c :: v[i] == 0
  }

  /** The value of such a list: each of the three at its distance from the end. */
  lemma ValueThree(v: Data, a: nat, b: nat, c: nat, s: nat, p: nat, q: nat, r: nat)
    requires OnlyAt(v, a, b, c) && p == |v| - 1 - c && q == |v| - 1 - b && r == |v| - 1 - a
    ensures Value(v, s) == Xor(Xor(Far(Embed(v[c]), s, p), Far(Embed(v[b]), s, q)), Far(Embed(v[a]), s, r))
  {
    hide Xor, Far, Embed, Value;
    var x, y, z := Embed(v[a]), Embed(v[b]), Embed(v[c]);
    assert v[..a + 1] == v[..a] + [v[a]];
    ValueLast(v[..a], v[a], s);
    ValueUpTo(v, a, b, s, b - a);
    ValueUpTo(v, b, c, s, c - b);
    ValueEnd(v, c, s, p);
    FarLinear(Far(x, s, b - a), y, s, c - b);
    FarPlus(x, s, b - a, c - b);
    var x2, y2 := Far(x, s, c - a), Far(y, s, c - b);
    FarLinear(Xor(x2, y2), z, s, p);
    FarLinear(x2, y2, s, p);
    FarPlus(x, s, c - a, p);
    FarPlus(y, s, c - b, p);
    XorReverse(Far(x, s, r), Far(y, s, q), Far(z, s, p));
  }

  lemma XorReverse(a: Word, b: Word, c: Word)
    ensures Xor(Xor(a, b), c) == Xor(Xor(c, b), a)
  {
    hide Xor;
    XorCommutes(Xor(a, b), c);
    XorCommutes(a, b);
    XorAssoc(c, b, a);
  }

  /** A list with the value zero at the three roots is zero if at most three of its values, close enough, are not. */
  lemma ThreeRoots(v: Data, a: nat, b: nat, c: nat)
    requires OnlyAt(v, a, b, c) && FiveBits(v) && c < a + 1023
    requires Value(v, 24) == 0 && Value(v, 25) == 0 && Value(v, 26) == 0
    ensures v[a] == 0 && v[b] == 0 && v[c] == 0
  {
    hide Xor, Power, Far, Embed, Value;
    var p, q, r := |v| - 1 - c, |v| - 1 - b, |v| - 1 - a;
    var x, y, z := Embed(v[c]), Embed(v[b]), Embed(v[a]);
    EmbedField(v[a]);
    EmbedField(v[b]);
    EmbedField(v[c]);
    FarZero(x, 24, p);
    FarZero(y, 24, q);
    FarZero(z, 24, r);
    ValueThree(v, a, b, c, 24, p, q, r);
    ValueThree(v, a, b, c, 25, p, q, r);
    ValueThree(v, a, b, c, 26, p, q, r);
    FarMore(x, p);
    FarMore(y, q);
    FarMore(z, r);
    Vandermonde(Far(x, 24, p), Far(y, 24, q), Far(z, 24, r), p, q, r);
  }

  /** Two lists that agree but at three positions, all within a window of 1023, and that both verify are the same. */
  lemma ThreeErrorsDetected(v: Data, w: Data, a: nat, b: nat, c: nat)
    requires |v| == |w| && FiveBits(v) && FiveBits(w) && a < b < c < |v| && c < a + 1023
    requires forall i | 0 <= i < |v| && i != a && i != b && i != c :: v[i] == w[i]
    requires Verifies(v) && Verifies(w)
    ensures v == w
  {
    hide Xor, Run, Value, Root;
    var d := Diff(v, w);
    RunLinear(1, 1, v, w);
    XorSelf(1);
    DiffFiveBits(v, w);
    forall i | 0 <= i < |v|
      ensures d[i] == 0 <==> v[i] == w[i]
    {
      XorZero(v[i], w[i]);
    }
    Vanishes(d, 24);
    Vanishes(d, 25);
    Vanishes(d, 26);
    ThreeRoots(d, a, b, c);
  }

  lemma Vanishes(d: Data, s: nat)
    requires FiveBits(d) && Run(0, d) == 0 && 24 <= s <= 26
    ensures Value(d, s) == 0
  {
    hide Run, Value, Root, Rest;
    Root24();
    Root25();
    Root26();
    ValueIsRest(d, s);
    RestZero(s);
  }
}
