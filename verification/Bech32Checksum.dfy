/**
 The checksum of Bech32: a running remainder over GF(32), packed in a 30-bit
 word.  Every step is linear over exclusive or, from which everything else
 about the checksum follows.
 */
module Bech32Checksum {
  type Word = bv32

  const LIMIT: Word := 0x4000_0000

  /** A list of 5-bit values. */
  type Data = seq<Word>

  ghost predicate FiveBits(v: Data) { forall i | 0 <= i < |v| :: v[i] < 32 }

  function Xor(a: Word, b: Word): Word { a ^ b }

  /** The coefficients that stay below x to the sixth, moved up by one place. */
  function Moved(c: Word): Word { (c & 0x1ff_ffff) << 5 }

  /** Whether a bit of the leading coefficient is set. */
  predicate Leading(c: Word, bit: Word) { (c >> 25) & bit != 0 }

  function Term(c: Word, bit: Word, k: Word): Word { if Leading(c, bit) then k else 0 }

  /** What the leading coefficient adds: its bits times the remainder of x to the sixth. */
  function Reduction(c: Word): Word {
    Xor(Xor(Xor(Xor(Term(c, 1, 0x3b6a_57b2), Term(c, 2, 0x2650_8e6d)), Term(c, 4, 0x1ea1_19fa)),
            Term(c, 8, 0x3d42_33dd)), Term(c, 16, 0x2a14_62b3))
  }

  /** The remainder times x. */
  function Shift(c: Word): Word { Xor(Moved(c), Reduction(c)) }

  function Step(c: Word, v: Word): Word { Xor(Shift(c), v) }

  function Run(c: Word, v: Data): Word {
    if v == [] then c else Step(Run(c, v[..|v| - 1]), v[|v| - 1])
  }

  function PolyMod(v: Data): Word { Run(1, v) }

  // ---------------------------------------------------------------- linearity

  lemma XorCommutes(a: Word, b: Word)
    ensures Xor(a, b) == Xor(b, a)
  {
  }

  lemma XorAssoc(a: Word, b: Word, c: Word)
    ensures Xor(Xor(a, b), c) == Xor(a, Xor(b, c))
  {
  }

  lemma XorSelf(a: Word)
    ensures Xor(a, a) == 0 && Xor(a, 0) == a && Xor(0, a) == a
  {
  }

  lemma XorZero(a: Word, b: Word)
    ensures Xor(a, b) == 0 <==> a == b
  {
  }

  lemma XorBelow(a: Word, b: Word)
    requires a < LIMIT && b < LIMIT
    ensures Xor(a, b) < LIMIT
  {
  }

  lemma XorSwap(a: Word, b: Word, c: Word, d: Word)
    ensures Xor(Xor(a, b), Xor(c, d)) == Xor(Xor(a, c), Xor(b, d))
  {
    hide Xor;
    XorAssoc(a, b, Xor(c, d));
    XorAssoc(b, c, d);
    XorCommutes(b, c);
    XorAssoc(c, b, d);
    XorAssoc(a, c, Xor(b, d));
  }

  lemma MovedLinear(a: Word, b: Word)
    ensures Moved(Xor(a, b)) == Xor(Moved(a), Moved(b))
  {
  }

  lemma LeadingLinear(a: Word, b: Word, bit: Word)
    requires bit == 1 || bit == 2 || bit == 4 || bit == 8 || bit == 16
    ensures Leading(Xor(a, b), bit) <==> Leading(a, bit) != Leading(b, bit)
  {
  }

  lemma TermLinear(a: Word, b: Word, bit: Word, k: Word)
    requires bit == 1 || bit == 2 || bit == 4 || bit == 8 || bit == 16
    ensures Term(Xor(a, b), bit, k) == Xor(Term(a, bit, k), Term(b, bit, k))
  {
    hide Xor, Leading;
    LeadingLinear(a, b, bit);
    XorSelf(k);
    XorSelf(0);
  }

  /** Terms that are linear one by one are linear in sum. */
  lemma SumLinear(s: Word, sa: Word, sb: Word, t: Word, ta: Word, tb: Word)
    requires s == Xor(sa, sb) && t == Xor(ta, tb)
    ensures Xor(s, t) == Xor(Xor(sa, ta), Xor(sb, tb))
  {
    hide Xor;
    XorSwap(sa, sb, ta, tb);
  }

  lemma ReductionLinear(a: Word, b: Word)
    ensures Reduction(Xor(a, b)) == Xor(Reduction(a), Reduction(b))
  {
    hide Xor, Term;
    var c := Xor(a, b);
    TermLinear(a, b, 1, 0x3b6a_57b2);
    TermLinear(a, b, 2, 0x2650_8e6d);
    TermLinear(a, b, 4, 0x1ea1_19fa);
    TermLinear(a, b, 8, 0x3d42_33dd);
    TermLinear(a, b, 16, 0x2a14_62b3);
    var s2, s2a, s2b := Pair(c), Pair(a), Pair(b);
    SumLinear(Term(c, 1, 0x3b6a_57b2), Term(a, 1, 0x3b6a_57b2), Term(b, 1, 0x3b6a_57b2),
              Term(c, 2, 0x2650_8e6d), Term(a, 2, 0x2650_8e6d), Term(b, 2, 0x2650_8e6d));
    SumLinear(s2, s2a, s2b, Term(c, 4, 0x1ea1_19fa), Term(a, 4, 0x1ea1_19fa), Term(b, 4, 0x1ea1_19fa));
    SumLinear(Triple(c), Triple(a), Triple(b), Term(c, 8, 0x3d42_33dd), Term(a, 8, 0x3d42_33dd),
              Term(b, 8, 0x3d42_33dd));
    SumLinear(Xor(Triple(c), Term(c, 8, 0x3d42_33dd)), Xor(Triple(a), Term(a, 8, 0x3d42_33dd)),
              Xor(Triple(b), Term(b, 8, 0x3d42_33dd)),
              Term(c, 16, 0x2a14_62b3), Term(a, 16, 0x2a14_62b3), Term(b, 16, 0x2a14_62b3));
  }

  ghost function Pair(c: Word): Word { Xor(Term(c, 1, 0x3b6a_57b2), Term(c, 2, 0x2650_8e6d)) }

  ghost function Triple(c: Word): Word { Xor(Pair(c), Term(c, 4, 0x1ea1_19fa)) }

  /** Multiplying by x is linear. */
  lemma ShiftLinear(a: Word, b: Word)
    ensures Shift(Xor(a, b)) == Xor(Shift(a), Shift(b))
  {
    hide Xor, Moved, Reduction;
    MovedLinear(a, b);
    ReductionLinear(a, b);
    SumLinear(Moved(Xor(a, b)), Moved(a), Moved(b), Reduction(Xor(a, b)), Reduction(a), Reduction(b));
  }

  /** Multiplying by x loses nothing. */
  lemma ShiftZero(c: Word)
    requires c < LIMIT
    ensures Shift(c) == 0 <==> c == 0
  {
  }

  lemma ShiftBelow(c: Word)
    ensures Shift(c) < LIMIT
  {
  }

  lemma ShiftSmall(c: Word)
    requires c < 0x200_0000
    ensures Shift(c) == c << 5
  {
  }

  // --------------------------------------------------------------------- runs

  lemma {:induction false} RunConcat(c: Word, a: Data, b: Data)
    ensures Run(c, a + b) == Run(Run(c, a), b)
    decreases |b|
  {
    hide Step;
    if b == [] {
      assert a + b == a;
    } else {
      var init := b[..|b| - 1];
      RunConcat(c, a, init);
      assert (a + b)[..|a + b| - 1] == a + init;
    }
  }

  function Diff(v: Data, w: Data): (r: Data)
    requires |v| == |w|
    ensures |r| == |v|
  {
    seq(|v|, i requires 0 <= i < |v| => Xor(v[i], w[i]))
  }

  lemma StepLinear(c: Word, d: Word, x: Word, y: Word)
    ensures Step(Xor(c, d), Xor(x, y)) == Xor(Step(c, x), Step(d, y))
  {
    hide Xor, Shift;
    ShiftLinear(c, d);
    XorSwap(Shift(c), Shift(d), x, y);
  }

  /** The difference of two runs is the run of the differences. */
  lemma {:induction false} RunLinear(c: Word, d: Word, v: Data, w: Data)
    requires |v| == |w|
    ensures Run(Xor(c, d), Diff(v, w)) == Xor(Run(c, v), Run(d, w))
    decreases |v|
  {
    hide Xor, Step;
    if v != [] {
      var n := |v| - 1;
      RunLinear(c, d, v[..n], w[..n]);
      assert Diff(v, w)[..n] == Diff(v[..n], w[..n]);
      StepLinear(Run(c, v[..n]), Run(d, w[..n]), v[n], w[n]);
    }
  }

  /** A run over five-bit values stays within 30 bits. */
  lemma {:induction false} RunBelow(c: Word, v: Data)
    requires c < LIMIT && FiveBits(v)
    ensures Run(c, v) < LIMIT
    decreases |v|
  {
    hide Xor, Shift;
    if v != [] {
      var n := |v| - 1;
      ShiftBelow(Run(c, v[..n]));
      XorBelow(Shift(Run(c, v[..n])), v[n]);
    }
  }

  ghost predicate Zeros(v: Data) { forall i | 0 <= i < |v| :: v[i] == 0 }

  /** Zeros keep a remainder zero or not zero. */
  lemma {:induction false} RunZeros(c: Word, v: Data)
    requires c < LIMIT && Zeros(v)
    ensures Run(c, v) < LIMIT && (Run(c, v) == 0 <==> c == 0)
    decreases |v|
  {
    hide Xor, Shift;
    if v != [] {
      var r := Run(c, v[..|v| - 1]);
      RunZeros(c, v[..|v| - 1]);
      ShiftZero(r);
      ShiftBelow(r);
      XorSelf(Shift(r));
    }
  }

  // ------------------------------------------------------------- packed values

  /** The bound on k packed five-bit values. */
  function Bound(k: nat): Word
    requires k <= 6
  {
    [1, 0x20, 0x400, 0x8000, 0x10_0000, 0x200_0000, 0x4000_0000][k]
  }

  function Append(c: Word, v: Word): Word { (c << 5) ^ v }

  lemma AppendBelow(c: Word, v: Word, k: nat)
    requires k < 6 && c < Bound(k) && v < 32
    ensures Append(c, v) < Bound(k + 1) && (Append(c, v) == 0 <==> c == 0 && v == 0)
  {
    if k == 0 {
    } else if k == 1 {
    } else if k == 2 {
    } else if k == 3 {
    } else if k == 4 {
    } else {
    }
  }

  lemma StepAppends(c: Word, v: Word, k: nat)
    requires k < 6 && c < Bound(k)
    ensures Step(c, v) == Append(c, v)
  {
    BoundsGrow(k);
    ShiftSmall(c);
  }

  lemma BoundsGrow(k: nat)
    requires k < 6
    ensures Bound(k) <= 0x200_0000
  {
  }

  function Packed(v: Data): Word {
    if v == [] then 0 else Append(Packed(v[..|v| - 1]), v[|v| - 1])
  }

  /** At most six values are not reduced: the remainder is the values side by side. */
  lemma {:induction false} RunPacks(v: Data)
    requires |v| <= 6 && FiveBits(v)
    ensures Run(0, v) == Packed(v) < Bound(|v|) && (Packed(v) == 0 <==> Zeros(v))
    decreases |v|
  {
    hide Step, Append, Bound;
    if v == [] {
      BoundZero();
    } else {
      var n := |v| - 1;
      var init := v[..n];
      RunPacks(init);
      StepAppends(Run(0, init), v[n], n);
      AppendBelow(Run(0, init), v[n], n);
      assert Zeros(v) <==> Zeros(init) && v[n] == 0 by {
        if Zeros(init) && v[n] == 0 {
          forall i | 0 <= i < |v|
            ensures v[i] == 0
          {
            assert i < n ==> init[i] == v[i];
          }
        }
      }
    }
  }

  lemma BoundZero()
    ensures 0 < Bound(0) && Bound(6) == LIMIT
  {
  }

  /** Five-bit group i of a 30-bit word, the highest first. */
  function Group(m: Word, i: nat): Word
    requires i < 6
  {
    if i == 0 then (m >> 25) & 31
    else if i == 1 then (m >> 20) & 31
    else if i == 2 then (m >> 15) & 31
    else if i == 3 then (m >> 10) & 31
    else if i == 4 then (m >> 5) & 31
    else m & 31
  }

  function Groups(m: Word): (r: Data)
    ensures |r| == 6 && forall i | 0 <= i < 6 :: r[i] == Group(m, i)
  {
    [Group(m, 0), Group(m, 1), Group(m, 2), Group(m, 3), Group(m, 4), Group(m, 5)]
  }

  function Six(a: Word, b: Word, c: Word, d: Word, e: Word, f: Word): Word {
    Append(Append(Append(Append(Append(Append(0, a), b), c), d), e), f)
  }

  lemma PackedSix(v: Data)
    requires |v| == 6
    ensures Packed(v) == Six(v[0], v[1], v[2], v[3], v[4], v[5])
  {
    hide Append;
    assert v[..5][..4] == v[..4] && v[..4][..3] == v[..3] && v[..3][..2] == v[..2] && v[..2][..1] == v[..1]
           && v[..1][..0] == [];
    assert Packed(v[..1]) == Append(0, v[0]);
    assert Packed(v[..2]) == Append(Packed(v[..1]), v[1]);
    assert Packed(v[..3]) == Append(Packed(v[..2]), v[2]);
    assert Packed(v[..4]) == Append(Packed(v[..3]), v[3]);
    assert Packed(v[..5]) == Append(Packed(v[..4]), v[4]);
  }

  lemma GroupsSix(m: Word)
    requires m < LIMIT
    ensures Six(Group(m, 0), Group(m, 1), Group(m, 2), Group(m, 3), Group(m, 4), Group(m, 5)) == m
  {
  }

  lemma SixGroups(a: Word, b: Word, c: Word, d: Word, e: Word, f: Word)
    requires a < 32 && b < 32 && c < 32 && d < 32 && e < 32 && f < 32
    ensures var m := Six(a, b, c, d, e, f);
            Group(m, 0) == a && Group(m, 1) == b && Group(m, 2) == c && Group(m, 3) == d && Group(m, 4) == e
            && Group(m, 5) == f
  {
  }

  lemma GroupSmall(m: Word, i: nat)
    requires i < 6
    ensures Group(m, i) < 32
  {
  }

  /** Splitting a word in groups and packing six values undo each other. */
  lemma GroupsPack(m: Word)
    requires m < LIMIT
    ensures Packed(Groups(m)) == m && FiveBits(Groups(m))
  {
    hide Group, Six, Packed;
    PackedSix(Groups(m));
    GroupsSix(m);
    forall i | 0 <= i < 6
      ensures Groups(m)[i] < 32
    {
      GroupSmall(m, i);
    }
  }

  lemma PackGroups(v: Data)
    requires |v| == 6 && FiveBits(v)
    ensures Groups(Packed(v)) == v
  {
    hide Group, Six, Packed;
    PackedSix(v);
    SixGroups(v[0], v[1], v[2], v[3], v[4], v[5]);
  }

  // ------------------------------------------------------------------ checksum

  const ZEROS: Data := [0, 0, 0, 0, 0, 0]

  /** The six values that make a list verify. */
  function Checksum(v: Data): Data { Groups(Xor(PolyMod(v + ZEROS), 1)) }

  predicate Verifies(v: Data) { PolyMod(v) == 1 }

  /** After any list, the remainder with six values appended is that of six zeros with the values added in. */
  lemma AppendSix(v: Data, c: Data)
    requires FiveBits(v) && |c| == 6 && FiveBits(c)
    ensures PolyMod(v + c) == Xor(PolyMod(v + ZEROS), Packed(c)) && PolyMod(v + ZEROS) < LIMIT
  {
    hide Xor, Packed, Run, Bound, Diff;
    var r := Run(1, v);
    RunConcat(1, v, c);
    RunConcat(1, v, ZEROS);
    RunLinear(r, r, ZEROS, c);
    XorSelf(r);
    DiffWithZeros(c);
    RunPacks(c);
    RunBelow(1, v);
    RunBelow(r, ZEROS);
    XorBack(Run(r, ZEROS), Run(r, c), Packed(c));
  }

  lemma DiffWithZeros(c: Data)
    requires |c| == 6
    ensures Diff(ZEROS, c) == c
  {
    hide Xor;
    forall i | 0 <= i < 6
      ensures Diff(ZEROS, c)[i] == c[i]
    {
      XorSelf(c[i]);
    }
  }

  lemma XorBack(a: Word, b: Word, p: Word)
    requires Xor(a, b) == p
    ensures b == Xor(a, p)
  {
    hide Xor;
    XorAssoc(a, a, b);
    XorSelf(a);
    XorSelf(b);
  }

  /** A list with its checksum verifies, and no other six values make it verify. */
  lemma ChecksumExact(v: Data, c: Data)
    requires FiveBits(v) && |c| == 6 && FiveBits(c)
    ensures Verifies(v + c) <==> c == Checksum(v)
  {
    hide Xor, Packed, PolyMod, Groups;
    var m := PolyMod(v + ZEROS);
    AppendSix(v, c);
    XorBelow(m, 1);
    GroupsPack(Xor(m, 1));
    if c == Checksum(v) {
      XorAssoc(m, m, 1);
      XorSelf(m);
      XorSelf(1);
    } else if Verifies(v + c) {
      XorBack(m, Packed(c), 1);
      PackGroups(c);
    }
  }

  lemma ChecksumFiveBits(v: Data)
    requires FiveBits(v)
    ensures FiveBits(Checksum(v)) && |Checksum(v)| == 6
  {
    hide Group;
    forall i | 0 <= i < 6
      ensures Checksum(v)[i] < 32
    {
      GroupSmall(Xor(PolyMod(v + ZEROS), 1), i);
    }
  }

  /** Two lists that differ only within six consecutive positions, and do differ, never both verify. */
  lemma BurstDetected(v: Data, w: Data, i: nat, n: nat)
    requires |v| == |w| && i + n <= |v| && n <= 6 && FiveBits(v[i..i + n]) && FiveBits(w[i..i + n])
    requires v != w && v[..i] == w[..i] && v[i + n..] == w[i + n..]
    ensures !(Verifies(v) && Verifies(w))
  {
    hide Xor, Run, Packed, Bound, Diff;
    var a, x, y, b := v[..i], v[i..i + n], w[i..i + n], v[i + n..];
    assert v == a + x + b && w == a + y + b;
    var r := Run(1, a);
    RunConcat(1, a + x, b);
    RunConcat(1, a + y, b);
    RunConcat(1, a, x);
    RunConcat(1, a, y);
    RunLinear(r, r, x, y);
    XorSelf(r);
    DiffFiveBits(x, y);
    RunPacks(Diff(x, y));
    DiffZero(x, y);
    var p, q := Run(r, x), Run(r, y);
    RunLinear(p, q, b, b);
    DiffSame(b);
    PackedBelow(Diff(x, y));
    RunZeros(Xor(p, q), Diff(b, b));
    XorZero(Run(p, b), Run(q, b));
  }

  lemma PackedBelow(v: Data)
    requires |v| <= 6 && Packed(v) < Bound(|v|)
    ensures Packed(v) < LIMIT
  {
    hide Packed;
  }

  lemma DiffFiveBits(x: Data, y: Data)
    requires |x| == |y| && FiveBits(x) && FiveBits(y)
    ensures FiveBits(Diff(x, y))
  {
    hide Xor;
    forall i | 0 <= i < |x|
      ensures Diff(x, y)[i] < 32
    {
      XorFive(x[i], y[i]);
    }
  }

  lemma XorFive(a: Word, b: Word)
    requires a < 32 && b < 32
    ensures Xor(a, b) < 32
  {
  }

  lemma DiffZero(x: Data, y: Data)
    requires |x| == |y|
    ensures Zeros(Diff(x, y)) <==> x == y
  {
    hide Xor;
    forall i | 0 <= i < |x|
      ensures Diff(x, y)[i] == 0 <==> x[i] == y[i]
    {
      XorZero(x[i], y[i]);
    }
    if Zeros(Diff(x, y)) {
      forall i | 0 <= i < |x|
        ensures x[i] == y[i]
      {
        assert Diff(x, y)[i] == 0;
      }
    }
  }

  lemma DiffSame(b: Data)
    ensures Zeros(Diff(b, b))
  {
    hide Xor;
    DiffZero(b, b);
  }
}
