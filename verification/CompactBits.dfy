/**
 The compact 32-bit form of a 256-bit target, and the work a target stands for.
 */
module CompactBits {
  import opened Arithmetic
  import opened ArithUint256
  import opened ArithDivision

  const SIGN: nat := 0x80_0000

  type Word32 = x: nat | x < BASE

  // ----------------------------------------------------------------- decoding

  function Size(c: nat): nat { c / 0x100_0000 }

  predicate SignBit(c: nat) { c / SIGN % 2 == 1 }

  lemma Pow256(n: nat)
    ensures Pow(256, n) >= 1 && Pow(256, n + 1) == 256 * Pow(256, n)
  {
    PowPositive(256, n);
  }

  /** The mantissa after the shift that sizes below three ask for. */
  function Mantissa(c: nat): nat {
    if Size(c) <= 3 then ScaledDown(c % SIGN, 3 - Size(c)) else c % SIGN
  }

  /** The number a compact form stands for, before any wrap-around. */
  function Target(c: nat): nat {
    if Size(c) <= 3 then Mantissa(c) else ScaledUp(Mantissa(c), Size(c) - 3)
  }

  predicate IsNegative(c: nat) { Mantissa(c) != 0 && SignBit(c) }

  predicate Overflows(c: nat) {
    Mantissa(c) != 0
    && (Size(c) > 34 || (Mantissa(c) > 0xff && Size(c) > 33) || (Mantissa(c) > 0xffff && Size(c) > 32))
  }

  lemma {:induction false} BytesToBits(n: nat)
    ensures Pow(256, n) == Pow(2, 8 * n)
  {
    hide Pow;
    if n == 0 {
      PowZero256();
    } else {
      BytesToBits(n - 1);
      Pow256(n - 1);
      Pow8();
      PowAdd(2, 8, 8 * (n - 1));
    }
  }

  lemma PowZero256()
    ensures Pow(256, 0) == 1 == Pow(2, 0)
  {
  }

  lemma Pow8()
    ensures Pow(2, 8) == 256 && Pow(256, 1) == 256 && Pow(256, 2) == 0x1_0000 && Pow(256, 3) == 0x100_0000
  {
  }

  lemma ModulusBytes()
    ensures Modulus() == Pow(256, 32)
  {
    hide Pow, Modulus;
    ModulusIsPow();
    PowBase(WIDTH);
    BytesToBits(32);
  }

  /** The overflow flag is raised exactly for numbers that do not fit. */
  lemma OverflowExact(c: nat)
    ensures Overflows(c) <==> Target(c) >= Modulus()
  {
    hide Pow, Modulus, Mantissa, Size;
    ModulusBytes();
    MantissaSmall(c);
    Pow8();
    if Size(c) <= 3 {
      PowMono(256, 3, 32);
    } else {
      ScaledOverflow(Mantissa(c), Size(c) - 3);
    }
  }

  lemma ScaledOverflow(m: nat, e: nat)
    requires m < SIGN && e > 0
    ensures m * Pow(256, e) >= Pow(256, 32) <==>
            m != 0 && (e > 31 || (m > 0xff && e > 30) || (m > 0xffff && e > 29))
  {
    hide Pow;
    Pow8();
    PowZero256();
    if e <= 29 {
      PowMono(256, e, 29);
      PowAdd(256, 3, 29);
      PowPositive(256, 29);
      MulMono(m + 1, 0x100_0000, Pow(256, e));
      MulMono(Pow(256, e), Pow(256, 29), 0x100_0000);
      assert (m + 1) * Pow(256, e) == m * Pow(256, e) + Pow(256, e);
      PowPositive(256, e);
    } else if e <= 32 {
      PowAdd(256, e, 32 - e);
      PowPositive(256, e);
      ScaleCompare(m, Pow(256, 32 - e), Pow(256, e));
    } else {
      PowMono(256, 32, e);
      MulGrows(Pow(256, e), m);
      PowPositive(256, 32);
    }
  }

  lemma MantissaSmall(c: nat)
    ensures Mantissa(c) < SIGN
  {
    if Size(c) <= 3 {
      Pow256(3 - Size(c));
      QuotientAtMost(c % SIGN, Pow(256, 3 - Size(c)));
    }
  }

  lemma QuotientAtMost(x: nat, p: nat)
    requires p >= 1
    ensures 0 <= x / p <= x
  {
    var q := x / p;
    assert x == p * q + x % p;
    if q > 0 {
      MulMono(1, p, q);
    }
  }

  lemma ScaleCompare(m: nat, q: nat, p: nat)
    requires p >= 1
    ensures m * p >= p * q <==> m >= q
  {
    MulGrows(p, m - q);
    assert p * (m - q) == m * p - p * q;
  }

  /** Sets a number from its compact form. */
  method SetCompact(pn: array<Limb>, c: Word32) returns (negative: bool, overflow: bool)
    requires IsNumber(pn)
    modifies pn
    ensures Value(pn) == Target(c) % Modulus() && negative == IsNegative(c) && overflow == Overflows(c)
  {
    hide Pow, Modulus;
    var size := c / 0x100_0000;
    var word := c % SIGN;
    if size <= 3 {
      BytesToBits(3 - size);
      PowPositive(2, 8 * (3 - size));
      QuotientAtMost(word, Pow(2, 8 * (3 - size)));
      word := word / Pow(2, 8 * (3 - size));
      var n := FromUint64(word);
      Assign(pn, n);
      SmallFits(word);
    } else {
      var n := FromUint64(word);
      Assign(pn, n);
      BytesToBits(size - 3);
      ShiftLeft(pn, 8 * (size - 3));
    }
    negative := word != 0 && c / SIGN % 2 == 1;
    overflow := word != 0 && (size > 34 || (word > 0xff && size > 33) || (word > 0xffff && size > 32));
  }

  lemma SmallFits(x: nat)
    requires x < 0x100_0000
    ensures x % Modulus() == x
  {
    hide Pow, Modulus;
    ModulusBytes();
    Pow8();
    PowMono(256, 3, 32);
    DivUnique(x, Modulus(), 0, x);
  }

  // ----------------------------------------------------------------- encoding

  /** The number of bytes of a number. */
  function Bytes(v: nat): nat { if v == 0 then 0 else 1 + Bytes(v / 256) }

  lemma {:induction false} BytesBound(v: nat)
    requires v > 0
    ensures Bytes(v) > 0 && Pow(256, Bytes(v) - 1) <= v < Pow(256, Bytes(v))
  {
    if v >= 256 {
      BytesBound(v / 256);
    } else {
      Pow8();
    }
  }

  lemma {:induction false} BytesUnique(v: nat, n: nat)
    requires n > 0 && Pow(256, n - 1) <= v < Pow(256, n)
    ensures Bytes(v) == n
  {
    PowPositive(256, n - 1);
    if v < 256 {
      if n > 1 {
        PowMono(256, 1, n - 1);
        Pow8();
      }
    } else {
      if n == 1 {
        Pow8();
      }
      BytesUnique(v / 256, n - 1);
    }
  }

  lemma BitsToByteCount(v: nat, r: nat)
    requires HasBits(v, r)
    ensures (r + 7) / 8 == Bytes(v)
  {
    hide Pow;
    if v > 0 {
      var n := (r + 7) / 8;
      BytesToBits(n - 1);
      BytesToBits(n);
      PowMono(2, 8 * (n - 1), r - 1);
      PowMono(2, r, 8 * n);
      BytesUnique(v, n);
    }
  }

  /** The leading three bytes of a number. */
  function Leading(v: nat): nat {
    var n := Bytes(v);
    if n <= 3 then ScaledUp(v, 3 - n) else ScaledDown(v, n - 3)
  }

  function ScaledUp(v: nat, n: nat): nat {
    MulNonNegative(v, Pow(256, n));
    v * Pow(256, n)
  }

  function ScaledDown(v: nat, n: nat): nat {
    Pow256(n);
    v / Pow(256, n)
  }

  /** The mantissa and size, moved by a byte when the mantissa would reach the sign bit. */
  function Parts(v: nat): (nat, nat) {
    if SignBit(Leading(v)) then (Leading(v) / 256, Bytes(v) + 1) else (Leading(v), Bytes(v))
  }

  function Compact(v: nat, negative: bool): nat {
    var (m, n) := Parts(v);
    m + n * 0x100_0000 + if negative && m % SIGN != 0 then SIGN else 0
  }

  lemma LeadingRange(v: nat)
    requires v > 0
    ensures 0x1_0000 <= Leading(v) < 0x100_0000
    ensures Bytes(v) > 3 ==> Pow(256, Bytes(v) - 3) >= 1 && Leading(v) == v / Pow(256, Bytes(v) - 3)
  {
    hide Pow;
    var n := Bytes(v);
    BytesBound(v);
    Pow8();
    PowZero256();
    if n <= 3 {
      PowAdd(256, n - 1, 3 - n);
      PowAdd(256, n, 3 - n);
      var p := Pow(256, 3 - n);
      PowPositive(256, 3 - n);
      MulMono(Pow(256, n - 1), v, p);
      MulMono(v + 1, Pow(256, n), p);
      assert (v + 1) * p == v * p + p;
    } else {
      PowAdd(256, 2, n - 3);
      PowAdd(256, 3, n - 3);
      var p := Pow(256, n - 3);
      PowPositive(256, n - 3);
      QuotientBelow(v, 0x100_0000, p);
      ScaleQuotient(v, 0x1_0000, p);
    }
  }

  lemma ScaleQuotient(v: nat, a: nat, p: nat)
    requires p >= 1 && v >= a * p
    ensures v / p >= a
  {
    var q := v / p;
    assert v == p * q + v % p;
    MulGrows(p, q - a);
    assert p * (q - a) == p * q - a * p;
  }

  lemma DivDiv(v: nat, p: nat)
    requires p >= 1
    ensures v / p / 256 == v / (256 * p)
  {
    var q, r := v / p, v % p;
    var q', r' := q / 256, q % 256;
    assert v == p * q + r && q == 256 * q' + r';
    assert p * q == (256 * p) * q' + p * r';
    MulMono(r', 255, p);
    MulNonNegative(r', p);
    DivUnique(v, 256 * p, q', p * r' + r);
  }

  /** Small numbers keep all their bits; large ones keep at least fifteen. */
  lemma PartsMeaning(v: nat)
    requires v > 0
    ensures var (m, n) := Parts(v);
            && 0 < m < SIGN && n > 0
            && (n <= 3 ==> m == v * Pow(256, 3 - n))
            && (n > 3 ==> m >= 0x8000 && Pow(256, n - 3) >= 1 && m == v / Pow(256, n - 3))
  {
    hide Pow;
    LeadingRange(v);
    BytesBound(v);
    var n := Bytes(v);
    PowZero256();
    Pow8();
    if SignBit(Leading(v)) {
      assert Leading(v) >= SIGN;
      if n <= 2 {
        Pow256(2 - n);
        assert v * Pow(256, 3 - n) == 256 * (v * Pow(256, 2 - n));
      } else if n > 3 {
        Pow256(n - 3);
        DivDiv(v, Pow(256, n - 3));
      }
    }
  }

  lemma CompactFields(v: nat, negative: bool)
    requires v > 0
    ensures var c, p := Compact(v, negative), Parts(v);
            c % SIGN == p.0 && Size(c) == p.1 && SignBit(c) == negative
  {
    hide Pow, Parts;
    PartsMeaning(v);
    Fields(Parts(v).0, Parts(v).1, negative);
  }

  lemma Fields(m: nat, n: nat, sign: bool)
    requires 0 < m < SIGN
    ensures var c := m + n * 0x100_0000 + if sign && m % SIGN != 0 then SIGN else 0;
            c % SIGN == m && Size(c) == n && SignBit(c) == sign
  {
  }

  /** Decoding an encoded number gives it back rounded down to its leading bits. */
  lemma RoundedDown(v: nat, negative: bool)
    requires v > 0
    ensures var (m, n) := Parts(v);
            Target(Compact(v, negative)) == if n <= 3 then v else m * Pow(256, n - 3)
    ensures Mantissa(Compact(v, negative)) > 0
  {
    hide Pow;
    PartsMeaning(v);
    CompactFields(v, negative);
    var (m, n) := Parts(v);
    if n <= 3 {
      Pow256(3 - n);
      assert m == Pow(256, 3 - n) * v + 0;
      DivUnique(m, Pow(256, 3 - n), v, 0);
    }
  }

  /** Encoding loses less than one part in 32768, and encoding what is left gives the same compact form. */
  lemma CompactRounds(v: nat)
    requires 0 < v < Modulus()
    ensures var c := Compact(v, false);
            && !IsNegative(c) && !Overflows(c)
            && Target(c) <= v && (v - Target(c)) * 0x8000 < v
            && Compact(Target(c), false) == c
  {
    hide Pow, Modulus;
    PartsMeaning(v);
    RoundedDown(v, false);
    CompactFields(v, false);
    var (m, n) := Parts(v);
    if n > 3 {
      var p := Pow(256, n - 3);
      LosesLittle(v, m, p);
      SameParts(v);
    }
    OverflowExact(Compact(v, false));
  }

  lemma LosesLittle(v: nat, m: nat, p: nat)
    requires p >= 1 && m == v / p && m >= 0x8000
    ensures m * p <= v && (v - m * p) * 0x8000 < v
  {
    assert v == p * m + v % p;
    assert p * m == m * p;
    MulMono(0x8000, m, p);
  }

  lemma SameParts(v: nat)
    requires v > 0 && Parts(v).1 > 3
    ensures var (m, n) := Parts(v); Parts(m * Pow(256, n - 3)) == (m, n)
  {
    hide Pow;
    PartsMeaning(v);
    LeadingRange(v);
    var (m, n) := Parts(v);
    var p := Pow(256, n - 3);
    var w := m * p;
    Pow8();
    PowZero256();
    if SignBit(Leading(v)) {
      SameShifted(m, n);
    } else {
      PowAdd(256, 2, n - 3);
      PowAdd(256, 3, n - 3);
      MulMono(0x1_0000, m, p);
      MulMono(m + 1, 0x100_0000, p);
      assert (m + 1) * p == m * p + p;
      BytesUnique(w, n);
      assert w == p * m + 0;
      DivUnique(w, p, m, 0);
    }
  }

  lemma SameShifted(m: nat, n: nat)
    requires 0x8000 <= m < 0x1_0000 && n > 3
    ensures Parts(m * Pow(256, n - 3)) == (m, n)
  {
    hide Pow;
    var p, w := Pow(256, n - 3), m * Pow(256, n - 3);
    Pow8();
    PowZero256();
    PowPositive(256, n - 3);
    PowAdd(256, 1, n - 3);
    PowAdd(256, 2, n - 3);
    MulMono(0x100, m, p);
    MulMono(m + 1, 0x1_0000, p);
    assert (m + 1) * p == m * p + p;
    BytesUnique(w, n - 1);
    if n > 4 {
      Pow256(n - 4);
      var q := Pow(256, n - 4);
      assert w == q * (256 * m) + 0;
      DivUnique(w, q, 256 * m, 0);
    } else {
      Pow8();
    }
    assert Leading(w) == 256 * m;
    assert SignBit(256 * m);
  }

  /** A sign asked for is stored, except on zero. */
  lemma SignKept(v: nat)
    ensures v > 0 ==> IsNegative(Compact(v, true)) && Target(Compact(v, true)) == Target(Compact(v, false))
    ensures v == 0 ==> Compact(v, true) == Compact(v, false) == 0
  {
    hide Pow;
    if v > 0 {
      RoundedDown(v, true);
      RoundedDown(v, false);
      CompactFields(v, true);
    }
  }

  /** The two low limbs of a number. */
  method GetLow64(pn: array<Limb>) returns (r: nat)
    requires IsNumber(pn)
    ensures Value(pn) < BASE * BASE ==> r == Value(pn)
  {
    hide Pow;
    Base32();
    OrDisjoint(pn[0], pn[1], 32);
    r := Or(pn[0], pn[1] * BASE);
    ghost var s := pn[..];
    if Value(pn) < BASE * BASE {
      forall i | 2 <= i < WIDTH
        ensures s[i] == 0
      {
        if s[i] != 0 {
          NonZero(s, i, WIDTH);
          PowMono(BASE, 2, i);
          PowTwo();
        }
      }
      ValZeros(s, 2, WIDTH);
      PowTwo();
      ValStep(s, 1);
      ValStep(s, 0);
    }
  }

  lemma PowTwo()
    ensures Pow(BASE, 0) == 1 && Pow(BASE, 1) == BASE && Pow(BASE, 2) == BASE * BASE
  {
  }

  /** The compact form of a number. */
  method GetCompact(pn: array<Limb>, negative: bool) returns (c: nat)
    requires IsNumber(pn)
    ensures c == Compact(Value(pn), negative) < BASE
  {
    hide Pow, Modulus, HasBits, Parts, Leading, SignBit;
    ghost var v := Value(pn);
    var bits := BitLength(pn);
    BitsToByteCount(v, bits);
    var size := (bits + 7) / 8;
    c := LeadingBytes(pn, size);
    CompactOfZero();
    if v > 0 {
      PartsMeaning(v);
    }
    PartsAre(v);
    if c / SIGN % 2 == 1 {
      c := c / 256;
      size := size + 1;
    }
    assert c < SIGN && size < 256;
    SignIsClear(c, size);
    c := WithSize(c, size);
    c := WithSign(c, negative && c % SIGN != 0);
  }

  lemma PartsAre(v: nat)
    ensures Parts(v) == if Leading(v) / SIGN % 2 == 1 then (Leading(v) / 256, Bytes(v) + 1) else (Leading(v), Bytes(v))
  {
  }

  lemma CompactOfZero()
    ensures Parts(0) == (0, 0)
  {
  }

  lemma SignIsClear(m: nat, n: nat)
    requires m < SIGN
    ensures !SignBit(m + n * 0x100_0000) && (m + n * 0x100_0000) % SIGN == m == m % SIGN
  {
    DivUnique(m + n * 0x100_0000, SIGN, 2 * n, m);
  }

  /** The leading three bytes, by a shift either way. */
  method LeadingBytes(pn: array<Limb>, size: nat) returns (c: nat)
    requires IsNumber(pn) && size == Bytes(Value(pn))
    ensures c == Leading(Value(pn))
  {
    hide Pow, Modulus;
    ghost var v := Value(pn);
    if v > 0 {
      LeadingRange(v);
    }
    if size <= 3 {
      SmallNumber(v);
      var low := GetLow64(pn);
      BytesToBits(3 - size);
      c := low * Pow(2, 8 * (3 - size));
    } else {
      var bn := Copy(pn);
      BytesToBits(size - 3);
      ShiftRight(bn, 8 * (size - 3));
      c := GetLow64(bn);
    }
  }

  lemma SmallNumber(v: nat)
    requires Bytes(v) <= 3
    ensures v < 0x100_0000
  {
    if v > 0 {
      BytesBound(v);
      PowMono(256, Bytes(v), 3);
      Pow8();
    }
  }

  method WithSize(m: nat, size: nat) returns (c: nat)
    requires m < SIGN && size < 256
    ensures c == m + size * 0x100_0000
  {
    hide Pow;
    PowAdd(2, 8, 8);
    PowAdd(2, 16, 8);
    Pow8();
    OrDisjoint(m, size, 24);
    c := Or(m, size * 0x100_0000);
  }

  method WithSign(m: nat, sign: bool) returns (c: nat)
    requires !SignBit(m)
    ensures c == m + if sign then SIGN else 0
  {
    hide Pow;
    PowAdd(2, 8, 8);
    PowAdd(2, 16, 7);
    PowSeven();
    Pow8();
    OrBit(m, 23);
    c := Or(m, if sign then SIGN else 0);
  }

  lemma PowSeven()
    ensures Pow(2, 7) == 128
  {
  }

  /** Setting a bit that is clear adds it. */
  lemma {:induction false} OrBit(x: nat, n: nat)
    requires Pow(2, n) >= 1 ==> x / Pow(2, n) % 2 == 0
    ensures Or(x, Pow(2, n)) == x + Pow(2, n) && Or(x, 0) == x
  {
    PowPositive(2, n);
    if n > 0 && x > 0 {
      HalfQuotient(x, Pow(2, n - 1));
      OrBit(x / 2, n - 1);
    }
  }

  lemma HalfQuotient(x: nat, p: nat)
    ensures p >= 1 ==> x / (2 * p) == (x / 2) / p
  {
    if p >= 1 {
      var y := x / 2;
      var q, r := y / p, y % p;
      assert y == p * q + r;
      assert x == (2 * p) * q + (2 * r + x % 2);
      DivUnique(x, 2 * p, q, 2 * r + x % 2);
    }
  }

  // --------------------------------------------------------------- block proof

  /** A decoded target is never the largest number, so adding one does not wrap. */
  lemma TargetNotMaximal(c: nat)
    requires Target(c) < Modulus()
    ensures Target(c) + 1 < Modulus()
  {
    hide Pow, Modulus;
    ModulusBytes();
    Pow8();
    MantissaSmall(c);
    PowMono(256, 3, 32);
    if Size(c) > 3 {
      var p := Pow(256, Size(c) - 4);
      Pow256(Size(c) - 4);
      assert Target(c) == 256 * (Mantissa(c) * p);
      Pow256(31);
    }
  }

  lemma ProofQuotient(t: nat, modulus: nat)
    requires 0 < t && t + 1 < modulus
    ensures (modulus - 1 - t) / (t + 1) + 1 == modulus / (t + 1) < modulus
  {
    var d := t + 1;
    var q, r := (modulus - d) / d, (modulus - d) % d;
    assert modulus - d == d * q + r;
    assert modulus == d * (q + 1) + r;
    DivUnique(modulus, d, q + 1, r);
    MulMono(2, d, q + 1);
    assert q + 1 >= 0;
  }

  /** The work of a block: exactly 2 to the 256 divided by the target plus one, rounded down. */
  method GetBlockProof(nBits: Word32) returns (r: array<Limb>)
    ensures IsNumber(r)
    ensures Value(r) == if IsNegative(nBits) || Overflows(nBits) || Target(nBits) == 0 then 0
                        else Modulus() / (Target(nBits) + 1)
  {
    hide Pow, Modulus, Target, IsNegative, Overflows;
    var target := FromUint64(0);
    var negative, overflow := SetCompact(target, nBits);
    OverflowExact(nBits);
    ghost var t := Target(nBits);
    if t < Modulus() {
      DivUnique(t, Modulus(), 0, t);
      TargetNotMaximal(nBits);
    }
    var zero := IsZero(target);
    if negative || overflow || zero {
      r := FromUint64(0);
      return;
    }
    r := Complement(target);
    var one := FromUint64(1);
    Add(target, one);
    DivUnique(t + 1, Modulus(), 0, t + 1);
    var ok := Divide(r, target);
    ProofQuotient(t, Modulus());
    Add(r, one);
    DivUnique(Modulus() / (t + 1), Modulus(), 0, Modulus() / (t + 1));
  }
}
