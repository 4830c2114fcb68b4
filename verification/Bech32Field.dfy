/**
 The field with 1024 elements, as far as the Bech32 checksum needs it:
 multiplication by an element of order 1023, a linear map on 10-bit words, and
 its powers.  They have the order they should, and sums weighted by the powers
 of three different positions vanish only for zero.
 */
module Bech32Field {
  import opened Bech32Checksum

  const FIELD: Word := 0x400

  /** A mask when a bit is set. */
  function Bit(v: Word, bit: Word, mask: Word): Word { if v & bit != 0 then mask else 0 }

  /** A field element times the element of order 1023, a root of x^10 + x^8 + x^5 + x + 1. */
  function Times(v: Word): Word { Xor((v & 0x1ff) << 1, Bit(v, 0x200, 0x123)) }

  /** A field element times a power of it. */
  function Power(v: Word, n: nat): Word {
    if n == 0 then v else Times(Power(v, n - 1))
  }

  // ---------------------------------------------------------------- linear maps

  predicate OneBit(bit: Word) { bit == 1 || bit == 2 || bit == 4 || bit == 8 || bit == 0x10 || bit == 0x200 }

  lemma BitLinear(a: Word, b: Word, bit: Word, mask: Word)
    requires OneBit(bit)
    ensures Bit(Xor(a, b), bit, mask) == Xor(Bit(a, bit, mask), Bit(b, bit, mask))
  {
    hide Xor;
    BitOfXor(a, b, bit);
    XorSelf(mask);
    XorSelf(0);
  }

  lemma BitOfXor(a: Word, b: Word, bit: Word)
    requires OneBit(bit)
    ensures Xor(a, b) & bit != 0 <==> (a & bit != 0) != (b & bit != 0)
  {
  }

  lemma LowLinear(a: Word, b: Word)
    ensures (Xor(a, b) & 0x1ff) << 1 == Xor((a & 0x1ff) << 1, (b & 0x1ff) << 1)
  {
  }

  lemma TimesLinear(a: Word, b: Word)
    ensures Times(Xor(a, b)) == Xor(Times(a), Times(b))
  {
    hide Xor, Bit;
    LowLinear(a, b);
    BitLinear(a, b, 0x200, 0x123);
    SumLinear((Xor(a, b) & 0x1ff) << 1, (a & 0x1ff) << 1, (b & 0x1ff) << 1,
              Bit(Xor(a, b), 0x200, 0x123), Bit(a, 0x200, 0x123), Bit(b, 0x200, 0x123));
  }

  lemma TimesField(v: Word)
    requires v < FIELD
    ensures Times(v) < FIELD && (Times(v) == 0 <==> v == 0)
  {
  }

  lemma {:induction false} PowerLinear(a: Word, b: Word, n: nat)
    ensures Power(Xor(a, b), n) == Xor(Power(a, n), Power(b, n))
  {
    hide Xor, Times;
    if n > 0 {
      PowerLinear(a, b, n - 1);
      TimesLinear(Power(a, n - 1), Power(b, n - 1));
    }
  }

  lemma {:induction false} PowerField(v: Word, n: nat)
    requires v < FIELD
    ensures Power(v, n) < FIELD && (Power(v, n) == 0 <==> v == 0)
  {
    hide Times;
    if n > 0 {
      PowerField(v, n - 1);
      TimesField(Power(v, n - 1));
    }
  }

  lemma {:induction false} PowerAdd(v: Word, m: nat, n: nat)
    ensures Power(v, m + n) == Power(Power(v, m), n)
    decreases n
  {
    hide Times;
    if n > 0 {
      PowerAdd(v, m, n - 1);
    }
  }

  // ------------------------------------------------------------------ the powers

  /** The images of 1, 2, 4 and so on under a linear map of field elements. */
  datatype Images = Images(a: Word, b: Word, c: Word, d: Word, e: Word, f: Word, g: Word, h: Word, i: Word, j: Word)

  function Ten(v: Word, m: Images): Word {
    Xor(Bit(v, 1, m.a), Xor(Bit(v, 2, m.b), Xor(Bit(v, 4, m.c), Xor(Bit(v, 8, m.d), Xor(Bit(v, 0x10, m.e),
    Xor(Bit(v, 0x20, m.f), Xor(Bit(v, 0x40, m.g), Xor(Bit(v, 0x80, m.h), Xor(Bit(v, 0x100, m.i),
    Bit(v, 0x200, m.j))))))))))
  }

  /** The images under multiplication by a power are ten consecutive powers. */
  ghost predicate Powers(k: nat, m: Images) {
    && m.a == Power(1, k) && m.b == Power(1, k + 1) && m.c == Power(1, k + 2) && m.d == Power(1, k + 3)
    && m.e == Power(1, k + 4) && m.f == Power(1, k + 5) && m.g == Power(1, k + 6) && m.h == Power(1, k + 7)
    && m.i == Power(1, k + 8) && m.j == Power(1, k + 9)
  }

  const UNITS: Images := Images(1, 2, 4, 8, 0x10, 0x20, 0x40, 0x80, 0x100, 0x200)

  lemma Units(v: Word)
    requires v < FIELD
    ensures Ten(v, UNITS) == v
  {
    hide Xor, Bit;
    MaskBits(v);
    MaskSums(v);
  }

  lemma MaskBits(v: Word)
    ensures Bit(v, 1, 1) == v & 1 && Bit(v, 2, 2) == v & 2 && Bit(v, 4, 4) == v & 4 && Bit(v, 8, 8) == v & 8
    ensures Bit(v, 0x10, 0x10) == v & 0x10 && Bit(v, 0x20, 0x20) == v & 0x20 && Bit(v, 0x40, 0x40) == v & 0x40
    ensures Bit(v, 0x80, 0x80) == v & 0x80 && Bit(v, 0x100, 0x100) == v & 0x100 && Bit(v, 0x200, 0x200) == v & 0x200
  {
  }

  lemma MaskSums(v: Word)
    ensures Xor(v & 0x100, v & 0x200) == v & 0x300 && Xor(v & 0x80, v & 0x300) == v & 0x380
    ensures Xor(v & 0x40, v & 0x380) == v & 0x3c0 && Xor(v & 0x20, v & 0x3c0) == v & 0x3e0
    ensures Xor(v & 0x10, v & 0x3e0) == v & 0x3f0 && Xor(v & 8, v & 0x3f0) == v & 0x3f8
    ensures Xor(v & 4, v & 0x3f8) == v & 0x3fc && Xor(v & 2, v & 0x3fc) == v & 0x3fe
    ensures Xor(v & 1, v & 0x3fe) == v & 0x3ff && (v < FIELD ==> v & 0x3ff == v)
  {
  }

  lemma PowerBit(v: Word, bit: Word, mask: Word, n: nat)
    ensures Power(Bit(v, bit, mask), n) == Bit(v, bit, Power(mask, n))
  {
    hide Times;
    PowerField(0, n);
  }

  /** Power distributes over the sum of the images. */
  lemma PowerOfTen(v: Word, m: Images, p: Images, n: nat)
    requires p.a == Power(m.a, n) && p.b == Power(m.b, n) && p.c == Power(m.c, n)
    requires p.d == Power(m.d, n) && p.e == Power(m.e, n)
    requires p.f == Power(m.f, n) && p.g == Power(m.g, n) && p.h == Power(m.h, n)
    requires p.i == Power(m.i, n) && p.j == Power(m.j, n)
    ensures Power(Ten(v, m), n) == Ten(v, p)
  {
    hide Xor, Bit, Power;
    PowerBit(v, 1, m.a, n);
    PowerBit(v, 2, m.b, n);
    PowerBit(v, 4, m.c, n);
    PowerBit(v, 8, m.d, n);
    PowerBit(v, 0x10, m.e, n);
    PowerBit(v, 0x20, m.f, n);
    PowerBit(v, 0x40, m.g, n);
    PowerBit(v, 0x80, m.h, n);
    PowerBit(v, 0x100, m.i, n);
    PowerBit(v, 0x200, m.j, n);
    var s9 := Bit(v, 0x200, m.j);
    PowerLinear(Bit(v, 0x100, m.i), s9, n);
    var s8 := Xor(Bit(v, 0x100, m.i), s9);
    PowerLinear(Bit(v, 0x80, m.h), s8, n);
    var s7 := Xor(Bit(v, 0x80, m.h), s8);
    PowerLinear(Bit(v, 0x40, m.g), s7, n);
    var s6 := Xor(Bit(v, 0x40, m.g), s7);
    PowerLinear(Bit(v, 0x20, m.f), s6, n);
    var s5 := Xor(Bit(v, 0x20, m.f), s6);
    PowerLinear(Bit(v, 0x10, m.e), s5, n);
    var s4 := Xor(Bit(v, 0x10, m.e), s5);
    PowerLinear(Bit(v, 8, m.d), s4, n);
    var s3 := Xor(Bit(v, 8, m.d), s4);
    PowerLinear(Bit(v, 4, m.c), s3, n);
    var s2 := Xor(Bit(v, 4, m.c), s3);
    PowerLinear(Bit(v, 2, m.b), s2, n);
    var s1 := Xor(Bit(v, 2, m.b), s2);
    PowerLinear(Bit(v, 1, m.a), s1, n);
  }

  lemma UnitPowers(k: nat, m: Images)
    requires Powers(k, m)
    ensures m.a == Power(UNITS.a, k) && m.b == Power(UNITS.b, k) && m.c == Power(UNITS.c, k)
    ensures m.d == Power(UNITS.d, k) && m.e == Power(UNITS.e, k) && m.f == Power(UNITS.f, k)
    ensures m.g == Power(UNITS.g, k) && m.h == Power(UNITS.h, k)
    ensures m.i == Power(UNITS.i, k) && m.j == Power(UNITS.j, k)
  {
    hide Power;
    FirstPowers();
    PowerAdd(1, 0, k);
    PowerAdd(1, 1, k);
    PowerAdd(1, 2, k);
    PowerAdd(1, 3, k);
    PowerAdd(1, 4, k);
    PowerAdd(1, 5, k);
    PowerAdd(1, 6, k);
    PowerAdd(1, 7, k);
    PowerAdd(1, 8, k);
    PowerAdd(1, 9, k);
  }

  lemma FirstPowers()
    ensures Powers(0, UNITS)
  {
    assert Times(1) == 2 && Times(2) == 4 && Times(4) == 8 && Times(8) == 0x10 && Times(0x10) == 0x20;
    assert Times(0x20) == 0x40 && Times(0x40) == 0x80 && Times(0x80) == 0x100 && Times(0x100) == 0x200;
    assert Power(1, 1) == Times(Power(1, 0));
    assert Power(1, 2) == Times(Power(1, 1));
    assert Power(1, 3) == Times(Power(1, 2));
    assert Power(1, 4) == Times(Power(1, 3));
    assert Power(1, 5) == Times(Power(1, 4));
    assert Power(1, 6) == Times(Power(1, 5));
    assert Power(1, 7) == Times(Power(1, 6));
    assert Power(1, 8) == Times(Power(1, 7));
    assert Power(1, 9) == Times(Power(1, 8));
  }

  /** Multiplying by a power is the linear map with these images. */
  lemma PowerTen(v: Word, k: nat, m: Images)
    requires v < FIELD && Powers(k, m)
    ensures Power(v, k) == Ten(v, m)
  {
    hide Ten, Power, UNITS;
    Units(v);
    UnitPowers(k, m);
    PowerOfTen(v, UNITS, m, k);
  }

  /** The images for a sum of exponents. */
  lemma AddPowers(j: nat, m: Images, k: nat, n: Images, r: Images)
    requires Powers(j, m) && Powers(k, n)
    requires r.a == Ten(n.a, m) && r.b == Ten(n.b, m) && r.c == Ten(n.c, m) && r.d == Ten(n.d, m) && r.e == Ten(n.e, m)
    requires r.f == Ten(n.f, m) && r.g == Ten(n.g, m) && r.h == Ten(n.h, m) && r.i == Ten(n.i, m) && r.j == Ten(n.j, m)
    ensures Powers(j + k, r)
  {
    hide Ten, Power;
    SumPower(j, m, k, n.a);
    SumPower(j, m, k + 1, n.b);
    SumPower(j, m, k + 2, n.c);
    SumPower(j, m, k + 3, n.d);
    SumPower(j, m, k + 4, n.e);
    SumPower(j, m, k + 5, n.f);
    SumPower(j, m, k + 6, n.g);
    SumPower(j, m, k + 7, n.h);
    SumPower(j, m, k + 8, n.i);
    SumPower(j, m, k + 9, n.j);
  }

  lemma SumPower(j: nat, m: Images, k: nat, x: Word)
    requires Powers(j, m) && x == Power(1, k)
    ensures Power(1, j + k) == Ten(x, m)
  {
    hide Ten, Power, Powers;
    PowerField(1, k);
    PowerTen(x, j, m);
    PowerAdd(1, k, j);
    assert k + j == j + k;
  }

  lemma NextPowers(k: nat, m: Images, last: Word)
    requires Powers(k, m) && last == Times(m.j)
    ensures Powers(k + 1, Images(m.b, m.c, m.d, m.e, m.f, m.g, m.h, m.i, m.j, last))
  {
    hide Times;
  }

  // The images for the exponents below, each from two smaller exponents.
  const M1: Images := Images(2, 4, 8, 0x10, 0x20, 0x40, 0x80, 0x100, 0x200, 0x123)
  const M2: Images := Images(4, 8, 0x10, 0x20, 0x40, 0x80, 0x100, 0x200, 0x123, 0x246)
  const M4: Images := Images(0x10, 0x20, 0x40, 0x80, 0x100, 0x200, 0x123, 0x246, 0x1af, 0x35e)
  const M8: Images := Images(0x100, 0x200, 0x123, 0x246, 0x1af, 0x35e, 0x39f, 0x21d, 0x119, 0x232)
  const M16: Images := Images(0x119, 0x232, 0x147, 0x28e, 0x3f, 0x7e, 0xfc, 0x1f8, 0x3f0, 0x2c3)
  const M24: Images := Images(0x3f0, 0x2c3, 0xa5, 0x14a, 0x294, 0xb, 0x16, 0x2c, 0x58, 0xb0)
  const M25: Images := Images(0x2c3, 0xa5, 0x14a, 0x294, 0xb, 0x16, 0x2c, 0x58, 0xb0, 0x160)
  const M26: Images := Images(0xa5, 0x14a, 0x294, 0xb, 0x16, 0x2c, 0x58, 0xb0, 0x160, 0x2c0)
  const M27: Images := Images(0x14a, 0x294, 0xb, 0x16, 0x2c, 0x58, 0xb0, 0x160, 0x2c0, 0xa3)
  const M31: Images := Images(0x2c, 0x58, 0xb0, 0x160, 0x2c0, 0xa3, 0x146, 0x28c, 0x3b, 0x76)
  const M32: Images := Images(0x58, 0xb0, 0x160, 0x2c0, 0xa3, 0x146, 0x28c, 0x3b, 0x76, 0xec)
  const M33: Images := Images(0xb0, 0x160, 0x2c0, 0xa3, 0x146, 0x28c, 0x3b, 0x76, 0xec, 0x1d8)
  const M62: Images := Images(0x173, 0x2e6, 0xef, 0x1de, 0x3bc, 0x25b, 0x195, 0x32a, 0x377, 0x3cd)
  const M66: Images := Images(0x3bc, 0x25b, 0x195, 0x32a, 0x377, 0x3cd, 0x2b9, 0x51, 0xa2, 0x144)
  const M93: Images := Images(0x36a, 0x3f7, 0x2cd, 0xb9, 0x172, 0x2e4, 0xeb, 0x1d6, 0x3ac, 0x27b)
  const M186: Images := Images(0x96, 0x12c, 0x258, 0x193, 0x326, 0x36f, 0x3fd, 0x2d9, 0x91, 0x122)
  const M217: Images := Images(0xa4, 0x148, 0x290, 0x3, 0x6, 0xc, 0x18, 0x30, 0x60, 0xc0)
  const M242: Images := Images(0x104, 0x208, 0x133, 0x266, 0x1ef, 0x3de, 0x29f, 0x1d, 0x3a, 0x74)
  const M279: Images := Images(0x19e, 0x33c, 0x35b, 0x395, 0x209, 0x131, 0x262, 0x1e7, 0x3ce, 0x2bf)
  const M341: Images := Images(0x36, 0x6c, 0xd8, 0x1b0, 0x360, 0x3e3, 0x2e5, 0xe9, 0x1d2, 0x3a4)
  const M682: Images := Images(0x37, 0x6e, 0xdc, 0x1b8, 0x370, 0x3c3, 0x2a5, 0x69, 0xd2, 0x1a4)
  const M924: Images := Images(0xe, 0x1c, 0x38, 0x70, 0xe0, 0x1c0, 0x380, 0x223, 0x165, 0x2ca)

  lemma Powers1()
    ensures Powers(1, M1)
  {
    hide Powers;
    FirstPowers();
    NextPowers(0, UNITS, 0x123);
  }

  lemma Powers2()
    ensures Powers(2, M2)
  {
    hide Powers;
    Powers1();
    AddPowers(1, M1, 1, M1, M2);
  }

  lemma Powers4()
    ensures Powers(4, M4)
  {
    hide Powers;
    Powers2();
    AddPowers(2, M2, 2, M2, M4);
  }

  lemma Powers8()
    ensures Powers(8, M8)
  {
    hide Powers;
    Powers4();
    AddPowers(4, M4, 4, M4, M8);
  }

  lemma Powers16()
    ensures Powers(16, M16)
  {
    hide Powers;
    Powers8();
    AddPowers(8, M8, 8, M8, M16);
  }

  lemma Powers24()
    ensures Powers(24, M24)
  {
    hide Powers;
    Powers16();
    Powers8();
    AddPowers(16, M16, 8, M8, M24);
  }

  lemma Powers25()
    ensures Powers(25, M25)
  {
    hide Powers;
    Powers24();
    NextPowers(24, M24, 0x160);
  }

  lemma Powers26()
    ensures Powers(26, M26)
  {
    hide Powers;
    Powers25();
    NextPowers(25, M25, 0x2c0);
  }

  lemma Powers27()
    ensures Powers(27, M27)
  {
    hide Powers;
    Powers26();
    NextPowers(26, M26, 0xa3);
  }

  lemma Powers31()
    ensures Powers(31, M31)
  {
    hide Powers;
    Powers27();
    Powers4();
    AddPowers(27, M27, 4, M4, M31);
  }

  lemma Powers32()
    ensures Powers(32, M32)
  {
    hide Powers;
    Powers16();
    AddPowers(16, M16, 16, M16, M32);
  }

  lemma Powers33()
    ensures Powers(33, M33)
  {
    hide Powers;
    Powers32();
    NextPowers(32, M32, 0x1d8);
  }

  lemma Powers62()
    ensures Powers(62, M62)
  {
    hide Powers;
    Powers31();
    AddPowers(31, M31, 31, M31, M62);
  }

  lemma Powers66()
    ensures Powers(66, M66)
  {
    hide Powers;
    Powers33();
    AddPowers(33, M33, 33, M33, M66);
  }

  lemma Powers93()
    ensures Powers(93, M93)
  {
    hide Powers;
    Powers66();
    Powers27();
    AddPowers(66, M66, 27, M27, M93);
  }

  lemma Powers186()
    ensures Powers(186, M186)
  {
    hide Powers;
    Powers93();
    AddPowers(93, M93, 93, M93, M186);
  }

  lemma Powers279()
    ensures Powers(279, M279)
  {
    hide Powers;
    Powers186();
    Powers93();
    AddPowers(186, M186, 93, M93, M279);
  }

  lemma Powers341()
    ensures Powers(341, M341)
  {
    hide Powers;
    Powers279();
    Powers62();
    AddPowers(279, M279, 62, M62, M341);
  }

  lemma Powers682()
    ensures Powers(682, M682)
  {
    hide Powers;
    Powers341();
    AddPowers(341, M341, 341, M341, M682);
  }

  lemma Powers1023()
    ensures Powers(1023, UNITS)
  {
    hide Powers;
    Powers682();
    Powers341();
    AddPowers(682, M682, 341, M341, UNITS);
  }

  lemma Powers217()
    ensures Powers(217, M217)
  {
    hide Powers;
    Powers186();
    Powers31();
    AddPowers(186, M186, 31, M31, M217);
  }

  lemma Powers242()
    ensures Powers(242, M242)
  {
    hide Powers;
    Powers217();
    Powers25();
    AddPowers(217, M217, 25, M25, M242);
  }

  lemma Powers924()
    ensures Powers(924, M924)
  {
    hide Powers;
    Powers682();
    Powers242();
    AddPowers(682, M682, 242, M242, M924);
  }

  // ----------------------------------------------------------------- the order

  /** Powers that no field element but zero survives. */
  lemma Fixed33(v: Word)
    requires v < FIELD && Ten(v, M33) == v
    ensures v == 0
  {
  }

  lemma Fixed93(v: Word)
    requires v < FIELD && Ten(v, M93) == v
    ensures v == 0
  {
  }

  lemma Fixed341(v: Word)
    requires v < FIELD && Ten(v, M341) == v
    ensures v == 0
  {
  }

  lemma Moves(v: Word)
    requires v < FIELD && v != 0
    ensures Power(v, 33) != v && Power(v, 93) != v && Power(v, 341) != v && Power(v, 1023) == v
  {
    hide Ten, Power, Powers;
    Powers33();
    Powers93();
    Powers341();
    Powers1023();
    PowerTen(v, 33, M33);
    PowerTen(v, 93, M93);
    PowerTen(v, 341, M341);
    PowerTen(v, 1023, UNITS);
    Units(v);
    if Ten(v, M33) == v {
      Fixed33(v);
    }
    if Ten(v, M93) == v {
      Fixed93(v);
    }
    if Ten(v, M341) == v {
      Fixed341(v);
    }
  }

  lemma {:induction false} PowerTimes(v: Word, k: nat, a: nat)
    requires Power(v, k) == v
    ensures Power(v, a * k) == v
    decreases a
  {
    hide Times;
    if a > 0 {
      PowerTimes(v, k, a - 1);
      assert a * k == (a - 1) * k + k;
      PowerAdd(v, (a - 1) * k, k);
    }
  }

  /** The inverse of a number modulo 11 and modulo 31. */
  function Inverse11(r: nat): nat {
    if r == 1 then 1 else if r == 2 then 6 else if r == 3 then 4 else if r == 4 then 3 else if r == 5 then 9
    else if r == 6 then 2 else if r == 7 then 8 else if r == 8 then 7 else if r == 9 then 5
    else 10
  }

  function Inverse31(r: nat): nat {
    if r == 1 then 1 else if r == 2 then 16 else if r == 3 then 21 else if r == 4 then 8 else if r == 5 then 25
    else if r == 6 then 26 else if r == 7 then 9 else if r == 8 then 4 else if r == 9 then 7
    else if r == 10 then 28 else if r == 11 then 17 else if r == 12 then 13 else if r == 13 then 12
    else if r == 14 then 20 else if r == 15 then 29 else if r == 16 then 2 else if r == 17 then 11
    else if r == 18 then 19 else if r == 19 then 18 else if r == 20 then 14 else if r == 21 then 3
    else if r == 22 then 24 else if r == 23 then 27 else if r == 24 then 22 else if r == 25 then 5
    else if r == 26 then 6 else if r == 27 then 23 else if r == 28 then 10 else if r == 29 then 15
    else 30
  }

  /** A number that is not a multiple of a prime factor of 1023 has an inverse modulo that factor. */
  lemma Inverse(k: nat, q: nat) returns (a: nat, j: nat)
    requires (q == 3 || q == 11 || q == 31) && k % q != 0
    ensures a * k == q * j + 1
  {
    hide Inverse11, Inverse31;
    var r, d := k % q, k / q;
    var i: nat;
    if q == 3 {
      a, i := r, if r == 1 then 0 else 1;
    } else if q == 11 {
      a, i := Inverse11(r), Inverse11(r) * r / 11;
      InverseOf11(r);
    } else {
      a, i := Inverse31(r), Inverse31(r) * r / 31;
      InverseOf31(r);
    }
    j := a * d + i;
    InverseStep(a, k, q, d, r, i);
  }

  lemma InverseOf11(r: nat)
    requires 0 < r < 11
    ensures Inverse11(r) * r == 11 * (Inverse11(r) * r / 11) + 1
  {
  }

  lemma InverseOf31(r: nat)
    requires 0 < r < 31
    ensures Inverse31(r) * r == 31 * (Inverse31(r) * r / 31) + 1
  {
  }

  lemma InverseStep(a: nat, k: nat, q: nat, d: nat, r: nat, i: nat)
    requires k == q * d + r && a * r == q * i + 1
    ensures a * k == q * (a * d + i) + 1
  {
    assert a * k == a * (q * d) + a * r;
    assert a * (q * d) == q * (a * d);
    assert q * (a * d + i) == q * (a * d) + q * i;
  }

  lemma ReducesTo(m: nat, a: nat, k: nat, q: nat, j: nat)
    requires q * m == 1023 && a * k == q * j + 1
    ensures (m * a) * k == j * 1023 + m
  {
    assert (m * a) * k == m * (a * k);
    assert m * (q * j + 1) == m * (q * j) + m;
    assert m * (q * j) == (q * m) * j;
  }

  /** An exponent that is not a multiple of a prime q brings 1023 / q down to the identity. */
  lemma Reduces(v: Word, k: nat, q: nat, m: nat)
    requires v < FIELD && Power(v, k) == v && Power(v, 1023) == v && q * m == 1023
    requires (q == 3 || q == 11 || q == 31) && k % q != 0
    ensures Power(v, m) == v
  {
    hide Power;
    var a, j := Inverse(k, q);
    PowerTimes(v, k, m * a);
    PowerTimes(v, 1023, j);
    PowerAdd(v, j * 1023, m);
    ReducesTo(m, a, k, q, j);
  }

  lemma PrimesOf1023(k: nat)
    requires k % 3 == 0 && k % 11 == 0 && k % 31 == 0
    ensures k % 1023 == 0
  {
    var a, b, c := k / 3, k / 11, k / 31;
    var d := 4 * b - a;
    assert k == 33 * d;
    assert k == 1023 * (16 * d - 15 * c);
  }

  /** Multiplication has order 1023 on every field element but zero. */
  lemma OrderExact(v: Word, k: nat)
    requires v < FIELD && v != 0
    ensures Power(v, k) == v <==> k % 1023 == 0
  {
    hide Power;
    Moves(v);
    if k % 1023 == 0 {
      PowerTimes(v, 1023, k / 1023);
    } else if Power(v, k) == v {
      if k % 3 != 0 {
        Reduces(v, k, 3, 341);
      } else if k % 11 != 0 {
        Reduces(v, k, 11, 93);
      } else if k % 31 != 0 {
        Reduces(v, k, 31, 33);
      } else {
        PrimesOf1023(k);
      }
    }
  }

  /** Different powers within 1023 differ on every field element but zero. */
  lemma PowersDiffer(v: Word, p: nat, q: nat)
    requires v < FIELD && p != q && p < q + 1023 && q < p + 1023 && Power(v, p) == Power(v, q)
    ensures v == 0
  {
    hide Power;
    var lo, hi := if p < q then p else q, if p < q then q else p;
    PowerAdd(v, lo, hi - lo);
    PowerField(v, lo);
    if v != 0 {
      OrderExact(Power(v, lo), hi - lo);
    }
  }

  // --------------------------------------------------------------- elimination

  lemma XorThree(a: Word, b: Word, c: Word, d: Word, e: Word)
    requires Xor(Xor(a, b), c) == 0 && Xor(Xor(a, d), e) == 0
    ensures Xor(b, d) == Xor(c, e)
  {
    hide Xor;
    XorZero(Xor(a, b), c);
    XorZero(Xor(a, d), e);
    XorSwap(a, b, a, d);
    XorSelf(a);
    XorSelf(Xor(b, d));
  }

  lemma LastZero(a: Word, b: Word, c: Word)
    requires Xor(Xor(a, b), c) == 0 && b == 0 && c == 0
    ensures a == 0
  {
  }

  /** Three field elements whose sums, weighted by the powers 0, 1 and 2 of different positions, vanish are zero. */
  lemma Vandermonde(x: Word, y: Word, z: Word, p: nat, q: nat, r: nat)
    requires x < FIELD && y < FIELD && z < FIELD
    requires p < q < r < p + 1023
    requires Xor(Xor(x, y), z) == 0
    requires Xor(Xor(Power(x, p), Power(y, q)), Power(z, r)) == 0
    requires Xor(Xor(Power(x, 2 * p), Power(y, 2 * q)), Power(z, 2 * r)) == 0
    ensures x == 0 && y == 0 && z == 0
  {
    hide Xor, Power;
    var u, w := Xor(Power(y, p), Power(y, q)), Xor(Power(z, p), Power(z, r));
    Raised(x, y, z, p);
    XorThree(Power(x, p), Power(y, p), Power(z, p), Power(y, q), Power(z, r));
    RaisedSums(x, y, z, p, q, r);
    XorThree(Power(x, 2 * p), Power(y, p + q), Power(z, p + r), Power(y, 2 * q), Power(z, 2 * r));
    assert u == w;
    RaisedPair(y, p, q);
    RaisedPair(z, p, r);
    assert Power(u, q) == Power(u, r);
    PairField(y, p, q);
    PowersDiffer(u, q, r);
    XorZero(Power(y, p), Power(y, q));
    XorZero(Power(z, p), Power(z, r));
    PowersDiffer(y, p, q);
    PowersDiffer(z, p, r);
    LastZero(x, y, z);
  }

  lemma Raised(x: Word, y: Word, z: Word, p: nat)
    requires Xor(Xor(x, y), z) == 0
    ensures Xor(Xor(Power(x, p), Power(y, p)), Power(z, p)) == 0
  {
    hide Xor, Power;
    PowerLinear(Xor(x, y), z, p);
    PowerLinear(x, y, p);
    PowerField(0, p);
  }

  lemma RaisedSums(x: Word, y: Word, z: Word, p: nat, q: nat, r: nat)
    requires Xor(Xor(Power(x, p), Power(y, q)), Power(z, r)) == 0
    ensures Xor(Xor(Power(x, 2 * p), Power(y, p + q)), Power(z, p + r)) == 0
  {
    hide Xor, Power;
    Raised(Power(x, p), Power(y, q), Power(z, r), p);
    PowerAdd(x, p, p);
    PowerAdd(y, q, p);
    PowerAdd(z, r, p);
    assert p + p == 2 * p && q + p == p + q && r + p == p + r;
  }

  lemma RaisedPair(y: Word, p: nat, q: nat)
    ensures Power(Xor(Power(y, p), Power(y, q)), q) == Xor(Power(y, p + q), Power(y, 2 * q))
  {
    hide Xor, Power;
    PowerLinear(Power(y, p), Power(y, q), q);
    PowerAdd(y, p, q);
    PowerAdd(y, q, q);
    assert q + q == 2 * q;
  }

  lemma PairField(y: Word, p: nat, q: nat)
    requires y < FIELD
    ensures Xor(Power(y, p), Power(y, q)) < FIELD
  {
    hide Xor, Power;
    PowerField(y, p);
    PowerField(y, q);
    XorField(Power(y, p), Power(y, q));
  }

  lemma XorField(a: Word, b: Word)
    requires a < FIELD && b < FIELD
    ensures Xor(a, b) < FIELD
  {
  }
}
