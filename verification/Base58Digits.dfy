/**
 Numbers as lists of digits, most significant first, in any base; and the
 bounds that let a buffer for base 256 or base 58 be sized in advance.
 */
module Base58Digits {
  import opened Arithmetic

  // -------------------------------------------------------------------- digits

  function ValueOf(digits: seq<nat>, base: nat): nat {
    if digits == [] then 0 else
    MulNonNegative(ValueOf(digits[..|digits| - 1], base), base);
    ValueOf(digits[..|digits| - 1], base) * base + digits[|digits| - 1]
  }

  /** The shortest list of digits of a number; none for zero. */
  function Digits(v: nat, base: nat): (r: seq<nat>)
    requires base >= 2
  {
    if v == 0 then [] else Digits(v / base, base) + [v % base]
  }

  ghost predicate InBase(digits: seq<nat>, base: nat) { forall i | 0 <= i < |digits| :: digits[i] < base }

  lemma {:induction false} DigitsInBase(v: nat, base: nat)
    requires base >= 2
    ensures InBase(Digits(v, base), base) && (v > 0 ==> Digits(v, base) != [] && Digits(v, base)[0] != 0)
  {
    if v > 0 {
      SmallerQuotient(v, base);
      DigitsInBase(v / base, base);
    }
  }

  lemma SmallerQuotient(v: nat, base: nat)
    requires v > 0 && base >= 2
    ensures 0 <= v / base < v && v == (v / base) * base + v % base
  {
    var q := v / base;
    assert v == base * q + v % base;
    assert base * q == q * base;
    MulMono(2, base, q);
  }

  /** A number is the value of its digits. */
  lemma {:induction false} ValueOfDigits(v: nat, base: nat)
    requires base >= 2
    ensures ValueOf(Digits(v, base), base) == v
  {
    if v > 0 {
      SmallerQuotient(v, base);
      ValueOfDigits(v / base, base);
      var d := Digits(v, base);
      assert d[..|d| - 1] == Digits(v / base, base);
    }
  }

  /** A list without a leading zero is the digits of its value. */
  lemma {:induction false} DigitsOfValue(d: seq<nat>, base: nat)
    requires base >= 2 && InBase(d, base) && (d != [] ==> d[0] != 0)
    ensures Digits(ValueOf(d, base), base) == d
  {
    hide Digits;
    if d == [] {
      NoDigits(base);
    } else {
      var init, last := d[..|d| - 1], d[|d| - 1];
      DigitsOfValue(init, base);
      if init != [] {
        NonZeroValue(init, base);
      }
      DigitsStep(ValueOf(init, base), last, base);
      assert d == init + [last];
    }
  }

  lemma NoDigits(base: nat)
    requires base >= 2
    ensures Digits(0, base) == []
  {
  }

  lemma DigitsStep(q: nat, last: nat, base: nat)
    requires base >= 2 && last < base && (q > 0 || last > 0)
    ensures q * base + last > 0 && Digits(q * base + last, base) == Digits(q, base) + [last]
  {
    MulGrows(base, q);
    var v := base * q + last;
    assert v == q * base + last;
    DivUnique(v, base, q, last);
  }

  lemma {:induction false} NonZeroValue(d: seq<nat>, base: nat)
    requires base >= 2 && d != [] && d[0] != 0
    ensures ValueOf(d, base) > 0
  {
    if |d| > 1 {
      NonZeroValue(d[..|d| - 1], base);
      MulGrows(base, ValueOf(d[..|d| - 1], base));
      assert base * ValueOf(d[..|d| - 1], base) == ValueOf(d[..|d| - 1], base) * base;
    }
  }

  lemma {:induction false} ValueBound(d: seq<nat>, base: nat)
    requires InBase(d, base) && base >= 2
    ensures ValueOf(d, base) < Pow(base, |d|)
  {
    if d != [] {
      var init := d[..|d| - 1];
      ValueBound(init, base);
      var q, p := ValueOf(init, base), Pow(base, |init|);
      MulMono(q + 1, p, base);
      assert (q + 1) * base == q * base + base;
      assert p * base == base * p;
    }
  }

  /** Zeros in front do not count. */
  lemma {:induction false} ValueOfZeros(d: seq<nat>, k: nat, base: nat)
    requires k <= |d| && forall i | 0 <= i < k :: d[i] == 0
    ensures ValueOf(d, base) == ValueOf(d[k..], base)
    decreases |d|
  {
    if k == |d| {
      assert d[k..] == [];
      AllZeros(d, base);
    } else {
      var n := |d| - 1;
      ValueOfZeros(d[..n], k, base);
      assert d[..n][k..] == d[k..][..n - k];
    }
  }

  lemma {:induction false} AllZeros(d: seq<nat>, base: nat)
    requires forall i | 0 <= i < |d| :: d[i] == 0
    ensures ValueOf(d, base) == 0
  {
    if d != [] {
      AllZeros(d[..|d| - 1], base);
    }
  }

  /** The number of digits of a number. */
  ghost predicate HasLength(v: nat, n: nat, base: nat) {
    if v == 0 then n == 0 else n > 0 && Pow(base, n - 1) <= v < Pow(base, n)
  }

  // -------------------------------------------------------------- buffer sizes

  lemma {:induction false} PowOfPow(b: nat, m: nat, n: nat)
    ensures Pow(Pow(b, m), n) == Pow(b, m * n)
  {
    if n > 0 {
      PowOfPow(b, m, n - 1);
      PowAdd(b, m, m * (n - 1));
      assert m * n == m + m * (n - 1);
    }
  }

  lemma {:induction false} PowBaseMono(a: nat, b: nat, n: nat)
    requires a <= b
    ensures Pow(a, n) <= Pow(b, n)
  {
    if n > 0 {
      PowBaseMono(a, b, n - 1);
      MulMono(a, b, Pow(a, n - 1));
      MulMono(Pow(a, n - 1), Pow(b, n - 1), b);
    }
  }

  lemma {:induction false} PowBaseStrict(a: nat, b: nat, n: nat)
    requires a < b && n > 0
    ensures Pow(a, n) < Pow(b, n)
  {
    if n == 1 {
      assert Pow(a, 1) == a;
      assert Pow(b, 1) == b;
    } else {
      PowBaseStrict(a, b, n - 1);
      MulMono(a, b, Pow(a, n - 1));
      MulMono(Pow(a, n - 1) + 1, Pow(b, n - 1), b);
      assert (Pow(a, n - 1) + 1) * b == Pow(a, n - 1) * b + b;
    }
  }

  /** When c^s <= d^t, also c^n <= d^m for every m that is at least t/s of n. */
  lemma RatioBound(c: nat, s: nat, d: nat, t: nat, n: nat, m: nat)
    requires c >= 1 && d >= 1 && s > 0 && Pow(c, s) <= Pow(d, t) && t * n <= s * m
    ensures Pow(c, n) <= Pow(d, m)
  {
    hide Pow;
    PowSwap(c, n, s);
    PowBaseMono(Pow(c, s), Pow(d, t), n);
    PowOfPow(d, t, n);
    PowMono(d, t * n, s * m);
    PowOfPow(d, s, m);
    PowSwap(d, s, m);
    Root(Pow(c, n), Pow(d, m), s);
  }

  lemma PowSwap(b: nat, m: nat, n: nat)
    ensures Pow(Pow(b, m), n) == Pow(Pow(b, n), m)
  {
    hide Pow;
    PowOfPow(b, m, n);
    PowOfPow(b, n, m);
    assert m * n == n * m;
  }

  lemma Root(a: nat, b: nat, n: nat)
    requires n > 0 && Pow(a, n) <= Pow(b, n)
    ensures a <= b
  {
    hide Pow;
    if b < a {
      PowBaseStrict(b, a, n);
    }
  }

  lemma EightBytes()
    ensures Pow(256, 8) <= Pow(58, 11)
  {
    assert Pow(256, 4) == 0x1_0000_0000;
    PowAdd(256, 4, 4);
    assert Pow(58, 4) == 11316496;
    PowAdd(58, 4, 4);
    assert Pow(58, 3) == 195112;
    PowAdd(58, 8, 3);
  }

  lemma SeventyOneDigits()
    ensures Pow(58, 71) <= Pow(256, 52)
  {
    hide Pow;
    var p4 := 11316496;
    var p8 := p4 * p4;
    var p16 := p8 * p8;
    var p32 := p16 * p16;
    var p64 := p32 * p32;
    SmallPowers();
    PowAdd(58, 4, 4);
    PowAdd(58, 8, 8);
    PowAdd(58, 16, 16);
    PowAdd(58, 32, 32);
    PowAdd(58, 64, 7);
    var q4 := 0x1_0000_0000;
    var q8 := q4 * q4;
    var q16 := q8 * q8;
    var q32 := q16 * q16;
    PowAdd(256, 4, 4);
    PowAdd(256, 8, 8);
    PowAdd(256, 16, 16);
    PowAdd(256, 16, 4);
    PowAdd(256, 32, 20);
    assert Pow(58, 71) == p64 * 2207984167552;
    assert Pow(256, 52) == q32 * (q16 * q4);
  }

  lemma SmallPowers()
    ensures Pow(58, 4) == 11316496 && Pow(58, 7) == 2207984167552 && Pow(256, 4) == 0x1_0000_0000
  {
    assert Pow(58, 3) == 195112;
    PowAdd(58, 4, 3);
  }

  /** A buffer of 138 percent of the bytes, plus one, holds any number of that many bytes in base 58. */
  lemma RoomFor58(n: nat)
    ensures Pow(256, n) <= Pow(58, n * 138 / 100 + 1)
  {
    hide Pow;
    EightBytes();
    RatioBound(256, 8, 58, 11, n, n * 138 / 100 + 1);
  }

  /** A buffer of 73.3 percent of the characters, plus one, holds any number of that many base-58 digits in bytes. */
  lemma RoomFor256(n: nat)
    ensures Pow(58, n) <= Pow(256, n * 733 / 1000 + 1)
  {
    hide Pow;
    SeventyOneDigits();
    RatioBound(58, 71, 256, 52, n, n * 733 / 1000 + 1);
  }
}
