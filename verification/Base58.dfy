/**
 Base58 strings.  Both directions multiply and add in place in a buffer of
 digits, from the last digit on.
 */
module Base58 {
  import opened Options
  import opened Arithmetic
  import opened Base58Digits

  /** A character code of a C string, which ends before the first zero. */
  type Code = x: int | 0 < x < 256 witness 1
  type Text = seq<Code>
  type Byte = x: int | 0 <= x < 256

  const ONE: Code := 49

  predicate IsSpace(c: Code) { c == 32 || 9 <= c <= 13 }

  // ------------------------------------------------------------------- alphabet

  /** The digit of a character, or -1: digits without 0, letters without I, O and l. */
  function MapBase58(c: Code): int {
    if 49 <= c <= 57 then c - 49
    else if 65 <= c <= 72 then c - 56
    else if 74 <= c <= 78 then c - 57
    else if 80 <= c <= 90 then c - 58
    else if 97 <= c <= 107 then c - 64
    else if 109 <= c <= 122 then c - 65
    else -1
  }

  /** The character of a digit. */
  function Character(d: nat): Code
    requires d < 58
  {
    if d < 9 then d + 49
    else if d < 17 then d + 56
    else if d < 22 then d + 57
    else if d < 33 then d + 58
    else if d < 44 then d + 64
    else d + 65
  }

  /** Characters and digits correspond one to one. */
  lemma Alphabet(d: nat, c: Code)
    requires d < 58
    ensures MapBase58(Character(d)) == d && !IsSpace(Character(d)) && (Character(d) == ONE <==> d == 0)
    ensures MapBase58(c) != -1 ==> 0 <= MapBase58(c) < 58 && Character(MapBase58(c)) == c
  {
  }

  // --------------------------------------------------------------------- spec

  function LeadingZeros(b: seq<nat>): (r: nat)
    ensures r <= |b| && (forall i | 0 <= i < r :: b[i] == 0) && (r < |b| ==> b[r] != 0)
  {
    if b == [] || b[0] != 0 then 0 else 1 + LeadingZeros(b[1..])
  }

  function Characters(d: seq<nat>): (r: Text)
    requires InBase(d, 58)
    ensures |r| == |d| && forall i | 0 <= i < |d| :: r[i] == Character(d[i])
  {
    if d == [] then [] else [Character(d[0])] + Characters(d[1..])
  }

  function Ones(n: nat): (r: Text)
    ensures |r| == n && forall i | 0 <= i < n :: r[i] == ONE
  {
    if n == 0 then [] else [ONE] + Ones(n - 1)
  }

  function Zeros(n: nat): (r: seq<nat>)
    ensures |r| == n && forall i | 0 <= i < n :: r[i] == 0
  {
    if n == 0 then [] else [0] + Zeros(n - 1)
  }

  /** One character for each leading zero byte, then the digits of the number the bytes stand for. */
  function Encode(b: seq<nat>): Text {
    DigitsInBase(ValueOf(b, 256), 58);
    Ones(LeadingZeros(b)) + Characters(Digits(ValueOf(b, 256), 58))
  }

  /** The first position from i on where a test fails. */
  function SkipWhile(s: Text, i: nat, test: Code -> bool): (r: nat)
    requires i <= |s|
    ensures i <= r <= |s| && (r < |s| ==> !test(s[r])) && forall k | i <= k < r :: test(s[k])
    decreases |s| - i
  {
    if i < |s| && test(s[i]) then SkipWhile(s, i + 1, test) else i
  }

  /** The digits of characters, or None when one of them is not in the alphabet. */
  function DigitsOf(s: Text): (r: Option<seq<nat>>)
    ensures r.Some? ==> |r.value| == |s| && InBase(r.value, 58)
  {
    if s == [] then Some([]) else
    var init := DigitsOf(s[..|s| - 1]);
    var d := MapBase58(s[|s| - 1]);
    if init.None? || d == -1 then None else Alphabet(0, s[|s| - 1]); Some(init.value + [d])
  }

  function AfterSpaces(s: Text): nat { SkipWhile(s, 0, (c: Code) => IsSpace(c)) }

  function AfterOnes(s: Text): (r: nat)
    ensures AfterSpaces(s) <= r <= |s|
  {
    SkipWhile(s, AfterSpaces(s), (c: Code) => c == ONE)
  }

  function AfterDigits(s: Text): (r: nat)
    ensures AfterOnes(s) <= r <= |s|
  {
    SkipWhile(s, AfterOnes(s), (c: Code) => !IsSpace(c))
  }

  function AfterAll(s: Text): nat { SkipWhile(s, AfterDigits(s), (c: Code) => IsSpace(c)) }

  /** The bytes of a text of at most a given number of them, with spaces around it ignored. */
  function Decode(s: Text, maxLength: nat): Option<seq<nat>> {
    var zeroes := AfterOnes(s) - AfterSpaces(s);
    var digits := DigitsOf(s[AfterOnes(s)..AfterDigits(s)]);
    if AfterAll(s) != |s| || digits.None? then None else
    var bytes := Digits(ValueOf(digits.value, 58), 256);
    if zeroes + |bytes| > maxLength then None else Some(Zeros(zeroes) + bytes)
  }

  // ------------------------------------------------------------------- theorem

  ghost predicate Bytes(b: seq<nat>) { InBase(b, 256) }

  lemma {:induction false} SkipTo(s: Text, i: nat, test: Code -> bool, j: nat)
    requires i <= j <= |s| && (forall k | i <= k < j :: test(s[k])) && (j < |s| ==> !test(s[j]))
    ensures SkipWhile(s, i, test) == j
    decreases j - i
  {
    if i < j {
      SkipTo(s, i + 1, test, j);
    }
  }

  lemma {:induction false} DigitsOfCharacters(d: seq<nat>)
    requires InBase(d, 58)
    ensures DigitsOf(Characters(d)) == Some(d)
  {
    hide Character, MapBase58;
    if d != [] {
      var n := |d| - 1;
      DigitsOfCharacters(d[..n]);
      assert Characters(d)[..n] == Characters(d[..n]);
      Alphabet(d[n], ONE);
      assert d == d[..n] + [d[n]];
    }
  }

  /** Where each part of an encoded text ends. */
  lemma EncodedParts(b: seq<nat>)
    requires Bytes(b)
    ensures var s, z := Encode(b), LeadingZeros(b);
            && AfterSpaces(s) == 0 && AfterOnes(s) == z && AfterDigits(s) == |s| == AfterAll(s)
            && InBase(Digits(ValueOf(b, 256), 58), 58) && s[z..] == Characters(Digits(ValueOf(b, 256), 58))
  {
    hide Character, MapBase58;
    var s, z, d := Encode(b), LeadingZeros(b), Digits(ValueOf(b, 256), 58);
    DigitsInBase(ValueOf(b, 256), 58);
    forall i | 0 <= i < |s|
      ensures !IsSpace(s[i]) && (i < z ==> s[i] == ONE) && (i == z ==> s[i] != ONE)
    {
      if i >= z {
        assert s[i] == Character(d[i - z]);
        Alphabet(d[i - z], ONE);
      }
    }
    SkipTo(s, 0, (c: Code) => IsSpace(c), 0);
    SkipTo(s, 0, (c: Code) => c == ONE, z);
    SkipTo(s, z, (c: Code) => !IsSpace(c), |s|);
  }

  /** Decoding what was encoded gives the bytes back, leading zeros included, unless they are more than allowed. */
  lemma DecodeInvertsEncode(b: seq<nat>, maxLength: nat)
    requires Bytes(b)
    ensures Decode(Encode(b), maxLength) == if |b| <= maxLength then Some(b) else None
  {
    hide Encode, Digits, ValueOf, DigitsOf, Characters, AfterSpaces, AfterOnes, AfterDigits, AfterAll;
    var s, z, v := Encode(b), LeadingZeros(b), ValueOf(b, 256);
    EncodedParts(b);
    DigitsOfCharacters(Digits(v, 58));
    ValueOfDigits(v, 58);
    assert s[z..|s|] == s[z..];
    ValueOfZeros(b, z, 256);
    DigitsOfValue(b[z..], 256);
    assert Zeros(z) + b[z..] == b;
  }

  lemma {:induction false} CharactersOfDigits(s: Text)
    requires DigitsOf(s).Some?
    ensures Characters(DigitsOf(s).value) == s
  {
    hide Character, MapBase58;
    if s != [] {
      var n := |s| - 1;
      CharactersOfDigits(s[..n]);
      Alphabet(0, s[n]);
      var d := DigitsOf(s).value;
      assert d[..n] == DigitsOf(s[..n]).value;
      forall i | 0 <= i < |s|
        ensures Characters(d)[i] == s[i]
      {
        assert i < n ==> Characters(d[..n])[i] == s[..n][i];
      }
    }
  }

  /** The first digit after the leading ones is not zero. */
  lemma FirstDigit(s: Text)
    requires DigitsOf(s).Some? && s != [] && s[0] != ONE
    ensures DigitsOf(s).value[0] != 0
  {
    CharactersOfDigits(s);
    Alphabet(DigitsOf(s).value[0], ONE);
    hide DigitsOf, Character, MapBase58;
  }

  lemma LeadingZerosAre(z: nat, b: seq<nat>)
    requires b == [] || b[0] != 0
    ensures LeadingZeros(Zeros(z) + b) == z
  {
    var a := Zeros(z) + b;
    assert forall i | 0 <= i < z :: a[i] == 0;
    assert b != [] ==> a[z] == b[0];
  }

  /** Whatever decodes is, between the spaces, the encoding of the bytes it decodes to. */
  lemma EncodeInvertsDecode(s: Text, maxLength: nat)
    requires Decode(s, maxLength).Some?
    ensures Bytes(Decode(s, maxLength).value) && AfterAll(s) == |s|
    ensures Encode(Decode(s, maxLength).value) == s[AfterSpaces(s)..AfterDigits(s)]
  {
    hide Digits, ValueOf, DigitsOf, Characters, LeadingZeros, AfterAll;
    var z, t := AfterOnes(s) - AfterSpaces(s), s[AfterOnes(s)..AfterDigits(s)];
    var d := DigitsOf(t).value;
    var v := ValueOf(d, 58);
    var bytes := Digits(v, 256);
    var b := Zeros(z) + bytes;
    assert Decode(s, maxLength) == Some(b);
    if t != [] {
      FirstDigit(t);
    }
    DigitsOfValue(d, 58);
    CharactersOfDigits(t);
    DigitsInBase(v, 256);
    ValueOfDigits(v, 256);
    NoDigits(256);
    LeadingZerosAre(z, bytes);
    assert b[z..] == bytes;
    ValueOfZeros(b, z, 256);
    assert Ones(z) == s[AfterSpaces(s)..AfterOnes(s)];
  }

  /** Exactly what decodes to given bytes: their encoding, with spaces around it. */
  lemma DecodeExact(s: Text, b: seq<nat>, maxLength: nat)
    requires Bytes(b) && |b| <= maxLength
    ensures Decode(s, maxLength) == Some(b) <==> AfterAll(s) == |s| && s[AfterSpaces(s)..AfterDigits(s)] == Encode(b)
  {
    hide Encode, Decode, AfterSpaces, AfterDigits, AfterAll;
    assert AfterSpaces(s) <= AfterOnes(s) <= AfterDigits(s);
    if Decode(s, maxLength) == Some(b) {
      EncodeInvertsDecode(s, maxLength);
    } else if AfterAll(s) == |s| && s[AfterSpaces(s)..AfterDigits(s)] == Encode(b) {
      DecodeInvertsEncode(b, maxLength);
      DecodePadded(s, b, maxLength);
    }
  }

  /** The spaces around a text do not matter. */
  lemma DecodePadded(s: Text, b: seq<nat>, maxLength: nat)
    requires Bytes(b) && AfterAll(s) == |s| && s[AfterSpaces(s)..AfterDigits(s)] == Encode(b)
    ensures Decode(s, maxLength) == Decode(Encode(b), maxLength)
  {
    hide Encode, Digits, ValueOf, DigitsOf, AfterSpaces, AfterOnes, AfterDigits, AfterAll;
    EncodedParts(b);
    PaddedParts(s, Encode(b), LeadingZeros(b));
    assert Encode(b)[LeadingZeros(b)..] == Encode(b)[LeadingZeros(b)..|Encode(b)|];
  }

  lemma PaddedParts(s: Text, e: Text, z: nat)
    requires AfterSpaces(s) <= AfterDigits(s) <= |s| && s[AfterSpaces(s)..AfterDigits(s)] == e
    requires AfterSpaces(e) == 0 && AfterOnes(e) == z
    ensures AfterOnes(s) == AfterSpaces(s) + z && s[AfterOnes(s)..AfterDigits(s)] == e[z..]
  {
    hide AfterSpaces, AfterDigits;
    var k := AfterSpaces(s);
    OnesOf(e, z);
    forall i | 0 <= i < |e|
      ensures s[k + i] == e[i]
    {
      assert s[k..AfterDigits(s)][i] == s[k + i];
    }
    SpaceFollows(s);
    if z < |e| {
      assert s[k + z] == e[z];
    } else {
      assert k + z == AfterDigits(s);
    }
    forall i | k <= i < k + z
      ensures s[i] == ONE
    {
      assert s[k + (i - k)] == e[i - k];
    }
    SkipTo(s, k, (c: Code) => c == ONE, k + z);
    assert s[k + z..AfterDigits(s)] == s[k..AfterDigits(s)][z..];
  }

  lemma SpaceFollows(s: Text)
    ensures AfterDigits(s) < |s| ==> s[AfterDigits(s)] != ONE
  {
    hide AfterOnes;
  }

  lemma OnesOf(e: Text, z: nat)
    requires AfterSpaces(e) == 0 && AfterOnes(e) == z
    ensures z <= |e| && (forall i | 0 <= i < z :: e[i] == ONE) && (z < |e| ==> e[z] != ONE)
  {
  }

  // -------------------------------------------------------------------- methods

  /** The value of the last n digits of a buffer. */
  ghost function TailValue(s: seq<nat>, base: nat, n: nat): nat
    requires n <= |s|
  {
    ValueOf(s[|s| - n..], base)
  }

  /** A longer tail adds its first digit at its place. */
  lemma {:induction false} TailStep(s: seq<nat>, base: nat)
    requires s != []
    ensures ValueOf(s, base) == ValueOf(s[1..], base) + s[0] * Pow(base, |s| - 1)
    decreases |s|
  {
    var n := |s| - 1;
    if n == 0 {
      assert s[..0] == [] && s[1..] == [];
    } else {
      TailStep(s[..n], base);
      assert s[..n][1..] == s[1..][..n - 1];
      var rest, p := ValueOf(s[1..][..n - 1], base), Pow(base, n - 1);
      assert (rest + s[0] * p) * base == rest * base + s[0] * (base * p);
    }
  }

  /** The buffer holds a number in its last `length` digits, and no more than it needs. */
  ghost predicate Holds(s: seq<nat>, base: nat, v: nat, length: nat) {
    && length <= |s| && InBase(s, base) && ValueOf(s, base) == v && HasLength(v, length, base)
    && forall i | 0 <= i < |s| - length :: s[i] == 0
  }

  /** Multiplies the number in a buffer and adds a digit, in place; the carry always runs out in time. */
  method MultiplyAdd(a: array<nat>, base: nat, factor: nat, digit: nat, length: nat,
                     ghost v: nat) returns (length': nat)
    requires base >= 2 && factor >= 1 && Holds(a[..], base, v, length) && v * factor + digit < Pow(base, a.Length)
    modifies a
    ensures Holds(a[..], base, v * factor + digit, length')
  {
    hide Pow, ValueOf, HasLength;
    ghost var start := a[..];
    var carry: nat := digit;
    var i := 0;
    StartOfLoop(start, base);
    while (carry != 0 || i < length) && i < a.Length
      invariant 0 <= i <= a.Length
      invariant a[..a.Length - i] == start[..a.Length - i] && InBase(a[..], base)
      invariant TailValue(a[..], base, i) + carry * Pow(base, i) == TailValue(start, base, i) * factor + digit
      invariant i > length ==> Pow(base, i - 1) <= v * factor + digit
      decreases a.Length - i
    {
      ghost var before := a[..];
      var k := a.Length - 1 - i;
      assert a[k] == a[..a.Length - i][k] == start[k];
      if i >= length {
        CarryIsLarge(start, before, base, factor, digit, i, length, v, carry);
      }
      LoopStep(start, before, base, factor, digit, i, carry);
      carry := carry + factor * a[k];
      a[k] := carry % base;
      assert a[..] == before[k := carry % base];
      carry := carry / base;
      i := i + 1;
      assert a[..a.Length - i] == before[..a.Length - i + 1][..a.Length - i];
    }
    EndOfLoop(start, a[..], base, factor, digit, i, length, v, carry);
    assert carry == 0;
    length' := i;
  }

  lemma StartOfLoop(s: seq<nat>, base: nat)
    ensures TailValue(s, base, 0) == 0 && Pow(base, 0) == 1
  {
    assert s[|s|..] == [];
  }

  lemma TailGrows(s: seq<nat>, base: nat, i: nat)
    requires i < |s|
    ensures TailValue(s, base, i + 1) == TailValue(s, base, i) + s[|s| - 1 - i] * Pow(base, i)
  {
    hide Pow, ValueOf;
    var t := s[|s| - 1 - i..];
    TailStep(t, base);
    assert t[1..] == s[|s| - i..];
  }

  lemma LoopStep(start: seq<nat>, before: seq<nat>, base: nat, factor: nat, digit: nat, i: nat, carry: nat)
    requires i < |start| == |before| && base >= 2 && InBase(before, base)
    requires TailValue(before, base, i) + carry * Pow(base, i) == TailValue(start, base, i) * factor + digit
    ensures var k := |start| - 1 - i;
            var c := carry + factor * start[k];
            && c >= 0 && 0 <= c % base && 0 <= c / base
            && TailValue(before[k := c % base], base, i + 1) + (c / base) * Pow(base, i + 1)
               == TailValue(start, base, i + 1) * factor + digit
            && InBase(before[k := c % base], base)
  {
    hide Pow, ValueOf;
    var k := |start| - 1 - i;
    MulNonNegative(factor, start[k]);
    var c: nat := carry + factor * start[k];
    QuotientOf(c, base);
    var after := before[k := c % base];
    TailGrows(start, base, i);
    TailGrows(after, base, i);
    assert after[|after| - i..] == before[|before| - i..];
    PowNext(base, i);
    StepSum(c, base, carry, factor, start[k], TailValue(start, base, i), TailValue(before, base, i), Pow(base, i),
            digit);
  }

  lemma QuotientOf(c: nat, base: nat)
    requires base >= 2
    ensures 0 <= c % base < base && 0 <= c / base && c == base * (c / base) + c % base
  {
  }

  lemma PowNext(base: nat, i: nat)
    ensures Pow(base, i + 1) == base * Pow(base, i)
  {
  }

  lemma StepSum(c: nat, base: nat, carry: nat, factor: nat, x: nat, tail: nat, sum: nat, p: nat, digit: nat)
    requires base >= 2 && c == carry + factor * x && sum + carry * p == tail * factor + digit
             && c == base * (c / base) + c % base
    ensures sum + (c % base) * p + (c / base) * (base * p) == (tail + x * p) * factor + digit
  {
    var q, r := c / base, c % base;
    assert (base * q + r) * p == q * (base * p) + r * p;
    assert (carry + factor * x) * p == carry * p + (x * p) * factor;
    assert (tail + x * p) * factor == tail * factor + (x * p) * factor;
  }

  /** Past the old digits, a carry is worth at least its place. */
  lemma CarryIsLarge(start: seq<nat>, before: seq<nat>, base: nat, factor: nat, digit: nat, i: nat, length: nat,
                     v: nat, carry: nat)
    requires length <= i <= |start| == |before| && carry > 0 && Holds(start, base, v, length)
    requires TailValue(before, base, i) + carry * Pow(base, i) == TailValue(start, base, i) * factor + digit
    ensures Pow(base, i) <= v * factor + digit
  {
    hide Pow, ValueOf, HasLength;
    ValueOfZeros(start, |start| - i, base);
    MulGrows(Pow(base, i), carry);
    assert Pow(base, i) * carry == carry * Pow(base, i);
  }

  /** When the loop ends the carry is zero and the buffer holds the result. */
  lemma EndOfLoop(start: seq<nat>, s: seq<nat>, base: nat, factor: nat, digit: nat, i: nat, length: nat, v: nat,
                  carry: nat)
    requires base >= 2 && factor >= 1 && i <= |start| == |s| && Holds(start, base, v, length)
    requires s[..|s| - i] == start[..|s| - i] && InBase(s, base) && v * factor + digit < Pow(base, |s|)
    requires TailValue(s, base, i) + carry * Pow(base, i) == TailValue(start, base, i) * factor + digit
    requires i > length ==> Pow(base, i - 1) <= v * factor + digit
    requires (carry == 0 && i >= length) || i == |s|
    ensures carry == 0 && Holds(s, base, v * factor + digit, i)
  {
    hide Pow, ValueOf, HasLength;
    forall k | 0 <= k < |s| - i
      ensures s[k] == 0
    {
      assert s[k] == s[..|s| - i][k] == start[..|s| - i][k] == start[k];
    }
    forall k | 0 <= k < |s| - i
      ensures start[k] == 0
    {
      assert start[k] == start[..|s| - i][k] == s[k];
    }
    ValueOfZeros(start, |s| - i, base);
    ValueOfZeros(s, |s| - i, base);
    MulGrows(Pow(base, i), carry);
    assert Pow(base, i) * carry == carry * Pow(base, i);
    assert InBase(s[|s| - i..], base);
    ValueBound(s[|s| - i..], base);
    LengthAfter(v, factor, digit, base, length, i);
  }

  lemma LengthAfter(v: nat, factor: nat, digit: nat, base: nat, length: nat, i: nat)
    requires base >= 2 && factor >= 1 && HasLength(v, length, base) && length <= i
    requires v * factor + digit < Pow(base, i) && (i > length ==> Pow(base, i - 1) <= v * factor + digit)
    ensures v * factor + digit >= 0 && HasLength(v * factor + digit, i, base)
  {
    hide Pow;
    MulGrows(v, factor);
    assert Pow(base, 0) == 1 by { StartOfLoop([], base); }
    if i > length {
      PowPositive(base, i - 1);
    }
  }

  /** Bytes to characters. */
  method EncodeBase58(b: seq<nat>) returns (s: Text)
    requires Bytes(b)
    ensures s == Encode(b)
  {
    hide Digits, ValueOf, Holds, Encode, Characters, Ones, LeadingZeros;
    var zeroes := CountZeros(b);
    var b58, length := Convert(b, zeroes);
    ghost var v := ValueOf(b[zeroes..], 256);
    HeldDigits(b58[..], 58, v, length);
    var it := SkipZeros(b58, length, v);
    s := Spell(b58[it..]);
    s := Ones(zeroes) + s;
    assert b58[it..] == b58[..][it..];
    EncodeIs(b, zeroes, b58[..][it..]);
  }

  method CountZeros(b: seq<nat>) returns (zeroes: nat)
    ensures zeroes == LeadingZeros(b)
  {
    hide LeadingZeros;
    zeroes := 0;
    while zeroes < |b| && b[zeroes] == 0
      invariant 0 <= zeroes <= |b| && forall i | 0 <= i < zeroes :: b[i] == 0
    {
      zeroes := zeroes + 1;
    }
    LeadingZerosIs(b, zeroes);
  }

  /** The number the bytes from `zeroes` on stand for, in a buffer of base-58 digits that never overflows. */
  method Convert(b: seq<nat>, zeroes: nat) returns (b58: array<nat>, length: nat)
    requires Bytes(b) && zeroes <= |b|
    ensures fresh(b58) && Holds(b58[..], 58, ValueOf(b[zeroes..], 256), length)
  {
    hide Digits, ValueOf, Holds, Pow;
    var size := (|b| - zeroes) * 138 / 100 + 1;
    b58 := new nat[size](_ => 0);
    length := 0;
    var p := zeroes;
    Empty(b58[..], 58);
    assert b[zeroes..zeroes] == [];
    NoValue(256);
    while p < |b|
      invariant zeroes <= p <= |b| && fresh(b58) && b58.Length == size
      invariant Holds(b58[..], 58, ValueOf(b[zeroes..p], 256), length)
    {
      EncodeFits(b, zeroes, p);
      length := MultiplyAdd(b58, 58, 256, b[p], length, ValueOf(b[zeroes..p], 256));
      p := p + 1;
    }
    assert b[zeroes..|b|] == b[zeroes..];
  }

  /** Where the digits start; the first digit in use is not zero, so nothing is skipped. */
  method SkipZeros(b58: array<nat>, length: nat, ghost v: nat) returns (it: nat)
    requires Holds(b58[..], 58, v, length)
    ensures it == b58.Length - length
  {
    hide Digits, ValueOf, Holds, HasLength;
    HeldLength(b58[..], 58, v, length);
    it := b58.Length - length;
    while it < b58.Length && b58[it] == 0
      invariant b58.Length - length <= it <= b58.Length && forall j | b58.Length - length <= j < it :: b58[j] == 0
    {
      it := it + 1;
    }
    HeldDigits(b58[..], 58, v, length);
  }

  /** The characters of digits. */
  method Spell(d: seq<nat>) returns (s: Text)
    requires InBase(d, 58)
    ensures s == Characters(d)
  {
    hide Characters, Character;
    s := [];
    var i := 0;
    while i < |d|
      invariant 0 <= i <= |d| && s == Characters(d)[..i]
    {
      s := s + [Character(d[i])];
      i := i + 1;
    }
  }

  lemma Empty(s: seq<nat>, base: nat)
    requires base >= 2 && forall i | 0 <= i < |s| :: s[i] == 0
    ensures Holds(s, base, 0, 0)
  {
    AllZeros(s, base);
  }

  lemma NoValue(base: nat)
    ensures ValueOf([], base) == 0
  {
  }

  /** The number after one more byte still fits the buffer. */
  lemma EncodeFits(b: seq<nat>, z: nat, p: nat)
    requires Bytes(b) && z <= p < |b|
    ensures ValueOf(b[z..p], 256) * 256 + b[p] == ValueOf(b[z..p + 1], 256) < Pow(58, (|b| - z) * 138 / 100 + 1)
  {
    hide Pow;
    var t := b[z..p + 1];
    assert t[..|t| - 1] == b[z..p];
    ValueBound(t, 256);
    PowMono(256, |t|, |b| - z);
    RoomFor58(|b| - z);
  }

  /** The digits in use are the digits of the number. */
  lemma HeldDigits(s: seq<nat>, base: nat, v: nat, length: nat)
    requires base >= 2 && Holds(s, base, v, length)
    ensures length <= |s| && s[|s| - length..] == Digits(v, base) && InBase(s[|s| - length..], base)
    ensures length > 0 ==> s[|s| - length] != 0
  {
    hide Pow, Digits;
    ValueOfZeros(s, |s| - length, base);
    var d := s[|s| - length..];
    if length > 0 {
      FirstNotZero(d, base);
    }
    DigitsOfValue(d, base);
  }

  lemma HeldLength(s: seq<nat>, base: nat, v: nat, length: nat)
    requires Holds(s, base, v, length)
    ensures length <= |s|
  {
  }

  lemma FirstNotZero(d: seq<nat>, base: nat)
    requires base >= 2 && d != [] && InBase(d, base) && Pow(base, |d| - 1) <= ValueOf(d, base)
    ensures d[0] != 0
  {
    hide Pow;
    TailStep(d, base);
    ValueBound(d[1..], base);
  }

  lemma EncodeIs(b: seq<nat>, z: nat, d: seq<nat>)
    requires Bytes(b) && z <= |b| && (forall i | 0 <= i < z :: b[i] == 0) && (z < |b| ==> b[z] != 0)
    requires d == Digits(ValueOf(b[z..], 256), 58) && InBase(d, 58)
    ensures Encode(b) == Ones(z) + Characters(d)
  {
    hide Digits, ValueOf, Characters;
    ValueOfZeros(b, z, 256);
    LeadingZerosIs(b, z);
  }

  lemma {:induction false} LeadingZerosIs(b: seq<nat>, z: nat)
    requires z <= |b| && (forall i | 0 <= i < z :: b[i] == 0) && (z < |b| ==> b[z] != 0)
    ensures LeadingZeros(b) == z
  {
    if z > 0 {
      LeadingZerosIs(b[1..], z - 1);
    }
  }

  /** Characters to bytes, or None. */
  method DecodeBase58(s: Text, maxLength: nat) returns (r: Option<seq<nat>>)
    ensures r == Decode(s, maxLength)
  {
    hide Digits, ValueOf, DigitsOf, IsSpace, SkipWhile;
    var p := SkipSpaces(s, 0);
    var zeroes := 0;
    while p < |s| && s[p] == ONE
      invariant AfterSpaces(s) <= p <= |s| && p == AfterSpaces(s) + zeroes && zeroes <= maxLength
      invariant forall k | AfterSpaces(s) <= k < p :: s[k] == ONE
    {
      zeroes := zeroes + 1;
      p := p + 1;
      if zeroes > maxLength {
        TooManyOnes(s, maxLength, p);
        return None;
      }
    }
    SkipTo(s, AfterSpaces(s), (c: Code) => c == ONE, p);
    var digits, end := DecodeDigits(s, p, maxLength - zeroes);
    if digits.None? {
      return None;
    }
    p := SkipSpaces(s, end);
    if p < |s| {
      return None;
    }
    r := Some(Zeros(zeroes) + digits.value);
  }

  method SkipSpaces(s: Text, start: nat) returns (p: nat)
    requires start <= |s|
    ensures p == SkipWhile(s, start, (c: Code) => IsSpace(c))
  {
    hide IsSpace, SkipWhile;
    p := start;
    while p < |s| && IsSpace(s[p])
      invariant start <= p <= |s| && forall k | start <= k < p :: IsSpace(s[k])
    {
      p := p + 1;
    }
    SkipTo(s, start, (c: Code) => IsSpace(c), p);
  }

  lemma TooManyOnes(s: Text, maxLength: nat, p: nat)
    requires AfterSpaces(s) <= p <= |s| && p - AfterSpaces(s) > maxLength
             && forall k | AfterSpaces(s) <= k < p :: s[k] == ONE
    ensures Decode(s, maxLength) == None
  {
    hide Digits, ValueOf, DigitsOf;
    SkipReaches(s, AfterSpaces(s), (c: Code) => c == ONE, p - 1);
  }

  /** The bytes of the digits from p up to the next space or the end, if there are at most `room` of them. */
  method DecodeDigits(s: Text, p: nat, room: nat) returns (r: Option<seq<nat>>, q: nat)
    requires p == AfterOnes(s)
    ensures r.Some? ==> q == AfterDigits(s)
    ensures var digits := DigitsOf(s[p..AfterDigits(s)]);
            r == if digits.None? || |Digits(ValueOf(digits.value, 58), 256)| > room then None
                 else Some(Digits(ValueOf(digits.value, 58), 256))
  {
    hide Digits, ValueOf, Holds, DigitsOf, MapBase58, IsSpace, AfterDigits;
    var size := (|s| - p) * 733 / 1000 + 1;
    var b256 := new nat[size](_ => 0);
    var length: nat := 0;
    q := p;
    Empty(b256[..], 256);
    assert s[p..p] == [];
    NoDigitsRead();
    while q < |s| && !IsSpace(s[q])
      invariant p <= q <= |s| && forall k | p <= k < q :: !IsSpace(s[k])
      invariant DigitsOf(s[p..q]).Some? && Holds(b256[..], 256, ValueOf(DigitsOf(s[p..q]).value, 58), length)
                && length <= room
    {
      var carry := MapBase58(s[q]);
      DigitRead(s, p, q);
      if carry == -1 {
        BadDigit(s, p, q);
        return None, q;
      }
      DecodeFits(s, p, q);
      length := MultiplyAdd(b256, 256, 58, carry, length, ValueOf(DigitsOf(s[p..q]).value, 58));
      q := q + 1;
      if length > room {
        TooLong(s, p, q, b256[..], length, room);
        return None, q;
      }
    }
    SkipTo(s, p, (c: Code) => !IsSpace(c), q);
    DigitsEnd(s, q);
    HeldDigits(b256[..], 256, ValueOf(DigitsOf(s[p..q]).value, 58), length);
    r := Some(b256[size - length..]);
  }

  lemma NoDigitsRead()
    ensures DigitsOf([]) == Some([]) && ValueOf([], 58) == 0
  {
  }

  lemma DigitsEnd(s: Text, q: nat)
    requires q == SkipWhile(s, AfterOnes(s), (c: Code) => !IsSpace(c))
    ensures AfterDigits(s) == q
  {
  }

  /** One more character is one more digit. */
  lemma DigitRead(s: Text, p: nat, q: nat)
    requires p <= q < |s| && DigitsOf(s[p..q]).Some?
    ensures var d, next := MapBase58(s[q]), DigitsOf(s[p..q + 1]);
            if d == -1 then next == None else 0 <= d < 58 && next == Some(DigitsOf(s[p..q]).value + [d])
    ensures MapBase58(s[q]) != -1 ==>
              ValueOf(DigitsOf(s[p..q + 1]).value, 58) == ValueOf(DigitsOf(s[p..q]).value, 58) * 58 + MapBase58(s[q])
  {
    hide MapBase58;
    var t := s[p..q + 1];
    assert t[..|t| - 1] == s[p..q];
    Alphabet(0, s[q]);
    if MapBase58(s[q]) != -1 {
      var before := DigitsOf(s[p..q]).value;
      assert (before + [MapBase58(s[q])])[..|before|] == before;
    }
  }

  /** A character outside the alphabet spoils every longer run of digits. */
  lemma {:induction false} SpoiltRun(s: Text, p: nat, q: nat, e: nat)
    requires p <= q < e <= |s| && MapBase58(s[q]) == -1
    ensures DigitsOf(s[p..e]) == None
    decreases e
  {
    hide MapBase58;
    var t := s[p..e];
    assert t[..|t| - 1] == s[p..e - 1] && t[|t| - 1] == s[e - 1];
    if q < e - 1 {
      SpoiltRun(s, p, q, e - 1);
    }
  }

  lemma BadDigit(s: Text, p: nat, q: nat)
    requires p == AfterOnes(s) && p <= q < |s| && MapBase58(s[q]) == -1 && forall k | p <= k <= q :: !IsSpace(s[k])
    ensures DigitsOf(s[p..AfterDigits(s)]) == None
  {
    hide MapBase58, DigitsOf, IsSpace;
    RunReaches(s, p, q);
    SpoiltRun(s, p, q, AfterDigits(s));
  }

  /** The digits reach past every position up to which there is no space. */
  lemma RunReaches(s: Text, p: nat, q: nat)
    requires p == AfterOnes(s) && p <= q < |s| && forall k | p <= k <= q :: !IsSpace(s[k])
    ensures AfterDigits(s) > q
  {
    hide IsSpace;
    SkipReaches(s, p, (c: Code) => !IsSpace(c), q);
  }

  lemma {:induction false} SkipReaches(s: Text, i: nat, test: Code -> bool, q: nat)
    requires i <= q < |s| && forall k | i <= k <= q :: test(s[k])
    ensures SkipWhile(s, i, test) > q
    decreases q - i
  {
    if i < q {
      SkipReaches(s, i + 1, test, q);
    }
  }

  /** The number after one more character still fits the buffer. */
  lemma DecodeFits(s: Text, p: nat, q: nat)
    requires p <= q < |s| && DigitsOf(s[p..q + 1]).Some?
    ensures ValueOf(DigitsOf(s[p..q + 1]).value, 58) < Pow(256, (|s| - p) * 733 / 1000 + 1)
  {
    hide Pow, DigitsOf, ValueOf;
    var d := DigitsOf(s[p..q + 1]).value;
    ValueBound(d, 58);
    PowMono(58, |d|, |s| - p);
    RoomFor256(|s| - p);
  }

  /** More digits make no shorter number. */
  lemma {:induction false} ValueGrows(s: Text, p: nat, q: nat, e: nat)
    requires p <= q <= e <= |s| && DigitsOf(s[p..e]).Some?
    ensures DigitsOf(s[p..q]).Some? && ValueOf(DigitsOf(s[p..q]).value, 58) <= ValueOf(DigitsOf(s[p..e]).value, 58)
    decreases e
  {
    hide MapBase58, ValueOf;
    if q < e {
      var t := s[p..e];
      assert t[..|t| - 1] == s[p..e - 1];
      ValueGrows(s, p, q, e - 1);
      DigitRead(s, p, e - 1);
    }
  }

  lemma TooLong(s: Text, p: nat, q: nat, buffer: seq<nat>, length: nat, room: nat)
    requires p == AfterOnes(s) && p < q <= |s| && (forall k | p <= k < q :: !IsSpace(s[k])) && DigitsOf(s[p..q]).Some?
    requires Holds(buffer, 256, ValueOf(DigitsOf(s[p..q]).value, 58), length) && length > room
    ensures var digits := DigitsOf(s[p..AfterDigits(s)]);
            digits.None? || |Digits(ValueOf(digits.value, 58), 256)| > room
  {
    hide DigitsOf, ValueOf, Digits, IsSpace;
    var e := AfterDigits(s);
    RunReaches(s, p, q - 1);
    if DigitsOf(s[p..e]).Some? {
      ValueGrows(s, p, q, e);
      LongerDigits(ValueOf(DigitsOf(s[p..q]).value, 58), length, ValueOf(DigitsOf(s[p..e]).value, 58), 256);
    }
  }

  /** A larger number has no fewer digits. */
  lemma {:induction false} LongerDigits(v: nat, n: nat, w: nat, base: nat)
    requires base >= 2 && v <= w && HasLength(v, n, base)
    ensures |Digits(w, base)| >= n
  {
    hide Pow;
    if v > 0 {
      DigitsInBase(w, base);
      ValueOfDigits(w, base);
      ValueBound(Digits(w, base), base);
      if |Digits(w, base)| < n {
        PowMono(base, |Digits(w, base)|, n - 1);
      }
    }
  }
}
