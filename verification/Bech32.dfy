/**
 Bech32 strings: a human-readable part, a separator, and five-bit values with
 their checksum in a fixed alphabet.
 */
module Bech32 {
  import opened Options
  import opened Bech32Checksum
  import Bech32Errors

  /** An 8-bit character code. */
  type Code = x: int | 0 <= x < 256
  type Text = seq<Code>

  const SEPARATOR: Code := 49
  const MAX_LENGTH: nat := 90

  /** The codes of "qpzry9x8gf2tvdw0s3jn54khce6mua7l". */
  const CHARSET: seq<int> := [
    113, 112, 122, 114, 121, 57, 120, 56, 103, 102, 50, 116, 118, 100, 119, 48,
    115, 51, 106, 110, 53, 52, 107, 104, 99, 101, 54, 109, 117, 97, 55, 108]

  /** The values of the codes from '0' on, and of the letters in two rows of sixteen. */
  const DIGITS: seq<int> := [15, -1, 10, 17, 21, 20, 26, 30, 7, 5, -1, -1, -1, -1, -1, -1]
  const LETTERS_A_TO_O: seq<int> := [-1, 29, -1, 24, 13, 25, 9, 8, 23, -1, 18, 22, 31, 27, 19, -1]
  const LETTERS_P_TO_Z: seq<int> := [1, 0, 3, 16, 11, 28, 12, 14, 6, 4, 2, -1, -1, -1, -1, -1]

  /** The value of a 7-bit code, or -1; letters of both cases have the same value. */
  function CharsetRev(c: nat): int
    requires c < 128
  {
    if c < 48 then -1
    else if c < 64 then DIGITS[c - 48]
    else if c < 80 then LETTERS_A_TO_O[c - 64]
    else if c < 96 then LETTERS_P_TO_Z[c - 80]
    else if c < 112 then LETTERS_A_TO_O[c - 96]
    else LETTERS_P_TO_Z[c - 112]
  }

  predicate IsLower(c: Code) { 97 <= c <= 122 }

  predicate IsUpper(c: Code) { 65 <= c <= 90 }

  function LowerCase(c: Code): Code { if IsUpper(c) then c + 32 else c }

  function Lowered(s: Text): (r: Text)
    ensures |r| == |s| && forall i | 0 <= i < |s| :: r[i] == LowerCase(s[i])
  {
    if s == [] then [] else [LowerCase(s[0])] + Lowered(s[1..])
  }

  // ------------------------------------------------------------------ alphabet

  lemma CharsetRange(k: nat)
    requires k < 32
    ensures 33 <= CHARSET[k] <= 126 && !(65 <= CHARSET[k] <= 90) && CHARSET[k] != SEPARATOR
  {
  }

  lemma CharsetCodes(k: nat)
    requires k < 32
    ensures 33 <= CHARSET[k] <= 126 && CharsetRev(CHARSET[k]) == k
  {
    hide CharsetRev, CHARSET;
    if k < 16 {
      CharsetFirstHalf(k);
    } else {
      CharsetSecondHalf(k);
    }
  }

  lemma CharsetFirstHalf(k: nat)
    requires k < 16
    ensures 33 <= CHARSET[k] <= 126 && CharsetRev(CHARSET[k]) == k
  {
    assert CharsetRev(113) == 0 && CharsetRev(112) == 1 && CharsetRev(122) == 2 && CharsetRev(114) == 3;
    assert CharsetRev(121) == 4 && CharsetRev(57) == 5 && CharsetRev(120) == 6 && CharsetRev(56) == 7;
    assert CharsetRev(103) == 8 && CharsetRev(102) == 9 && CharsetRev(50) == 10 && CharsetRev(116) == 11;
    assert CharsetRev(118) == 12 && CharsetRev(100) == 13 && CharsetRev(119) == 14 && CharsetRev(48) == 15;
  }

  lemma CharsetSecondHalf(k: nat)
    requires 16 <= k < 32
    ensures 33 <= CHARSET[k] <= 126 && CharsetRev(CHARSET[k]) == k
  {
    assert CharsetRev(115) == 16 && CharsetRev(51) == 17 && CharsetRev(106) == 18 && CharsetRev(110) == 19;
    assert CharsetRev(53) == 20 && CharsetRev(52) == 21 && CharsetRev(107) == 22 && CharsetRev(104) == 23;
    assert CharsetRev(99) == 24 && CharsetRev(101) == 25 && CharsetRev(54) == 26 && CharsetRev(109) == 27;
    assert CharsetRev(117) == 28 && CharsetRev(97) == 29 && CharsetRev(55) == 30 && CharsetRev(108) == 31;
  }

  lemma DigitCodes(i: nat)
    requires i < 16 && DIGITS[i] != -1
    ensures 0 <= DIGITS[i] < 32 && CHARSET[DIGITS[i]] == 48 + i
  {
    assert CHARSET[15] == 48 && CHARSET[10] == 50 && CHARSET[17] == 51 && CHARSET[21] == 52;
    assert CHARSET[20] == 53 && CHARSET[26] == 54 && CHARSET[30] == 55 && CHARSET[7] == 56;
    assert CHARSET[5] == 57;
  }

  lemma LowLetterCodes(i: nat)
    requires i < 16 && LETTERS_A_TO_O[i] != -1
    ensures 0 <= LETTERS_A_TO_O[i] < 32 && CHARSET[LETTERS_A_TO_O[i]] == 96 + i
  {
    assert CHARSET[29] == 97 && CHARSET[24] == 99 && CHARSET[13] == 100 && CHARSET[25] == 101;
    assert CHARSET[9] == 102 && CHARSET[8] == 103 && CHARSET[23] == 104 && CHARSET[18] == 106;
    assert CHARSET[22] == 107 && CHARSET[31] == 108 && CHARSET[27] == 109 && CHARSET[19] == 110;
  }

  lemma HighLetterCodes(i: nat)
    requires i < 16 && LETTERS_P_TO_Z[i] != -1
    ensures 0 <= LETTERS_P_TO_Z[i] < 32 && CHARSET[LETTERS_P_TO_Z[i]] == 112 + i
  {
    assert CHARSET[1] == 112 && CHARSET[0] == 113 && CHARSET[3] == 114 && CHARSET[16] == 115;
    assert CHARSET[11] == 116 && CHARSET[28] == 117 && CHARSET[12] == 118 && CHARSET[14] == 119;
    assert CHARSET[6] == 120 && CHARSET[4] == 121 && CHARSET[2] == 122;
  }

  /** A character with a value is, in lower case, the character of that value. */
  lemma RevCodes(c: nat)
    requires c < 128 && CharsetRev(c) != -1
    ensures 0 <= CharsetRev(c) < 32 && CHARSET[CharsetRev(c)] == LowerCase(c)
  {
    hide CHARSET, DIGITS, LETTERS_A_TO_O, LETTERS_P_TO_Z;
    if c < 64 {
      DigitCodes(c - 48);
    } else if c < 80 {
      LowLetterCodes(c - 64);
      LetterPlaces(c - 64);
    } else if c < 96 {
      HighLetterCodes(c - 80);
      LetterPlaces(c - 80);
    } else if c < 112 {
      LowLetterCodes(c - 96);
    } else {
      HighLetterCodes(c - 112);
    }
  }

  lemma LetterPlaces(i: nat)
    requires i < 16
    ensures LETTERS_A_TO_O[i] != -1 ==> i > 0
    ensures LETTERS_P_TO_Z[i] != -1 ==> i <= 10
  {
  }

  function ToCode(v: Word): (c: Code)
    requires v < 32
    ensures 33 <= c <= 126 && !IsUpper(c) && c != SEPARATOR
  {
    CharsetRange(v as nat);
    CHARSET[v as nat]
  }

  /** The value of a character of the alphabet, in either case. */
  function FromCode(c: Code): (r: Option<Word>)
    requires c < 128
    ensures r.Some? ==> r.value < 32
  {
    if CharsetRev(c) == -1 then None else
    RevCodes(c);
    SmallWord(CharsetRev(c));
    Some(CharsetRev(c) as bv32)
  }

  lemma SmallWord(n: nat)
    requires n < 32
    ensures n as bv32 < 32
  {
  }

  lemma WordBack(v: Word)
    ensures (v as nat) as bv32 == v
  {
  }

  lemma FromToCode(v: Word)
    requires v < 32
    ensures FromCode(ToCode(v)) == Some(v)
  {
    hide CharsetRev, CHARSET;
    CharsetCodes(v as nat);
    WordBack(v);
  }

  function ToCodes(v: Data): (r: Text)
    requires FiveBits(v)
    ensures |r| == |v| && forall i | 0 <= i < |v| :: r[i] == ToCode(v[i])
  {
    if v == [] then [] else ToCodes(v[..|v| - 1]) + [ToCode(v[|v| - 1])]
  }

  // ------------------------------------------------------------------- encoding

  /** The high bits of the characters, a zero, and their low bits. */
  function ExpandHRP(hrp: Text): (r: Data)
    ensures |r| == 2 * |hrp| + 1 && FiveBits(r)
  {
    HighsFive(hrp);
    LowsFive(hrp);
    Highs(hrp) + [0] + Lows(hrp)
  }

  function Highs(s: Text): (r: Data)
    ensures |r| == |s|
  {
    seq(|s|, i requires 0 <= i < |s| => HighBits(s[i]))
  }

  function Lows(s: Text): (r: Data)
    ensures |r| == |s|
  {
    seq(|s|, i requires 0 <= i < |s| => LowBits(s[i]))
  }

  function HighBits(c: Code): Word { (c / 32) as bv32 }

  function LowBits(c: Code): Word { (c % 32) as bv32 }

  lemma HighsFive(s: Text)
    ensures FiveBits(Highs(s))
  {
    hide HighBits;
    forall i | 0 <= i < |s|
      ensures Highs(s)[i] < 32
    {
      HighFive(s[i]);
    }
  }

  lemma LowsFive(s: Text)
    ensures FiveBits(Lows(s))
  {
    hide LowBits;
    forall i | 0 <= i < |s|
      ensures Lows(s)[i] < 32
    {
      LowFive(s[i]);
    }
  }

  lemma HighFive(c: Code)
    ensures HighBits(c) < 32
  {
    SmallWord(c / 32);
  }

  lemma LowFive(c: Code)
    ensures LowBits(c) < 32
  {
    SmallWord(c % 32);
  }

  predicate VerifyChecksum(hrp: Text, values: Data) { Verifies(ExpandHRP(hrp) + values) }

  function CreateChecksum(hrp: Text, values: Data): Data { Checksum(ExpandHRP(hrp) + values) }

  /** The values with their checksum. */
  function Combined(hrp: Text, values: Data): (r: Data)
    requires FiveBits(values)
    ensures FiveBits(r) && |r| == |values| + 6
  {
    ExpandedFive(hrp, values);
    ChecksumFiveBits(ExpandHRP(hrp) + values);
    values + CreateChecksum(hrp, values)
  }

  lemma ExpandedFive(hrp: Text, values: Data)
    requires FiveBits(values)
    ensures FiveBits(ExpandHRP(hrp) + values)
  {
    hide ExpandHRP;
  }

  function Encode(hrp: Text, values: Data): Text
    requires FiveBits(values) && forall i | 0 <= i < |hrp| :: !IsUpper(hrp[i])
  {
    hrp + [SEPARATOR] + ToCodes(Combined(hrp, values))
  }

  // ------------------------------------------------------------------- decoding

  /** Every character is printable, and letters are not of both cases. */
  ghost predicate WellFormed(s: Text) {
    && (forall i | 0 <= i < |s| :: 33 <= s[i] <= 126)
    && !((exists i :: 0 <= i < |s| && IsLower(s[i])) && (exists i :: 0 <= i < |s| && IsUpper(s[i])))
  }

  /** The last separator, or -1. */
  function LastSeparator(s: Text): (r: int)
    ensures -1 <= r < |s| && (r >= 0 ==> s[r] == SEPARATOR) && forall i | r < i < |s| :: s[i] != SEPARATOR
  {
    if s == [] then -1 else if s[|s| - 1] == SEPARATOR then |s| - 1 else LastSeparator(s[..|s| - 1])
  }

  predicate Ascii(s: Text) { forall i | 0 <= i < |s| :: s[i] < 128 }

  function FromCodes(s: Text): (r: Option<Data>)
    requires Ascii(s)
    ensures r.Some? ==> |r.value| == |s|
  {
    if s == [] then Some([]) else
    var init := FromCodes(s[..|s| - 1]);
    var last := FromCode(s[|s| - 1]);
    if init.None? || last.None? then None else Some(init.value + [last.value])
  }

  /** A text has values exactly when each of its characters has one. */
  lemma {:induction false} FromCodesAt(s: Text)
    requires Ascii(s)
    ensures FromCodes(s).Some? <==> forall i | 0 <= i < |s| :: FromCode(s[i]).Some?
    ensures FromCodes(s).Some? ==>
              FiveBits(FromCodes(s).value) && forall i | 0 <= i < |s| :: FromCode(s[i]) == Some(FromCodes(s).value[i])
  {
    hide FromCode;
    if s != [] {
      var n := |s| - 1;
      FromCodesAt(s[..n]);
      forall i | 0 <= i < n
        ensures s[..n][i] == s[i]
      {
      }
    }
  }

  ghost function Decode(s: Text): Option<(Text, Data)> {
    if !WellFormed(s) then None else
    var pos := LastSeparator(s);
    if |s| > MAX_LENGTH || pos <= 0 || pos + 7 > |s| then None else
    var values := FromCodes(s[pos + 1..]);
    if values.None? then None else
    var hrp := Lowered(s[..pos]);
    if !VerifyChecksum(hrp, values.value) then None else
    Some((hrp, values.value[..|values.value| - 6]))
  }

  // ------------------------------------------------------------------- theorems

  lemma {:induction false} LastSeparatorIs(s: Text, pos: nat)
    requires pos < |s| && s[pos] == SEPARATOR && forall i | pos < i < |s| :: s[i] != SEPARATOR
    ensures LastSeparator(s) == pos
  {
    var r := LastSeparator(s);
    assert pos <= r;
  }

  lemma FromToCodes(v: Data)
    requires FiveBits(v)
    ensures FromCodes(ToCodes(v)) == Some(v)
  {
    hide ToCode, FromCode;
    var s := ToCodes(v);
    forall i | 0 <= i < |s|
      ensures FromCode(s[i]) == Some(v[i])
    {
      FromToCode(v[i]);
    }
    FromCodesAt(s);
    assert FromCodes(s).value == v;
  }

  /** The conditions on a human-readable part that decoding checks. */
  ghost predicate Acceptable(hrp: Text, values: Data) {
    && hrp != [] && |hrp| + 1 + |values| + 6 <= MAX_LENGTH
    && forall i | 0 <= i < |hrp| :: 33 <= hrp[i] <= 126
  }

  lemma EncodedShape(hrp: Text, values: Data)
    requires FiveBits(values) && forall i | 0 <= i < |hrp| :: !IsUpper(hrp[i])
    ensures var s := Encode(hrp, values);
            && |s| == |hrp| + 7 + |values|
            && LastSeparator(s) == |hrp|
            && s[..|hrp|] == hrp && s[|hrp| + 1..] == ToCodes(Combined(hrp, values))
            && (forall i | 0 <= i < |s| :: !IsUpper(s[i]))
            && (forall i | |hrp| <= i < |s| :: 33 <= s[i] <= 126)
  {
    hide Combined, ToCode;
    var s, codes := Encode(hrp, values), ToCodes(Combined(hrp, values));
    assert s[|hrp| + 1..] == codes;
    forall i | |hrp| < i < |s|
      ensures s[i] == codes[i - |hrp| - 1] && s[i] != SEPARATOR && !IsUpper(s[i]) && 33 <= s[i] <= 126
    {
    }
    LastSeparatorIs(s, |hrp|);
  }

  /** Decoding gives back what was encoded exactly when the human-readable part is acceptable and the whole is short
      enough. */
  lemma DecodeInvertsEncode(hrp: Text, values: Data)
    requires FiveBits(values) && forall i | 0 <= i < |hrp| :: !IsUpper(hrp[i])
    ensures Decode(Encode(hrp, values)) == if Acceptable(hrp, values) then Some((hrp, values)) else None
  {
    hide Encode, Combined, LastSeparator, ToCodes, FromCodes, VerifyChecksum;
    var s := Encode(hrp, values);
    EncodedShape(hrp, values);
    assert |hrp| <= |s|;
    if Acceptable(hrp, values) {
      assert forall i | 0 <= i < |hrp| :: s[i] == s[..|hrp|][i];
      assert WellFormed(s);
      FromToCodes(Combined(hrp, values));
      LoweredSame(hrp);
      CombinedVerifies(hrp, values);
      assert Combined(hrp, values)[..|values|] == values by { CombinedPrefix(hrp, values); }
    } else if hrp != [] && |s| <= MAX_LENGTH {
      var i :| 0 <= i < |hrp| && !(33 <= hrp[i] <= 126);
      assert s[i] == s[..|hrp|][i] == hrp[i];
    }
  }

  lemma CombinedPrefix(hrp: Text, values: Data)
    requires FiveBits(values)
    ensures Combined(hrp, values)[..|values|] == values
            && Combined(hrp, values)[|values|..] == CreateChecksum(hrp, values)
  {
    hide CreateChecksum;
  }

  lemma LoweredSame(s: Text)
    requires forall i | 0 <= i < |s| :: !IsUpper(s[i])
    ensures Lowered(s) == s
  {
  }

  lemma CombinedVerifies(hrp: Text, values: Data)
    requires FiveBits(values)
    ensures VerifyChecksum(hrp, Combined(hrp, values))
  {
    hide Checksum, Verifies, ExpandHRP;
    ExpandedFive(hrp, values);
    var v := ExpandHRP(hrp) + values;
    ChecksumFiveBits(v);
    ChecksumExact(v, Checksum(v));
    assert ExpandHRP(hrp) + (values + Checksum(v)) == v + Checksum(v);
  }

  /** Whatever decodes is, in lower case, the encoding of the result. */
  lemma EncodeInvertsDecode(s: Text)
    requires Decode(s).Some?
    ensures var (hrp, values) := Decode(s).value;
            && FiveBits(values) && (forall i | 0 <= i < |hrp| :: !IsUpper(hrp[i]))
            && Encode(hrp, values) == Lowered(s)
  {
    hide Decode, FromCodes, VerifyChecksum, Combined, ToCodes, Lowered;
    var pos, all := DecodeParts(s);
    FiveBitsPrefix(all, |all| - 6);
    ChecksumUnique(Lowered(s[..pos]), all);
    LoweredCodes(s[pos + 1..], all);
    LoweredParts(s, pos);
    assert forall i | 0 <= i < pos :: !IsUpper(Lowered(s[..pos])[i]);
  }

  lemma DecodeParts(s: Text) returns (pos: nat, all: Data)
    requires Decode(s).Some?
    ensures pos < |s| && s[pos] == SEPARATOR && Ascii(s[pos + 1..])
    ensures FromCodes(s[pos + 1..]) == Some(all) && FiveBits(all) && |all| >= 6
    ensures VerifyChecksum(Lowered(s[..pos]), all) && Decode(s) == Some((Lowered(s[..pos]), all[..|all| - 6]))
  {
    hide LastSeparator, FromCodes, VerifyChecksum, Lowered;
    pos := LastSeparator(s);
    FromCodesAt(s[pos + 1..]);
    all := FromCodes(s[pos + 1..]).value;
  }

  /** Under one human-readable part, two lists of values that differ in exactly one position never both verify. */
  lemma SubstitutionDetected(hrp: Text, v: Data, w: Data, i: nat)
    requires |v| == |w| && i < |v| && FiveBits(v) && FiveBits(w)
    requires v[i] != w[i] && v[..i] == w[..i] && v[i + 1..] == w[i + 1..]
    ensures !(VerifyChecksum(hrp, v) && VerifyChecksum(hrp, w))
  {
    hide Verifies, ExpandHRP;
    var e := ExpandHRP(hrp);
    var k := |e| + i;
    assert (e + v)[..k] == e + v[..i] && (e + w)[..k] == e + w[..i];
    assert (e + v)[k + 1..] == v[i + 1..] && (e + w)[k + 1..] == w[i + 1..];
    assert (e + v)[k] == v[i] && (e + w)[k] == w[i];
    BurstDetected(e + v, e + w, k, 1);
  }

  /** The list the checksum of a decoded text is computed over. */
  ghost function Checked(s: Text): (r: Data)
    requires Decode(s).Some?
  {
    var (hrp, values) := Decode(s).value;
    ExpandHRP(hrp) + FromCodes(s[|hrp| + 1..]).value
  }

  /** It verifies, and its length and its part of a given character follow from the text in lower case. */
  lemma CheckedFacts(s: Text)
    requires Decode(s).Some?
    ensures var n := |Decode(s).value.0|;
            && n < |s| <= MAX_LENGTH && FiveBits(Checked(s)) && Verifies(Checked(s)) && |Checked(s)| == n + |s|
            && Checked(s)[..2 * n + 1] == ExpandHRP(Decode(s).value.0)
            && (forall i | n < i < |s| :: Checked(s)[n + i] < 32 && ToCode(Checked(s)[n + i]) == LowerCase(s[i]))
            && Lowered(s) == Decode(s).value.0 + [SEPARATOR] + Lowered(s[n + 1..])
  {
    hide Decode, FromCodes, ToCode, ExpandHRP, Verifies, Lowered;
    var pos, all := DecodeParts(s);
    ShortEnough(s);
    ExpandedFive(Lowered(s[..pos]), all);
    LoweredParts(s, pos);
    LoweredCodes(s[pos + 1..], all);
    forall i | pos < i < |s|
      ensures Checked(s)[pos + i] < 32 && ToCode(Checked(s)[pos + i]) == LowerCase(s[i])
    {
      var k := i - pos - 1;
      assert Checked(s)[pos + i] == all[k];
      assert ToCodes(all)[k] == Lowered(s[pos + 1..])[k];
    }
  }

  lemma ShortEnough(s: Text)
    requires Decode(s).Some?
    ensures |s| <= MAX_LENGTH
  {
    hide FromCodes, VerifyChecksum, Lowered, LastSeparator, WellFormed;
  }

  lemma SameCode(v: Word, w: Word)
    requires v < 32 && w < 32 && ToCode(v) == ToCode(w)
    ensures v == w
  {
    hide ToCode, FromCode;
    FromToCode(v);
    FromToCode(w);
  }

  /** Where two texts agree up to case, so do the lists. */
  lemma CheckedAgree(s: Text, t: Text, i: nat)
    requires Decode(s).Some? && Decode(t).Some? && |s| == |t| && Decode(s).value.0 == Decode(t).value.0
    requires |Checked(s)| == |Checked(t)| == |Decode(s).value.0| + |s| && i < |Checked(s)|
    requires i > 2 * |Decode(s).value.0| ==>
               LowerCase(s[i - |Decode(s).value.0|]) == LowerCase(t[i - |Decode(s).value.0|])
    ensures Checked(s)[i] == Checked(t)[i]
  {
    hide Decode, Checked, ToCode, ExpandHRP, Verifies, Lowered;
    var n := |Decode(s).value.0|;
    CheckedFacts(s);
    CheckedFacts(t);
    if i <= 2 * n {
      assert Checked(s)[i] == Checked(s)[..2 * n + 1][i] && Checked(t)[i] == Checked(t)[..2 * n + 1][i];
    } else {
      assert n + (i - n) == i;
      SameCode(Checked(s)[i], Checked(t)[i]);
    }
  }

  lemma SameChecked(s: Text, t: Text)
    requires Decode(s).Some? && Decode(t).Some? && |s| == |t| && Decode(s).value.0 == Decode(t).value.0
    requires Checked(s) == Checked(t)
    ensures Lowered(s) == Lowered(t)
  {
    hide Decode, Checked, ToCode, ExpandHRP, Verifies, Lowered;
    var n := |Decode(s).value.0|;
    CheckedFacts(s);
    CheckedFacts(t);
    var x, y := Lowered(s[n + 1..]), Lowered(t[n + 1..]);
    forall i | 0 <= i < |x|
      ensures x[i] == y[i]
    {
      assert s[n + 1..][i] == s[n + 1 + i] && t[n + 1..][i] == t[n + 1 + i];
      assert Checked(s)[n + (n + 1 + i)] == Checked(t)[n + (n + 1 + i)];
    }
    assert x == y;
  }

  /**
   Up to three errors are detected: texts of the same length with the same human-readable part that both decode,
   and that agree up to case but at three positions, agree up to case.
   */
  lemma ErrorsDetected(s: Text, t: Text, a: nat, b: nat, c: nat)
    requires Decode(s).Some? && Decode(t).Some? && |s| == |t| && Decode(s).value.0 == Decode(t).value.0
    requires a < b < c < |s|
    requires forall i | 0 <= i < |s| && i != a && i != b && i != c :: LowerCase(s[i]) == LowerCase(t[i])
    ensures Lowered(s) == Lowered(t)
  {
    hide Decode, Checked, ToCode, ExpandHRP, Verifies, Lowered, LowerCase, FiveBits;
    var n := |Decode(s).value.0|;
    CheckedFacts(s);
    CheckedFacts(t);
    forall i | 0 <= i < |Checked(s)| && i != n + a && i != n + b && i != n + c
      ensures Checked(s)[i] == Checked(t)[i]
    {
      CheckedAgree(s, t, i);
    }
    Bech32Errors.ThreeErrorsDetected(Checked(s), Checked(t), n + a, n + b, n + c);
    SameChecked(s, t);
  }

  /** Errors within six consecutive characters are detected, however many they are. */
  lemma BurstsDetected(s: Text, t: Text, a: nat, k: nat)
    requires Decode(s).Some? && Decode(t).Some? && |s| == |t| && Decode(s).value.0 == Decode(t).value.0
    requires k <= 6 && a + k <= |s|
    requires forall i | 0 <= i < |s| && !(a <= i < a + k) :: LowerCase(s[i]) == LowerCase(t[i])
    ensures Lowered(s) == Lowered(t)
  {
    hide Decode, Checked, ToCode, ExpandHRP, Verifies, Lowered, LowerCase;
    var n := |Decode(s).value.0|;
    CheckedFacts(s);
    CheckedFacts(t);
    var v, w, i := Checked(s), Checked(t), n + a;
    forall j | 0 <= j < |v| && !(i <= j < i + k)
      ensures v[j] == w[j]
    {
      CheckedAgree(s, t, j);
    }
    assert v[..i] == w[..i] && v[i + k..] == w[i + k..];
    if v != w {
      BurstDetected(v, w, i, k);
    }
    SameChecked(s, t);
  }

  lemma CodeParts(c: Code, d: Code)
    requires HighBits(c) == HighBits(d) && LowBits(c) == LowBits(d)
    ensures c == d
  {
    NatBack(c / 32);
    NatBack(d / 32);
    NatBack(c % 32);
    NatBack(d % 32);
  }

  /** Where the two values of a character of the human-readable part are. */
  lemma ExpandedAt(hrp: Text, i: nat)
    requires i < |hrp|
    ensures ExpandHRP(hrp)[i] == HighBits(hrp[i]) && ExpandHRP(hrp)[|hrp| + 1 + i] == LowBits(hrp[i])
    ensures ExpandHRP(hrp)[|hrp|] == 0
  {
    hide HighBits, LowBits;
  }

  /** Different human-readable parts of the same length are expanded differently. */
  lemma ExpandedSame(a: Text, b: Text)
    requires |a| == |b| && ExpandHRP(a) == ExpandHRP(b)
    ensures a == b
  {
    hide ExpandHRP, HighBits, LowBits;
    forall i | 0 <= i < |a|
      ensures a[i] == b[i]
    {
      ExpandedAt(a, i);
      ExpandedAt(b, i);
      CodeParts(a[i], b[i]);
    }
  }

  /** An error in one character of the human-readable part changes two of the expanded values. */
  lemma ExpandedDiffers(a: Text, b: Text, k: nat, i: nat)
    requires |a| == |b| && k < |a| && i < 2 * |a| + 1 && i != k && i != |a| + 1 + k
    requires forall j | 0 <= j < |a| && j != k :: a[j] == b[j]
    ensures ExpandHRP(a)[i] == ExpandHRP(b)[i]
  {
    hide ExpandHRP, HighBits, LowBits;
    if i != |a| {
      var j := if i < |a| then i else i - |a| - 1;
      ExpandedAt(a, j);
      ExpandedAt(b, j);
    } else {
      ExpandedAt(a, 0);
      ExpandedAt(b, 0);
    }
  }

  /**
   An error in the human-readable part is detected, together with one behind it: texts of the same length with the
   separator in the same place that both decode, and that agree up to case but at one position before the separator
   and one after it, agree up to case.
   */
  lemma HrpErrorDetected(s: Text, t: Text, a: nat, b: nat)
    requires Decode(s).Some? && Decode(t).Some? && |s| == |t| && |Decode(s).value.0| == |Decode(t).value.0|
    requires a < |Decode(s).value.0| < b < |s|
    requires forall i | 0 <= i < |s| && i != a && i != b :: LowerCase(s[i]) == LowerCase(t[i])
    ensures Lowered(s) == Lowered(t)
  {
    hide Decode, Checked, ToCode, ExpandHRP, Verifies, Lowered, LowerCase, FiveBits;
    var n, v, w := |Decode(s).value.0|, Checked(s), Checked(t);
    CheckedFacts(s);
    CheckedFacts(t);
    forall i | 0 <= i < |v| && i != a && i != n + 1 + a && i != n + b
      ensures v[i] == w[i]
    {
      CheckedHrp(s, t, a, i);
    }
    Bech32Errors.ThreeErrorsDetected(v, w, a, n + 1 + a, n + b);
    assert v[..2 * n + 1] == w[..2 * n + 1];
    ExpandedSame(Decode(s).value.0, Decode(t).value.0);
    SameChecked(s, t);
  }

  /** The lists agree but at the two values of a character of the human-readable part, and behind it where texts do. */
  lemma CheckedHrp(s: Text, t: Text, a: nat, i: nat)
    requires Decode(s).Some? && Decode(t).Some? && |s| == |t| && |Decode(s).value.0| == |Decode(t).value.0|
    requires a < |Decode(s).value.0| && |Checked(s)| == |Checked(t)| == |Decode(s).value.0| + |s|
    requires i < |Checked(s)| && i != a && i != |Decode(s).value.0| + 1 + a
    requires forall j | 0 <= j < |Decode(s).value.0| && j != a :: LowerCase(s[j]) == LowerCase(t[j])
    requires i > 2 * |Decode(s).value.0| ==>
               LowerCase(s[i - |Decode(s).value.0|]) == LowerCase(t[i - |Decode(s).value.0|])
    ensures Checked(s)[i] == Checked(t)[i]
  {
    hide Decode, Checked, ToCode, ExpandHRP, Verifies, Lowered, LowerCase, FiveBits;
    var x, y := Decode(s).value.0, Decode(t).value.0;
    var n := |x|;
    CheckedFacts(s);
    CheckedFacts(t);
    if i <= 2 * n {
      forall j | 0 <= j < n && j != a
        ensures x[j] == y[j]
      {
        assert x[j] == Lowered(s)[j] && y[j] == Lowered(t)[j];
      }
      ExpandedDiffers(x, y, a, i);
      assert Checked(s)[i] == Checked(s)[..2 * n + 1][i] && Checked(t)[i] == Checked(t)[..2 * n + 1][i];
    } else {
      assert n + (i - n) == i;
      SameCode(Checked(s)[i], Checked(t)[i]);
    }
  }

  lemma FiveBitsPrefix(v: Data, n: nat)
    requires FiveBits(v) && n <= |v|
    ensures FiveBits(v[..n]) && FiveBits(v[n..])
  {
  }

  /** Values that verify end in their checksum. */
  lemma ChecksumUnique(hrp: Text, all: Data)
    requires FiveBits(all) && |all| >= 6 && VerifyChecksum(hrp, all)
    ensures FiveBits(all[..|all| - 6]) && Combined(hrp, all[..|all| - 6]) == all
  {
    hide Checksum, Verifies, ExpandHRP;
    var n := |all| - 6;
    var values, sum := all[..n], all[n..];
    FiveBitsPrefix(all, n);
    ExpandedFive(hrp, values);
    assert ExpandHRP(hrp) + all == ExpandHRP(hrp) + values + sum;
    ChecksumExact(ExpandHRP(hrp) + values, sum);
    assert values + sum == all;
  }

  lemma LoweredCodes(s: Text, v: Data)
    requires Ascii(s) && FromCodes(s) == Some(v) && FiveBits(v)
    ensures ToCodes(v) == Lowered(s)
  {
    hide ToCode, FromCode;
    FromCodesAt(s);
    forall i | 0 <= i < |s|
      ensures ToCodes(v)[i] == Lowered(s)[i]
    {
      ToFromCode(s[i], v[i]);
    }
  }

  lemma ToFromCode(c: Code, v: Word)
    requires c < 128 && FromCode(c) == Some(v)
    ensures v < 32 && ToCode(v) == LowerCase(c)
  {
    hide CharsetRev, CHARSET;
    RevCodes(c);
    NatBack(CharsetRev(c));
  }

  lemma NatBack(n: nat)
    requires n < 32
    ensures (n as bv32) as nat == n
  {
  }

  lemma LoweredParts(s: Text, pos: nat)
    requires pos < |s| && s[pos] == SEPARATOR
    ensures Lowered(s) == Lowered(s[..pos]) + [SEPARATOR] + Lowered(s[pos + 1..])
  {
    hide Lowered;
    var a, b := Lowered(s[..pos]), Lowered(s[pos + 1..]);
    forall i | 0 <= i < |s|
      ensures Lowered(s)[i] == (a + [SEPARATOR] + b)[i]
    {
      if i < pos {
        assert s[..pos][i] == s[i];
      } else if i > pos {
        assert s[pos + 1..][i - pos - 1] == s[i];
      }
    }
  }

  // -------------------------------------------------------------------- methods

  /** The remainder, with the terms of the leading coefficient added one by one. */
  method ComputePolyMod(v: Data) returns (c: Word)
    ensures c == PolyMod(v)
  {
    hide Step;
    c := 1;
    var i := 0;
    while i < |v|
      invariant 0 <= i <= |v| && c == Run(1, v[..i])
    {
      c := ComputeStep(c, v[i]);
      assert v[..i + 1][..i] == v[..i];
      i := i + 1;
    }
    assert v[..|v|] == v;
  }

  method ComputeStep(c: Word, v: Word) returns (r: Word)
    ensures r == Step(c, v)
  {
    hide Xor, Moved;
    r := Xor(Moved(c), v);
    ghost var m := r;
    XorSelf(m);
    if Leading(c, 1) { r := Xor(r, 0x3b6a_57b2); }
    assert r == Xor(m, Term(c, 1, 0x3b6a_57b2));
    r := AddTerm(r, c, 2, 0x2650_8e6d);
    r := AddTerm(r, c, 4, 0x1ea1_19fa);
    r := AddTerm(r, c, 8, 0x3d42_33dd);
    r := AddTerm(r, c, 16, 0x2a14_62b3);
    XorChain(m, Term(c, 1, 0x3b6a_57b2), Term(c, 2, 0x2650_8e6d), Term(c, 4, 0x1ea1_19fa), Term(c, 8, 0x3d42_33dd),
             Term(c, 16, 0x2a14_62b3));
    XorAssoc(Moved(c), v, Reduction(c));
    XorCommutes(v, Reduction(c));
    XorAssoc(Moved(c), Reduction(c), v);
  }

  method AddTerm(x: Word, c: Word, bit: Word, k: Word) returns (r: Word)
    ensures r == Xor(x, Term(c, bit, k))
  {
    hide Xor;
    XorSelf(x);
    r := x;
    if Leading(c, bit) {
      r := Xor(r, k);
    }
  }

  lemma XorChain(m: Word, a: Word, b: Word, c: Word, d: Word, e: Word)
    ensures Xor(Xor(Xor(Xor(Xor(m, a), b), c), d), e) == Xor(m, Xor(Xor(Xor(Xor(a, b), c), d), e))
  {
    hide Xor;
    XorAssoc(m, a, b);
    XorAssoc(m, Xor(a, b), c);
    XorAssoc(m, Xor(Xor(a, b), c), d);
    XorAssoc(m, Xor(Xor(Xor(a, b), c), d), e);
  }

  method EncodeText(hrp: Text, values: Data) returns (r: Text)
    requires FiveBits(values) && forall i | 0 <= i < |hrp| :: !IsUpper(hrp[i])
    ensures r == Encode(hrp, values)
  {
    hide ToCode, Combined;
    var enc := ExpandHRP(hrp) + values + ZEROS;
    var mod := ComputePolyMod(enc);
    var combined := values + Groups(Xor(mod, 1));
    CombinedIs(hrp, values);
    r := hrp + [SEPARATOR];
    var i := 0;
    while i < |combined|
      invariant 0 <= i <= |combined| && r == hrp + [SEPARATOR] + ToCodes(combined)[..i]
    {
      r := r + [ToCode(combined[i])];
      i := i + 1;
    }
  }

  lemma CombinedIs(hrp: Text, values: Data)
    requires FiveBits(values)
    ensures Combined(hrp, values) == values + Groups(Xor(PolyMod(ExpandHRP(hrp) + values + ZEROS), 1))
  {
  }

  /** Whether a text is well formed, in one pass. */
  method CheckCharacters(s: Text) returns (ok: bool)
    ensures ok <==> WellFormed(s)
  {
    var lower, upper := false, false;
    var i := 0;
    while i < |s|
      invariant 0 <= i <= |s| && forall j | 0 <= j < i :: 33 <= s[j] <= 126
      invariant lower <==> exists j :: 0 <= j < i && IsLower(s[j])
      invariant upper <==> exists j :: 0 <= j < i && IsUpper(s[j])
    {
      var c := s[i];
      if IsLower(c) {
        lower := true;
      } else if IsUpper(c) {
        upper := true;
      } else if c < 33 || c > 126 {
        return false;
      }
      i := i + 1;
    }
    ok := !(lower && upper);
  }

  method FindSeparator(s: Text) returns (pos: int)
    ensures pos == LastSeparator(s)
  {
    pos := |s| - 1;
    while pos >= 0 && s[pos] != SEPARATOR
      invariant -1 <= pos < |s| && forall i | pos < i < |s| :: s[i] != SEPARATOR
    {
      pos := pos - 1;
    }
    if pos >= 0 {
      LastSeparatorIs(s, pos);
    }
  }

  method DecodeText(s: Text) returns (r: Option<(Text, Data)>)
    ensures r == Decode(s)
  {
    hide FromCodes, LastSeparator, Lowered, ExpandHRP;
    var ok := CheckCharacters(s);
    if !ok {
      return None;
    }
    var pos := FindSeparator(s);
    if |s| > MAX_LENGTH || pos == -1 || pos == 0 || pos + 7 > |s| {
      return None;
    }
    var decoded := ValuesOf(s[pos + 1..]);
    if decoded.None? {
      return None;
    }
    var values := decoded.value;
    var hrp := LowerText(s[..pos]);
    var rest := ComputePolyMod(ExpandHRP(hrp) + values);
    if rest != 1 {
      return None;
    }
    r := Some((hrp, values[..|values| - 6]));
  }

  method ValuesOf(codes: Text) returns (r: Option<Data>)
    requires Ascii(codes)
    ensures r == FromCodes(codes)
  {
    hide FromCode, FromCodes;
    var values: Data := [];
    var i := 0;
    FromCodesAt(codes);
    while i < |codes|
      invariant 0 <= i <= |codes| && |values| == i && forall j | 0 <= j < i :: FromCode(codes[j]) == Some(values[j])
    {
      var rev := FromCode(codes[i]);
      if rev.None? {
        return None;
      }
      values := values + [rev.value];
      i := i + 1;
    }
    assert values == FromCodes(codes).value;
    r := Some(values);
  }

  method LowerText(s: Text) returns (r: Text)
    ensures r == Lowered(s)
  {
    r := [];
    var i := 0;
    while i < |s|
      invariant 0 <= i <= |s| && r == Lowered(s)[..i]
    {
      r := r + [LowerCase(s[i])];
      i := i + 1;
    }
  }
}
