/** Bits packed into bytes, least significant bit first. */
module BitPacking {

  /** The byte with only bit k set. */
  function Bit(k: nat): bv8
    requires k < 8
  {
    1 << k
  }

  predicate IsSet(b: bv8, k: nat)
    requires k < 8
  {
    b & Bit(k) != 0
  }

  lemma BitTable(k: nat)
    requires k < 8
    ensures Bit(k) == [1 as bv8, 2, 4, 8, 16, 32, 64, 128][k]
  {
    if k == 0 { assert Bit(0) == 1; }
    else if k == 1 { assert Bit(1) == 2; }
    else if k == 2 { assert Bit(2) == 4; }
    else if k == 3 { assert Bit(3) == 8; }
    else if k == 4 { assert Bit(4) == 16; }
    else if k == 5 { assert Bit(5) == 32; }
    else if k == 6 { assert Bit(6) == 64; }
    else { assert Bit(7) == 128; }
  }

  /** Two different bits share no set position. */
  lemma BitsDisjoint(i: nat, k: nat)
    requires i < 8 && k < 8
    ensures Bit(k) != 0 && (i != k ==> Bit(k) & Bit(i) == 0)
  {
    hide Bit;
    BitTable(i);
    BitTable(k);
  }

  lemma OrMasked(b: bv8, x: bv8, m: bv8)
    ensures (b | x) & m == (b & m) | (x & m)
  {
  }

  lemma OrZero(a: bv8)
    ensures a | 0 == a && 0 | a == a && a & a == a
  {
  }

  lemma OrNonZero(a: bv8, b: bv8)
    requires b != 0
    ensures a | b != 0
  {
  }

  /** Setting one bit sets that bit and no other. */
  lemma SetBit(b: bv8, k: nat, i: nat)
    requires k < 8 && i < 8
    ensures IsSet(b | Bit(k), i) <==> IsSet(b, i) || i == k
  {
    hide Bit;
    BitsDisjoint(i, k);
    BitsDisjoint(k, k);
    OrMasked(b, Bit(k), Bit(i));
    OrZero(Bit(i));
    OrZero(b & Bit(i));
    if i == k {
      OrNonZero(b & Bit(i), Bit(k) & Bit(i));
    }
  }

  lemma AndNotMasked(b: bv8, x: bv8, m: bv8)
    ensures (b & !x) & m == (b & m) & !x
  {
  }

  lemma KeepDisjoint(a: bv8, x: bv8, m: bv8)
    requires x & m == 0
    ensures (a & m) & !x == a & m
  {
  }

  lemma DropSame(a: bv8, x: bv8)
    ensures (a & x) & !x == 0
  {
  }

  /** Clearing one bit clears that bit and no other. */
  lemma ClearBit(b: bv8, k: nat, i: nat)
    requires k < 8 && i < 8
    ensures IsSet(b & !Bit(k), i) <==> IsSet(b, i) && i != k
  {
    hide Bit;
    BitsDisjoint(i, k);
    AndNotMasked(b, Bit(k), Bit(i));
    if i == k {
      DropSame(b, Bit(k));
    } else {
      KeepDisjoint(b, Bit(k), Bit(i));
    }
  }

  lemma ZeroHasNoBits(k: nat)
    requires k < 8
    ensures !IsSet(0, k)
  {
    hide Bit;
    ZeroAnd(Bit(k));
  }

  lemma ZeroAnd(m: bv8)
    ensures 0 & m == 0
  {
  }

  /** The first n bits of byte j of a packed sequence. */
  ghost function PackedByte(bits: seq<bool>, j: nat, n: nat): bv8
    requires n <= 8
  {
    if n == 0 then 0
    else if 8 * j + n - 1 < |bits| && bits[8 * j + n - 1] then PackedByte(bits, j, n - 1) | Bit(n - 1)
    else PackedByte(bits, j, n - 1)
  }

  lemma {:induction false} PackedByteBits(bits: seq<bool>, j: nat, n: nat, k: nat)
    requires n <= 8 && k < 8
    ensures IsSet(PackedByte(bits, j, n), k) <==> k < n && 8 * j + k < |bits| && bits[8 * j + k]
  {
    hide IsSet, Bit;
    if n == 0 {
      ZeroHasNoBits(k);
    } else {
      PackedByteBits(bits, j, n - 1, k);
      SetBit(PackedByte(bits, j, n - 1), n - 1, k);
    }
  }

  ghost function Pack(bits: seq<bool>): seq<bv8> {
    seq((|bits| + 7) / 8, j requires 0 <= j => PackedByte(bits, j, 8))
  }

  function Unpack(bytes: seq<bv8>): seq<bool> {
    seq(8 * |bytes|, p requires 0 <= p < 8 * |bytes| => IsSet(bytes[p / 8], p % 8))
  }

  /** Unpacking gives the bits back, followed by fewer than eight zero bits. */
  lemma UnpackInvertsPack(bits: seq<bool>)
    ensures var u := Unpack(Pack(bits));
            && |bits| <= |u| < |bits| + 8 && |u| == 8 * ((|bits| + 7) / 8)
            && u[..|bits|] == bits && forall p | |bits| <= p < |u| :: !u[p]
  {
    hide IsSet, PackedByte;
    var u := Unpack(Pack(bits));
    forall p | 0 <= p < |u| ensures u[p] <==> p < |bits| && bits[p] {
      PackedByteBits(bits, p / 8, 8, p % 8);
      assert 8 * (p / 8) + p % 8 == p;
    }
  }

  /** A byte is determined by its bits. */
  lemma SameBits(a: bv8, b: bv8)
    requires forall k: nat | k < 8 :: IsSet(a, k) <==> IsSet(b, k)
    ensures a == b
  {
    assert IsSet(a, 0) <==> IsSet(b, 0);
    assert IsSet(a, 1) <==> IsSet(b, 1);
    assert IsSet(a, 2) <==> IsSet(b, 2);
    assert IsSet(a, 3) <==> IsSet(b, 3);
    assert IsSet(a, 4) <==> IsSet(b, 4);
    assert IsSet(a, 5) <==> IsSet(b, 5);
    assert IsSet(a, 6) <==> IsSet(b, 6);
    assert IsSet(a, 7) <==> IsSet(b, 7);
  }

  /** BitsToBytes: one bit at a time into zeroed bytes. */
  method BitsToBytes(bits: seq<bool>) returns (bytes: array<bv8>)
    ensures fresh(bytes) && bytes[..] == Pack(bits)
  {
    hide IsSet, Bit;
    bytes := new bv8[(|bits| + 7) / 8](_ => 0);
    forall k: nat | k < 8 ensures !IsSet(0, k) {
      ZeroHasNoBits(k);
    }
    var p: nat := 0;
    while p < |bits|
      invariant p <= |bits|
      invariant forall j: nat, k: nat | j < bytes.Length && k < 8 ::
          IsSet(bytes[j], k) <==> 8 * j + k < p && bits[8 * j + k]
    {
      ghost var before := bytes[p / 8];
      if bits[p] {
        bytes[p / 8] := bytes[p / 8] | Bit(p % 8);
        forall k: nat | k < 8 ensures IsSet(bytes[p / 8], k) <==> IsSet(before, k) || k == p % 8 {
          SetBit(before, p % 8, k);
        }
      }
      p := p + 1;
    }
    forall j: nat | j < bytes.Length ensures bytes[j] == PackedByte(bits, j, 8) {
      forall k: nat | k < 8 ensures IsSet(bytes[j], k) <==> IsSet(PackedByte(bits, j, 8), k) {
        PackedByteBits(bits, j, 8, k);
      }
      SameBits(bytes[j], PackedByte(bits, j, 8));
    }
  }

  /** BytesToBits: one bit at a time. */
  method BytesToBits(bytes: seq<bv8>) returns (bits: array<bool>)
    ensures fresh(bits) && bits[..] == Unpack(bytes)
  {
    bits := new bool[8 * |bytes|];
    var p := 0;
    while p < bits.Length
      invariant 0 <= p <= bits.Length
      invariant forall q | 0 <= q < p :: bits[q] == IsSet(bytes[q / 8], q % 8)
    {
      bits[p] := IsSet(bytes[p / 8], p % 8);
      p := p + 1;
    }
  }
}
