/**
 Bit length, shifts and division of 256-bit integers, limb by limb.  Division
 shifts and subtracts, and is proved to give the true quotient.
 */
module ArithDivision {
  import opened Arithmetic
  import opened ArithUint256

  lemma Base32()
    ensures Pow(2, 32) == BASE
  {
    assert Pow(2, 8) == 256;
    PowAdd(2, 8, 8);
    PowAdd(2, 16, 16);
  }

  lemma {:induction false} PowBase(n: nat)
    ensures Pow(BASE, n) == Pow(2, 32 * n)
  {
    hide Pow;
    if n > 0 {
      PowBase(n - 1);
      PowStep(n - 1);
      Base32();
      PowAdd(2, 32, 32 * (n - 1));
    } else {
      PowZeros();
    }
  }

  lemma PowZeros()
    ensures Pow(BASE, 0) == 1 == Pow(2, 0) && Pow(2, 1) == 2
  {
  }

  // ---------------------------------------------------------------- bit length

  /** r is the number of bits of v. */
  ghost predicate HasBits(v: nat, r: nat) {
    if v == 0 then r == 0 else r > 0 && Pow(2, r - 1) <= v < Pow(2, r)
  }

  /** The position of the highest set bit, plus one. */
  method BitLength(a: array<Limb>) returns (r: nat)
    requires IsNumber(a)
    ensures HasBits(Value(a), r) && r <= 256
  {
    hide Pow, HasBits;
    var pos := WIDTH - 1;
    while pos >= 0
      invariant -1 <= pos < WIDTH
      invariant forall i | pos < i < WIDTH :: a[i] == 0
    {
      if a[pos] != 0 {
        ValZeros(a[..], pos + 1, WIDTH);
        var nbits := TopBit(a[pos]);
        TopLimbBits(a[..], pos, nbits);
        return 32 * pos + nbits + 1;
      }
      pos := pos - 1;
    }
    ValZeros(a[..], 0, WIDTH);
    ValNone(a[..]);
    ZeroBits();
    r := 0;
  }

  lemma ZeroBits()
    ensures HasBits(0, 0)
  {
  }

  /** The highest set bit of a limb. */
  method TopBit(x: Limb) returns (nbits: nat)
    requires x != 0
    ensures nbits < 32 && Pow(2, nbits) <= x < Pow(2, nbits + 1)
  {
    hide Pow;
    nbits := 31;
    Base32();
    PowZeros();
    while nbits > 0
      invariant 0 <= nbits < 32 && x < Pow(2, nbits + 1)
    {
      PowPositive(2, nbits);
      PowTwice(nbits);
      var q := x / Pow(2, nbits);
      if q % 2 == 1 {
        QuotientAtLeast(x, Pow(2, nbits));
        return;
      }
      QuotientEven(x, Pow(2, nbits));
      nbits := nbits - 1;
    }
  }

  lemma PowTwice(n: nat)
    ensures Pow(2, n + 1) == 2 * Pow(2, n)
  {
  }

  lemma QuotientAtLeast(x: nat, p: nat)
    requires p >= 1 && x / p >= 1
    ensures x >= p
  {
    assert x == p * (x / p) + x % p;
    MulGrows(p, x / p);
  }

  lemma QuotientEven(x: nat, p: nat)
    requires p >= 1 && x < 2 * p && x / p % 2 == 0
    ensures x < p
  {
    if x >= p {
      DivUnique(x, p, 1, x - p);
    }
  }

  lemma TopLimbBits(s: seq<Limb>, pos: nat, nbits: nat)
    requires pos < WIDTH == |s| && nbits < 32 && Pow(2, nbits) <= s[pos] < Pow(2, nbits + 1)
    requires Val(s, WIDTH) == Val(s, pos + 1)
    ensures HasBits(Val(s, WIDTH), 32 * pos + nbits + 1)
  {
    hide Pow, Val;
    ValStep(s, pos);
    ValBound(s, pos);
    PowBase(pos);
    PowAdd(2, nbits, 32 * pos);
    PowAdd(2, nbits + 1, 32 * pos);
    AtPlace(Val(s, pos), s[pos], Pow(BASE, pos), Pow(2, nbits), Pow(2, nbits + 1));
    PowPositive(2, nbits + 32 * pos);
  }

  lemma AtPlace(low: nat, x: nat, p: nat, a: nat, b: nat)
    requires low < p && a <= x < b
    ensures a * p <= low + x * p < b * p
  {
    MulMono(a, x, p);
    MulMono(x + 1, b, p);
    assert (x + 1) * p == x * p + p;
  }

  // --------------------------------------------------------------- bitwise or

  function Or(a: nat, b: nat): (r: nat) {
    if a == 0 then b else if b == 0 then a else 2 * Or(a / 2, b / 2) + (if a % 2 == 1 || b % 2 == 1 then 1 else 0)
  }

  /** Numbers with no bit in common: below a place, and a multiple of it. */
  lemma {:induction false} OrDisjoint(x: nat, k: nat, n: nat)
    requires x < Pow(2, n)
    ensures Or(x, k * Pow(2, n)) == Or(k * Pow(2, n), x) == x + k * Pow(2, n)
  {
    if n > 0 && x > 0 && k > 0 {
      var p := Pow(2, n - 1);
      var y := k * p;
      assert k * Pow(2, n) == 2 * y;
      OrDisjoint(x / 2, k, n - 1);
      assert 2 * y / 2 == y;
    }
  }

  // ------------------------------------------------------------------- shifts

  /** What a limb shifted left leaves in its own place, and in the next one. */
  ghost function Low(x: Limb, s: nat): Limb { x * Pow(2, s) % BASE }

  ghost function High(x: Limb, s: nat): Limb
    requires s <= 32
  {
    HighIsLimb(x, s);
    x / Pow(2, 32 - s)
  }

  lemma HighIsLimb(x: Limb, s: nat)
    requires s <= 32
    ensures Pow(2, 32 - s) >= 1 && 0 <= x / Pow(2, 32 - s) < Pow(2, s) <= BASE
  {
    hide Pow;
    PowPositive(2, 32 - s);
    PowAdd(2, s, 32 - s);
    PowMono(2, s, 32);
    Base32();
    QuotientBelow(x, Pow(2, s), Pow(2, 32 - s));
  }

  lemma QuotientBelow(x: nat, a: nat, p: nat)
    requires p >= 1 && x < a * p
    ensures 0 <= x / p < a
  {
    var q := x / p;
    assert x == p * q + x % p;
    if q >= a {
      MulMono(a, q, p);
    }
  }

  /** The two parts of a shifted limb: together they are the product, and they have no bit in common. */
  lemma SplitLimb(x: Limb, s: nat) returns (k: nat)
    requires s <= 32
    ensures x * Pow(2, s) == Low(x, s) + High(x, s) * BASE
    ensures Low(x, s) == k * Pow(2, s) <= BASE - Pow(2, s)
  {
    hide Pow;
    HighIsLimb(x, s);
    PowAdd(2, s, 32 - s);
    Base32();
    PowPositive(2, s);
    var p, q := Pow(2, s), Pow(2, 32 - s);
    k := x % q;
    assert x == q * (x / q) + k;
    SplitProduct(x, p, q, x / q, k);
    MulMono(k + 1, q, p);
    assert (k + 1) * p == k * p + p;
    assert q * p == p * q;
    MulNonNegative(k, p);
    DivUnique(x * p, BASE, x / q, k * p);
  }

  lemma SplitProduct(x: int, p: int, q: int, h: int, k: int)
    requires x == q * h + k
    ensures x * p == (p * q) * h + k * p
  {
    assert x * p == (q * h) * p + k * p;
    assert (q * h) * p == (p * q) * h;
  }

  /** The parts of two neighbouring limbs fill a limb without touching. */
  lemma OrParts(x: Limb, y: Limb, s: nat)
    requires s <= 32
    ensures Or(High(x, s), Low(y, s)) == Or(Low(y, s), High(x, s)) == High(x, s) + Low(y, s) < BASE
    ensures Or(0, Low(y, s)) == Low(y, s) && Or(0, High(x, s)) == High(x, s)
  {
    hide Pow;
    HighIsLimb(x, s);
    var k := SplitLimb(y, s);
    OrDisjoint(High(x, s), k, s);
  }

  lemma NoShift(x: Limb)
    ensures Low(x, 0) == x && High(x, 0) == 0 && Low(x, 32) == 0 && High(x, 32) == x
  {
    hide Pow;
    Base32();
    PowZeros();
  }

  /** The limb at place m after the first i limbs have been shifted left by k limbs and s bits. */
  ghost function Shifted(a: seq<Limb>, k: int, s: nat, i: nat, m: nat): nat
    requires i <= |a| && s <= 32
  {
    (if 0 <= m - k < i then Low(a[m - k], s) else 0) + (if 0 <= m - k - 1 < i then High(a[m - k - 1], s) else 0)
  }

  method Zero(pn: array<Limb>)
    requires IsNumber(pn)
    modifies pn
    ensures forall m | 0 <= m < WIDTH :: pn[m] == 0
  {
    var i := 0;
    while i < WIDTH
      invariant 0 <= i <= WIDTH && forall m | 0 <= m < i :: pn[m] == 0
    {
      pn[i] := 0;
      i := i + 1;
    }
  }

  /** pn <<= shift. */
  method ShiftLeft(pn: array<Limb>, shift: nat)
    requires IsNumber(pn)
    modifies pn
    ensures Value(pn) == old(Value(pn)) * Pow(2, shift) % Modulus()
  {
    hide Pow, Low, High, Or, Val, Modulus;
    var a := Copy(pn);
    Zero(pn);
    ghost var x := a[..];
    var k, s := shift / 32, shift % 32;
    var i := 0;
    while i < WIDTH
      invariant 0 <= i <= WIDTH && a[..] == x
      invariant forall m | 0 <= m < WIDTH :: pn[m] == Shifted(x, k, s, i, m)
      modifies pn
    {
      PlaceLeft(pn, a[i], x, i, k, s);
      i := i + 1;
    }
    ShiftedLeft(x, pn[..], k, s);
  }

  /** Puts the two parts of a limb in their places. */
  method PlaceLeft(pn: array<Limb>, limb: Limb, ghost x: seq<Limb>, i: nat, k: nat, s: nat)
    requires IsNumber(pn) && |x| == WIDTH && i < WIDTH && s < 32 && limb == x[i]
    requires forall m | 0 <= m < WIDTH :: pn[m] == Shifted(x, k, s, i, m)
    modifies pn
    ensures forall m | 0 <= m < WIDTH :: pn[m] == Shifted(x, k, s, i + 1, m)
  {
    hide Pow, Low, High, Or;
    OrParts(if i > 0 then x[i - 1] else 0, limb, s);
    OrParts(limb, 0, s);
    LowIs(limb, s);
    HighIs(limb, s);
    if i + k + 1 < WIDTH && s != 0 {
      assert pn[i + k + 1] == 0;
      pn[i + k + 1] := Or(pn[i + k + 1], limb / Pow(2, 32 - s));
    } else if s == 0 {
      NoShift(limb);
    }
    if i + k < WIDTH {
      assert pn[i + k] == if i > 0 then High(x[i - 1], s) else 0;
      pn[i + k] := Or(pn[i + k], limb * Pow(2, s) % BASE);
    }
  }

  /** pn >>= shift. */
  method ShiftRight(pn: array<Limb>, shift: nat)
    requires IsNumber(pn)
    modifies pn
    ensures Pow(2, shift) >= 1 && Value(pn) == old(Value(pn)) / Pow(2, shift)
  {
    hide Pow, Low, High, Or, Val, Modulus;
    var a := Copy(pn);
    Zero(pn);
    ghost var x := a[..];
    var k, s := shift / 32, shift % 32;
    var i := 0;
    while i < WIDTH
      invariant 0 <= i <= WIDTH && a[..] == x
      invariant forall m | 0 <= m < WIDTH :: pn[m] == Shifted(x, -k - 1, 32 - s, i, m)
      modifies pn
    {
      PlaceRight(pn, a[i], x, i, k, s);
      i := i + 1;
    }
    ShiftedRight(x, pn[..], k, s);
  }

  method PlaceRight(pn: array<Limb>, limb: Limb, ghost x: seq<Limb>, i: nat, k: int, s: nat)
    requires IsNumber(pn) && |x| == WIDTH && i < WIDTH && s < 32 && limb == x[i] && k >= 0
    requires forall m | 0 <= m < WIDTH :: pn[m] == Shifted(x, -k - 1, 32 - s, i, m)
    modifies pn
    ensures forall m | 0 <= m < WIDTH :: pn[m] == Shifted(x, -k - 1, 32 - s, i + 1, m)
  {
    hide Pow, Low, High, Or;
    OrParts(if i > 0 then x[i - 1] else 0, limb, 32 - s);
    OrParts(limb, 0, 32 - s);
    LowIs(limb, 32 - s);
    HighIs(limb, 32 - s);
    if i - k - 1 >= 0 && s != 0 {
      assert pn[i - k - 1] == High(x[i - 1], 32 - s);
      pn[i - k - 1] := Or(pn[i - k - 1], limb * Pow(2, 32 - s) % BASE);
    } else if s == 0 {
      NoShift(limb);
    }
    if i - k >= 0 {
      assert pn[i - k] == 0;
      pn[i - k] := Or(pn[i - k], limb / Pow(2, s));
    }
  }

  lemma LowIs(x: Limb, s: nat)
    ensures Low(x, s) == x * Pow(2, s) % BASE
  {
  }

  lemma HighIs(x: Limb, s: nat)
    requires s <= 32
    ensures Pow(2, 32 - s) >= 1 && High(x, s) == x / Pow(2, 32 - s)
  {
    HighIsLimb(x, s);
  }

  /** The limbs of a left shift add up to the shifted value, but for what leaves at the top. */
  lemma {:induction false} LeftValue(a: seq<Limb>, t: seq<Limb>, k: nat, s: nat, n: nat)
    requires |a| == |t| == WIDTH && s < 32 && k + n <= WIDTH
    requires forall m | 0 <= m < WIDTH :: t[m] == Shifted(a, k, s, WIDTH, m)
    ensures Val(t, k + n) + (if n == 0 then 0 else High(a[n - 1], s)) * Pow(BASE, k + n)
              == Val(a, n) * Pow(2, s) * Pow(BASE, k)
    decreases n
  {
    hide Pow, Low, High, Val;
    if n == 0 {
      ValZeros(t, 0, k);
      ValNone(t);
      ValNone(a);
    } else {
      LeftValue(a, t, k, s, n - 1);
      ValStep(t, k + n - 1);
      ValStep(a, n - 1);
      PowStep(k + n - 1);
      PowAdd(BASE, n - 1, k);
      var c := SplitLimb(a[n - 1], s);
      LeftSum(Val(a, n - 1), a[n - 1], Pow(2, s), Low(a[n - 1], s), High(a[n - 1], s), t[k + n - 1],
              if n == 1 then 0 else High(a[n - 2], s), Pow(BASE, n - 1), Pow(BASE, k), Pow(BASE, k + n - 1));
    }
  }

  lemma LeftSum(v: int, x: int, q: int, low: int, high: int, limb: int, below: int, pn: int, pk: int, p: int)
    requires x * q == low + high * BASE && limb == low + below && p == pn * pk
    ensures (v + x * pn) * q * pk == v * q * pk - below * p + limb * p + high * (BASE * p)
  {
    CarryStep(x * q, low, high, p);
    assert limb * p == low * p + below * p;
    assert (v + x * pn) * q * pk == v * q * pk + (x * pn) * q * pk;
    Reorder(x, pn, q, pk);
  }

  lemma Reorder(x: int, a: int, q: int, b: int)
    ensures (x * a) * q * b == (x * q) * (a * b)
  {
    MulAssoc(x, a, q);
    MulAssoc(x, q, a);
    assert a * q == q * a;
    MulAssoc(x * q, a, b);
  }

  /** A left shift multiplies by a power of two and wraps. */
  lemma ShiftedLeft(a: seq<Limb>, t: seq<Limb>, k: nat, s: nat)
    requires |a| == |t| == WIDTH && s < 32
    requires forall m | 0 <= m < WIDTH :: t[m] == Shifted(a, k, s, WIDTH, m)
    ensures Val(t, WIDTH) == Val(a, WIDTH) * Pow(2, 32 * k + s) % Modulus()
  {
    hide Pow, Low, High, Val, Modulus;
    PowAdd(2, s, 32 * k);
    PowBase(k);
    var v, q, pk := Val(a, WIDTH), Pow(2, s), Pow(BASE, k);
    MulAssoc(v, q, pk);
    assert v * Pow(2, 32 * k + s) == v * q * pk;
    ValBound(t, WIDTH);
    ModulusIsPow();
    if k >= WIDTH {
      ValZeros(t, 0, WIDTH);
      ValNone(t);
      PowAdd(BASE, k - WIDTH, WIDTH);
      MulAssoc(v * q, Pow(BASE, k - WIDTH), Modulus());
      Wraps(0, v * q * Pow(BASE, k - WIDTH), v * q * pk);
    } else {
      LeftValue(a, t, k, s, WIDTH - k);
      LeftWraps(a, Val(t, WIDTH), k, q, High(a[WIDTH - k - 1], s));
    }
  }

  lemma LeftWraps(a: seq<Limb>, w: nat, k: nat, q: nat, top: nat)
    requires |a| == WIDTH && k < WIDTH && w < Modulus()
    requires w + top * Pow(BASE, WIDTH) == Val(a, WIDTH - k) * q * Pow(BASE, k)
    ensures w == Val(a, WIDTH) * q * Pow(BASE, k) % Modulus()
  {
    hide Pow, Val, Modulus;
    var n, v, pk := WIDTH - k, Val(a, WIDTH), Pow(BASE, k);
    ModulusIsPow();
    var high := HighPart(a, n, WIDTH);
    PowAdd(BASE, n, k);
    LeftTotal(Val(a, n), high, Pow(BASE, n), q, pk, top, Modulus());
    Wraps(w, top + high * q, v * q * pk);
  }

  lemma LeftTotal(v: int, high: int, place: int, q: int, pk: int, top: int, m: int)
    requires place * pk == m
    ensures (v + high * place) * q * pk == v * q * pk - top * m + (top + high * q) * m
  {
    assert (v + high * place) * q * pk == v * q * pk + (high * place) * q * pk;
    Reorder(high, place, q, pk);
    assert (top + high * q) * m == top * m + (high * q) * m;
  }

  /** The limbs of a right shift add up to the shifted value, but for what leaves at the bottom. */
  lemma {:induction false} RightValue(a: seq<Limb>, t: seq<Limb>, k: int, s: nat, n: nat)
    requires k >= 0 && |a| == |t| == WIDTH && s < 32 && k + n < WIDTH
    requires forall m | 0 <= m < WIDTH :: t[m] == Shifted(a, -k - 1, 32 - s, WIDTH, m)
    ensures Val(t, n) * Pow(BASE, k + 1) + High(a[k + n], 32 - s) * Pow(BASE, k + n + 1)
            + Val(a, k + 1) * Pow(2, 32 - s)
              == Val(a, k + n + 1) * Pow(2, 32 - s) + High(a[k], 32 - s) * Pow(BASE, k + 1)
    decreases n
  {
    hide Pow, Low, High, Val, Shifted;
    ValNone(t);
    if n > 0 {
      RightValue(a, t, k, s, n - 1);
      ValStep(t, n - 1);
      ValStep(a, k + n);
      PowStep(k + n);
      PowAdd(BASE, n - 1, k + 1);
      var c := SplitLimb(a[k + n], 32 - s);
      var q := Pow(2, 32 - s);
      ShiftedInside(a, t, k, s, n - 1);
      assert n - 1 + (k + 1) == k + n;
      RightSum(Val(t, n - 1), Val(a, k + n), a[k + n], q, Low(a[k + n], 32 - s), High(a[k + n], 32 - s), t[n - 1],
               High(a[k + n - 1], 32 - s), Pow(BASE, n - 1), Pow(BASE, k + 1), Pow(BASE, k + n),
               High(a[k], 32 - s) * Pow(BASE, k + 1) - Val(a, k + 1) * q);
    }
  }

  lemma ShiftedInside(a: seq<Limb>, t: seq<Limb>, k: int, s: nat, m: nat)
    requires |a| == |t| == WIDTH && s < 32 && k >= 0 && k + m + 1 < WIDTH
    requires t[m] == Shifted(a, -k - 1, 32 - s, WIDTH, m)
    ensures t[m] == Low(a[k + m + 1], 32 - s) + High(a[k + m], 32 - s)
  {
  }

  lemma RightSum(w: int, v: int, x: int, q: int, low: int, high: int, limb: int, below: int, pn: int, pk: int, p: int,
                 rest: int)
    requires x * q == low + high * BASE && limb == low + below && p == pn * pk && w * pk + below * p - v * q == rest
    ensures (w + limb * pn) * pk + high * (BASE * p) - (v + x * p) * q == rest
  {
    CarryStep(x * q, low, high, p);
    assert limb * p == low * p + below * p;
    MulAssoc(limb, pn, pk);
    assert (w + limb * pn) * pk == w * pk + limb * p;
    assert (v + x * p) * q == v * q + (x * p) * q;
    assert (x * p) * q == (x * q) * p;
  }

  /** A right shift divides by a power of two. */
  lemma ShiftedRight(a: seq<Limb>, t: seq<Limb>, k: int, s: nat)
    requires k >= 0 && |a| == |t| == WIDTH && s < 32
    requires forall m | 0 <= m < WIDTH :: t[m] == Shifted(a, -k - 1, 32 - s, WIDTH, m)
    ensures Pow(2, 32 * k + s) >= 1 && Val(t, WIDTH) == Val(a, WIDTH) / Pow(2, 32 * k + s)
  {
    hide Pow, Low, High, Val, Modulus;
    var d := Pow(2, 32 * k + s);
    PowPositive(2, 32 * k + s);
    var v := Val(a, WIDTH);
    if k >= WIDTH {
      ValZeros(t, 0, WIDTH);
      ValNone(t);
      ValBound(a, WIDTH);
      PowBase(WIDTH);
      PowMono(2, 32 * WIDTH, 32 * k + s);
      DivUnique(v, d, 0, v);
    } else {
      var n := WIDTH - k - 1;
      RightValue(a, t, k, s, n);
      TopRight(a, t, k, s, n);
      RightQuotient(a, t, k, s);
    }
  }

  /** The topmost limb of the result, and the zeros above it. */
  lemma TopRight(a: seq<Limb>, t: seq<Limb>, k: int, s: nat, n: nat)
    requires k >= 0 && |a| == |t| == WIDTH && s < 32 && n == WIDTH - k - 1 >= 0
    requires forall m | 0 <= m < WIDTH :: t[m] == Shifted(a, -k - 1, 32 - s, WIDTH, m)
    ensures Val(t, WIDTH) == Val(t, n) + High(a[k + n], 32 - s) * Pow(BASE, n)
  {
    hide Pow, Low, High, Val;
    ValStep(t, n);
    ValZeros(t, n + 1, WIDTH);
  }

  lemma RightQuotient(a: seq<Limb>, t: seq<Limb>, k: int, s: nat)
    requires k >= 0 && |a| == |t| == WIDTH && s < 32 && k < WIDTH
    requires var n := WIDTH - k - 1;
             && Val(t, WIDTH) == Val(t, n) + High(a[k + n], 32 - s) * Pow(BASE, n)
             && Val(t, n) * Pow(BASE, k + 1) + High(a[k + n], 32 - s) * Pow(BASE, k + n + 1)
             + Val(a, k + 1) * Pow(2, 32 - s)
                == Val(a, k + n + 1) * Pow(2, 32 - s) + High(a[k], 32 - s) * Pow(BASE, k + 1)
    ensures Pow(2, 32 * k + s) >= 1 && Val(t, WIDTH) == Val(a, WIDTH) / Pow(2, 32 * k + s)
  {
    hide Pow, Low, High, Val;
    var n := WIDTH - k - 1;
    var w, v, q, d := Val(t, WIDTH), Val(a, WIDTH), Pow(2, 32 - s), Pow(2, 32 * k + s);
    var h := High(a[k], 32 - s);
    PowAdd(BASE, n, k + 1);
    PowPositive(2, 32 * k + s);
    PowPositive(2, 32 - s);
    PowBase(k + 1);
    PowAdd(2, 32 * k + s, 32 - s);
    assert Pow(BASE, k + 1) == d * q;
    MulAssoc(High(a[k + n], 32 - s), Pow(BASE, n), Pow(BASE, k + 1));
    assert w * (d * q) + Val(a, k + 1) * q == v * q + h * (d * q);
    // The limbs up to k are h * d plus a remainder below d.
    ValStep(a, k);
    ValBound(a, k);
    PowBase(k);
    PowAdd(2, 32 * k, s);
    HighIs(a[k], 32 - s);
    PowPositive(2, s);
    var r := a[k] % Pow(2, s);
    assert a[k] == Pow(2, s) * h + r;
    var p := Pow(BASE, k);
    Remainder(a[k], Pow(2, s), h, r, p, Val(a, k), d);
    CancelQ(w * d + r * p + Val(a, k), v, q, w, d, h, r * p + Val(a, k));
    DivUnique(v, d, w, r * p + Val(a, k));
  }

  lemma Remainder(x: nat, b: nat, h: nat, r: nat, p: nat, low: nat, d: nat)
    requires x == b * h + r && r < b && low < p && d == p * b
    ensures low + x * p == h * d + r * p + low && 0 <= r * p + low < d
  {
    assert x * p == (b * h) * p + r * p;
    assert (b * h) * p == h * (p * b);
    MulMono(r + 1, b, p);
    assert (r + 1) * p == r * p + p;
    MulNonNegative(r, p);
    assert b * p == p * b;
  }

  lemma CancelQ(total: int, v: int, q: nat, w: int, d: int, h: int, rem: int)
    requires q >= 1 && total == w * d + rem
    requires w * (d * q) + (h * d + rem) * q == v * q + h * (d * q)
    ensures total == v && v == d * w + rem
  {
    assert w * (d * q) == (w * d) * q;
    assert h * (d * q) == (h * d) * q;
    assert (h * d + rem) * q == (h * d) * q + rem * q;
    assert total * q == (w * d) * q + rem * q;
    assert q * (total - v) == 0;
    MulGrows(q, total - v);
  }

  // ----------------------------------------------------------------- division

  predicate Times(x: int, k: nat, p: nat) { x == k * p }

  ghost predicate IsMultiple(x: int, p: nat) { exists k: nat :: Times(x, k, p) }

  /** The bits of a quotient up to a place are still zero. */
  ghost predicate ClearUpTo(s: seq<Limb>, shift: int)
    requires |s| == WIDTH && -1 <= shift < 256
  {
    shift >= 0 ==>
      && (forall i | 0 <= i < shift / 32 :: s[i] == 0)
      && IsMultiple(s[shift / 32], Pow(2, shift % 32 + 1))
  }

  /** pn /= b, or false when b is zero. */
  method Divide(pn: array<Limb>, b: array<Limb>) returns (ok: bool)
    requires IsNumber(pn) && IsNumber(b)
    modifies pn
    ensures ok <==> old(Value(b)) != 0
    ensures ok ==> Value(pn) == old(Value(pn)) / old(Value(b))
  {
    hide Pow, Val, Modulus, ClearUpTo, HasBits;
    ghost var total, d := Value(pn), Value(b);
    var div := Copy(b);
    var num := Copy(pn);
    Zero(pn);
    ValZeros(pn[..], 0, WIDTH);
    ValNone(pn[..]);
    var numBits := BitLength(num);
    var divBits := BitLength(div);
    if divBits == 0 {
      BitsOfZero(d);
      return false;
    }
    BitsPositive(d, divBits);
    if divBits > numBits {
      FewerBits(total, numBits, d, divBits);
      return true;
    }
    var shift := numBits - divBits;
    AlignedDivisor(total, numBits, d, divBits);
    ShiftLeft(div, shift);
    NothingSet(pn[..], shift);
    Quotient(pn, num, div, shift, total, d);
    DivUnique(total, d, Value(pn), Value(num));
    return true;
  }

  /** The rounds of a division: the quotient times the divisor, plus the remainder, stays the dividend. */
  method Quotient(pn: array<Limb>, num: array<Limb>, div: array<Limb>, shift: nat, ghost total: nat, ghost d: nat)
    requires IsNumber(pn) && IsNumber(num) && IsNumber(div) && pn != num && num != div && pn != div && shift < 256
    requires Value(pn) * d + Value(num) == total && Value(num) < d * Pow(2, shift + 1)
    requires Value(div) == d * Pow(2, shift) && ClearUpTo(pn[..], shift)
    modifies pn, num, div
    ensures total == d * Value(pn) + Value(num) && Value(num) < d
  {
    hide Pow, Val, Modulus, ClearUpTo;
    var left: int := shift;
    while left >= 0
      invariant -1 <= left < 256
      invariant Value(pn) * d + Value(num) == total && Value(num) < d * Pow(2, left + 1)
      invariant left >= 0 ==> Value(div) == d * Pow(2, left)
      invariant ClearUpTo(pn[..], left)
      decreases left
    {
      DivideStep(pn, num, div, d, left);
      ShiftRight(div, 1);
      HalfDivisor(d, left);
      left := left - 1;
    }
    PowZeros();
  }

  lemma BitsOfZero(v: nat)
    requires HasBits(v, 0)
    ensures v == 0
  {
  }

  lemma BitsPositive(v: nat, r: nat)
    requires HasBits(v, r) && r > 0
    ensures v > 0
  {
  }

  lemma FewerBits(v: nat, r: nat, d: nat, r': nat)
    requires HasBits(v, r) && HasBits(d, r') && r < r'
    ensures d > 0 && v / d == 0
  {
    if v > 0 {
      PowMono(2, r, r' - 1);
    }
    DivUnique(v, d, 0, v);
  }

  /** Aligned with the dividend, the divisor still fits, and at most one subtraction is due. */
  lemma AlignedDivisor(v: nat, r: nat, d: nat, r': nat)
    requires HasBits(v, r) && HasBits(d, r') && 0 < r' <= r <= 256
    ensures d * Pow(2, r - r') % Modulus() == d * Pow(2, r - r')
    ensures v < d * Pow(2, r - r' + 1)
  {
    hide Pow, Modulus;
    var p := Pow(2, r - r');
    PowPositive(2, r - r');
    PowAdd(2, r', r - r');
    PowAdd(2, r' - 1, r - r' + 1);
    PowMono(2, r, 256);
    ModulusIsPow();
    PowBase(WIDTH);
    MulMono(d + 1, Pow(2, r'), p);
    assert (d + 1) * p == d * p + p;
    MulNonNegative(d, p);
    MulMono(Pow(2, r' - 1), d, Pow(2, r - r' + 1));
    DivUnique(d * p, Modulus(), 0, d * p);
  }

  lemma NothingSet(s: seq<Limb>, shift: nat)
    requires |s| == WIDTH && shift < 256 && forall i | 0 <= i < WIDTH :: s[i] == 0
    ensures ClearUpTo(s, shift)
  {
    assert Times(s[shift / 32], 0, Pow(2, shift % 32 + 1));
  }

  lemma HalfDivisor(d: nat, shift: nat)
    ensures Pow(2, 1) == 2 && (shift >= 1 ==> d * Pow(2, shift) / 2 == d * Pow(2, shift - 1))
  {
    if shift >= 1 {
      assert d * Pow(2, shift) == 2 * (d * Pow(2, shift - 1));
    }
  }

  /** One round: subtracts the divisor when it fits, and sets the bit of the quotient. */
  method DivideStep(pn: array<Limb>, num: array<Limb>, div: array<Limb>, ghost d: nat, shift: nat)
    requires IsNumber(pn) && IsNumber(num) && IsNumber(div) && pn != num && num != div && pn != div && shift < 256
    requires Value(div) == d * Pow(2, shift) && Value(num) < d * Pow(2, shift + 1) && ClearUpTo(pn[..], shift)
    modifies pn, num
    ensures Value(pn) * d + Value(num) == old(Value(pn)) * d + old(Value(num))
    ensures Value(num) < d * Pow(2, shift) && ClearUpTo(pn[..], shift - 1)
  {
    hide Pow, Val, Modulus, ClearUpTo;
    PowTwice(shift);
    assert d * (2 * Pow(2, shift)) == 2 * (d * Pow(2, shift));
    ghost var q := Value(pn);
    var c := CompareTo(num, div);
    if c >= 0 {
      ghost var x, y := Value(num), Value(div);
      Subtract(num, div);
      DivUnique(x - y, Modulus(), 0, x - y);
      SetBitFits(pn[..], shift);
      ghost var before := pn[..];
      PowPositive(2, shift % 32);
      var bit := Pow(2, shift % 32);
      pn[shift / 32] := Or(pn[shift / 32], bit);
      SetBitValue(before, shift);
      assert pn[..] == before[shift / 32 := before[shift / 32] + bit];
      assert (q + Pow(2, shift)) * d == q * d + d * Pow(2, shift);
    } else {
      StillClear(pn[..], shift);
    }
  }

  /** The bit to set is clear, so setting it adds it. */
  lemma SetBitFits(s: seq<Limb>, shift: nat)
    requires |s| == WIDTH && shift < 256 && ClearUpTo(s, shift)
    ensures var bit := Pow(2, shift % 32); Or(s[shift / 32], bit) == s[shift / 32] + bit < BASE
  {
    var t := shift % 32;
    var k: nat :| Times(s[shift / 32], k, Pow(2, t + 1));
    PowPositive(2, t);
    PowTwice(t);
    OrDisjoint(Pow(2, t), k, t + 1);
    PowAdd(2, 31 - t, t + 1);
    Base32();
    RoomAbove(k, Pow(2, t + 1), Pow(2, 31 - t));
  }

  lemma RoomAbove(k: nat, p: nat, n: nat)
    requires k * p < n * p
    ensures k * p + p <= n * p
  {
    if k >= n {
      MulMono(n, k, p);
    } else {
      MulMono(k + 1, n, p);
      assert (k + 1) * p == k * p + p;
    }
  }

  lemma SetBitValue(s: seq<Limb>, shift: nat)
    requires |s| == WIDTH && shift < 256 && ClearUpTo(s, shift) && s[shift / 32] + Pow(2, shift % 32) < BASE
    ensures var t := s[shift / 32 := s[shift / 32] + Pow(2, shift % 32)];
            Val(t, WIDTH) == Val(s, WIDTH) + Pow(2, shift) && ClearUpTo(t, shift - 1)
  {
    hide Pow, Val, ClearUpTo, Times;
    var j, e := shift / 32, shift % 32;
    var x: Limb := s[j] + Pow(2, e);
    ValUpdate(s, j, x, WIDTH);
    PowBase(j);
    PowAdd(2, e, 32 * j);
    var k := ClearQuotient(s, shift);
    ClearNext(s[j := x], shift, 2 * k + 1);
  }

  lemma StillClear(s: seq<Limb>, shift: nat)
    requires |s| == WIDTH && shift < 256 && ClearUpTo(s, shift)
    ensures ClearUpTo(s, shift - 1)
  {
    hide Pow;
    var k := ClearQuotient(s, shift);
    ClearNext(s, shift, 2 * k);
  }

  lemma ClearQuotient(s: seq<Limb>, shift: nat) returns (k: nat)
    requires |s| == WIDTH && shift < 256 && ClearUpTo(s, shift)
    ensures forall i | 0 <= i < shift / 32 :: s[i] == 0
    ensures s[shift / 32] == 2 * k * Pow(2, shift % 32)
    ensures s[shift / 32] + Pow(2, shift % 32) == (2 * k + 1) * Pow(2, shift % 32)
  {
    hide Pow;
    var e := shift % 32;
    k :| Times(s[shift / 32], k, Pow(2, e + 1));
    PowTwice(e);
    assert 2 * k * Pow(2, e) == k * (2 * Pow(2, e));
    assert (2 * k + 1) * Pow(2, e) == 2 * k * Pow(2, e) + Pow(2, e);
  }

  lemma ClearNext(s: seq<Limb>, shift: nat, k: nat)
    requires |s| == WIDTH && shift < 256 && s[shift / 32] == k * Pow(2, shift % 32)
    requires forall i | 0 <= i < shift / 32 :: s[i] == 0
    ensures ClearUpTo(s, shift - 1)
  {
    hide Pow;
    if shift > 0 {
      if shift % 32 == 0 {
        assert (shift - 1) % 32 + 1 == 32;
        assert Times(s[(shift - 1) / 32], 0, Pow(2, 32));
      } else {
        assert (shift - 1) / 32 == shift / 32 && (shift - 1) % 32 + 1 == shift % 32;
        assert Times(s[(shift - 1) / 32], k, Pow(2, shift % 32));
      }
    }
  }
}
