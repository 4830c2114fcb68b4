/**
 Unsigned 256-bit integers as eight 32-bit limbs, least significant first.
 Every operator works in place on the limbs with wrap-around, and is proved to
 compute the arithmetic operation on the value the limbs stand for.
 */
module ArithUint256 {
  import opened Arithmetic

  const WIDTH: nat := 8
  const BASE: nat := 0x1_0000_0000

  type Limb = x: int | 0 <= x < BASE

  /** The value of the n least significant limbs. */
  ghost function Val(s: seq<Limb>, n: nat): nat
    requires n <= |s|
  {
    if n == 0 then 0 else
    MulNonNegative(s[n - 1], Pow(BASE, n - 1));
    Val(s, n - 1) + s[n - 1] * Pow(BASE, n - 1)
  }

  /** The number of values: 2 to the 256. */
  ghost function Modulus(): (r: nat)
    ensures r >= 1
  {
    PowPositive(BASE, WIDTH);
    Pow(BASE, WIDTH)
  }

  ghost predicate IsNumber(pn: array<Limb>) { pn.Length == WIDTH }

  ghost function Value(pn: array<Limb>): (v: nat)
    requires IsNumber(pn)
    reads pn
    ensures v < Modulus()
  {
    ValBound(pn[..], WIDTH);
    Val(pn[..], WIDTH)
  }

  // ------------------------------------------------------ values of limb lists

  lemma {:induction false} ValBound(s: seq<Limb>, n: nat)
    requires n <= |s|
    ensures Val(s, n) < Pow(BASE, n)
  {
    if n > 0 {
      ValBound(s, n - 1);
      MulMono(s[n - 1], BASE - 1, Pow(BASE, n - 1));
    }
  }

  lemma {:induction false} ValAgree(s: seq<Limb>, t: seq<Limb>, n: nat)
    requires n <= |s| && n <= |t| && forall i | 0 <= i < n :: s[i] == t[i]
    ensures Val(s, n) == Val(t, n)
  {
    if n > 0 {
      ValAgree(s, t, n - 1);
    }
  }

  lemma {:induction false} ValZeros(s: seq<Limb>, m: nat, n: nat)
    requires m <= n <= |s| && forall i | m <= i < n :: s[i] == 0
    ensures Val(s, n) == Val(s, m)
    decreases n
  {
    if n > m {
      ValZeros(s, m, n - 1);
    }
  }

  /** Changing one limb changes the value by the difference at its place. */
  lemma {:induction false} ValUpdate(s: seq<Limb>, i: nat, x: Limb, n: nat)
    requires i < n <= |s|
    ensures Val(s[i := x], n) == Val(s, n) + (x - s[i]) * Pow(BASE, i)
  {
    if i == n - 1 {
      ValAgree(s, s[i := x], n - 1);
      assert (x - s[i]) * Pow(BASE, i) == x * Pow(BASE, i) - s[i] * Pow(BASE, i);
    } else {
      ValUpdate(s, i, x, n - 1);
    }
  }

  /** What a carry is worth one place up. */
  lemma CarryStep(sum: int, limb: int, carry: int, p: int)
    requires sum == limb + carry * BASE
    ensures sum * p == limb * p + carry * (BASE * p)
  {
    assert sum * p == limb * p + (carry * BASE) * p;
    MulAssoc(carry, BASE, p);
  }

  /** A number below the modulus is what any congruent number wraps to. */
  lemma Wraps(v: nat, k: int, total: int)
    requires v < Modulus() && v + k * Modulus() == total
    ensures total % Modulus() == v
  {
    assert total == Modulus() * k + v;
    DivUnique(total, Modulus(), k, v);
  }

  // --------------------------------------------------------------- assignment

  method Copy(b: array<Limb>) returns (r: array<Limb>)
    requires IsNumber(b)
    ensures fresh(r) && IsNumber(r) && r[..] == b[..] && Value(r) == Value(b)
  {
    r := new Limb[WIDTH](_ => 0);
    var i := 0;
    while i < WIDTH
      invariant 0 <= i <= WIDTH && r[..i] == b[..i]
    {
      r[i] := b[i];
      i := i + 1;
    }
    assert r[..] == r[..WIDTH] == b[..WIDTH] == b[..];
  }

  method Assign(pn: array<Limb>, b: array<Limb>)
    requires IsNumber(pn) && IsNumber(b)
    modifies pn
    ensures pn[..] == old(b[..])
  {
    ghost var y := b[..];
    var i := 0;
    while i < WIDTH
      invariant 0 <= i <= WIDTH && pn[..i] == y[..i] && b[i..] == y[i..]
    {
      assert b[i] == b[i..][0] == y[i..][0] == y[i];
      ghost var was := b[i..];
      pn[i] := b[i];
      i := i + 1;
      assert b[i..] == was[1..];
    }
    assert pn[..] == pn[..WIDTH] == y[..WIDTH] == y;
  }

  /** A number from a 64-bit value. */
  method FromUint64(b: nat) returns (r: array<Limb>)
    requires b < BASE * BASE
    ensures fresh(r) && IsNumber(r) && Value(r) == b
  {
    r := new Limb[WIDTH](_ => 0);
    r[0], r[1] := b % BASE, b / BASE;
    ValZeros(r[..], 2, WIDTH);
    assert Val(r[..], 2) == r[0] + r[1] * BASE by {
      assert Pow(BASE, 0) == 1;
      assert Pow(BASE, 1) == BASE;
      assert Val(r[..], 1) == r[0];
    }
  }

  // ------------------------------------------------------------------ addition

  /** pn += b, which may be the same object. */
  method Add(pn: array<Limb>, b: array<Limb>)
    requires IsNumber(pn) && IsNumber(b)
    modifies pn
    ensures Value(pn) == (old(Value(pn)) + old(Value(b))) % Modulus()
  {
    hide Pow;
    ghost var x, y := pn[..], b[..];
    var carry := 0;
    var i := 0;
    assert Val(pn[..], 0) == Val(x, 0) == Val(y, 0) == 0;
    while i < WIDTH
      invariant 0 <= i <= WIDTH && 0 <= carry <= 1
      invariant pn[i..] == x[i..] && b[i..] == y[i..]
      invariant Val(pn[..], i) + carry * Pow(BASE, i) == Val(x, i) + Val(y, i)
    {
      ghost var before := pn[..];
      assert pn[i] == pn[i..][0] == x[i] && b[i] == b[i..][0] == y[i];
      var n := carry + pn[i] + b[i];
      pn[i] := n % BASE;
      AddStep(before, pn[..], x, y, i, carry, n);
      carry := n / BASE;
      i := i + 1;
      assert pn[i..] == before[i - 1..][1..] && x[i..] == x[i - 1..][1..] && y[i..] == y[i - 1..][1..];
      assert pn == b || b[i..] == b[i - 1..][1..];
    }
    Wraps(Value(pn), carry, Val(x, WIDTH) + Val(y, WIDTH));
  }

  lemma PowStep(n: nat)
    ensures Pow(BASE, n + 1) == BASE * Pow(BASE, n)
  {
  }

  lemma AddStep(before: seq<Limb>, after: seq<Limb>, x: seq<Limb>, y: seq<Limb>, i: nat, carry: nat, n: nat)
    requires i < |before| == |x| == |y| && after == before[i := n % BASE]
    requires Val(before, i) + carry * Pow(BASE, i) == Val(x, i) + Val(y, i)
    requires n == carry + x[i] + y[i]
    ensures Val(after, i + 1) + (n / BASE) * Pow(BASE, i + 1) == Val(x, i + 1) + Val(y, i + 1)
  {
    hide Pow, Val;
    var p := Pow(BASE, i);
    ValAgree(before, after, i);
    ValStep(after, i);
    ValStep(x, i);
    ValStep(y, i);
    CarryStep(n, n % BASE, n / BASE, p);
    PowStep(i);
    assert n * p == carry * p + x[i] * p + y[i] * p;
  }

  // ------------------------------------------------- complement and subtraction

  /** The complement. */
  method Complement(b: array<Limb>) returns (r: array<Limb>)
    requires IsNumber(b)
    ensures fresh(r) && IsNumber(r) && Value(r) == Modulus() - 1 - Value(b)
  {
    hide Pow;
    r := new Limb[WIDTH](_ => 0);
    var i := 0;
    assert Pow(BASE, 0) == 1 by { PowZero(); }
    while i < WIDTH
      invariant 0 <= i <= WIDTH
      invariant Val(r[..], i) + Val(b[..], i) == Pow(BASE, i) - 1
    {
      ghost var before := r[..];
      r[i] := BASE - 1 - b[i];
      ValAgree(before, r[..], i);
      ComplementStep(b[i], Pow(BASE, i));
      PowStep(i);
      i := i + 1;
    }
  }

  lemma PowZero()
    ensures Pow(BASE, 0) == 1
  {
  }

  lemma ComplementStep(x: int, p: int)
    ensures (BASE - 1 - x) * p + x * p == BASE * p - p
  {
  }

  /** ++pn, stopping at the first limb that does not wrap. */
  method Increment(pn: array<Limb>)
    requires IsNumber(pn)
    modifies pn
    ensures Value(pn) == (old(Value(pn)) + 1) % Modulus()
  {
    hide Pow;
    ghost var x := pn[..];
    var i := 0;
    var carry := true;
    PowZero();
    while i < WIDTH && carry
      invariant 0 <= i <= WIDTH
      invariant Val(pn[..], WIDTH) + (if carry then Pow(BASE, i) else 0) == Val(x, WIDTH) + 1
      decreases WIDTH - i, carry
    {
      ghost var before := pn[..];
      var n: Limb := (pn[i] + 1) % BASE;
      pn[i] := n;
      ValUpdate(before, i, n, WIDTH);
      assert pn[..] == before[i := n];
      IncrementStep(before[i], n, Pow(BASE, i));
      PowStep(i);
      if n == 0 {
        i := i + 1;
      } else {
        carry := false;
      }
    }
    Wraps(Value(pn), if carry then 1 else 0, Val(x, WIDTH) + 1);
  }

  lemma IncrementStep(x: Limb, n: Limb, p: int)
    requires n == (x + 1) % BASE
    ensures (n - x) * p == (if n == 0 then p - BASE * p else p)
  {
    if x + 1 == BASE {
      assert (n - x) * p == (1 - BASE) * p;
    }
  }

  /** -b. */
  method Negate(b: array<Limb>) returns (r: array<Limb>)
    requires IsNumber(b)
    ensures fresh(r) && IsNumber(r) && Value(r) == (Modulus() - Value(b)) % Modulus()
  {
    r := Complement(b);
    Increment(r);
  }

  /** pn -= b. */
  method Subtract(pn: array<Limb>, b: array<Limb>)
    requires IsNumber(pn) && IsNumber(b)
    modifies pn
    ensures Value(pn) == (old(Value(pn)) - old(Value(b))) % Modulus()
  {
    hide Modulus;
    ghost var x, y := Value(pn), Value(b);
    var minus := Negate(b);
    Add(pn, minus);
    SubtractWraps(x, y, Modulus());
  }

  lemma SubtractWraps(x: nat, y: nat, m: nat)
    requires x < m && y < m
    ensures (x + (m - y) % m) % m == (x - y) % m
  {
    if y == 0 {
      DivUnique(m, m, 1, 0);
    } else {
      DivUnique(m - y, m, 0, m - y);
      if x >= y {
        DivUnique(x - y, m, 0, x - y);
        DivUnique(x + (m - y), m, 1, x - y);
      } else {
        DivUnique(x - y, m, -1, x - y + m);
        DivUnique(x + (m - y), m, 0, x + m - y);
      }
    }
  }

  // ------------------------------------------------------------ multiplication

  /** pn *= b32. */
  method MultiplyWord(pn: array<Limb>, b32: Limb)
    requires IsNumber(pn)
    modifies pn
    ensures Value(pn) == old(Value(pn)) * b32 % Modulus()
  {
    hide Pow;
    ghost var x := pn[..];
    var carry := 0;
    var i := 0;
    assert Val(pn[..], 0) == Val(x, 0) == 0;
    while i < WIDTH
      invariant 0 <= i <= WIDTH && 0 <= carry < BASE
      invariant pn[i..] == x[i..]
      invariant Val(pn[..], i) + carry * Pow(BASE, i) == Val(x, i) * b32
    {
      ghost var before := pn[..];
      assert pn[i] == pn[i..][0] == x[i];
      WordProduct(carry, 0, b32, pn[i]);
      var n := carry + b32 * pn[i];
      pn[i] := n % BASE;
      MulWordStep(before, pn[..], x, i, carry, b32, n);
      carry := n / BASE;
      i := i + 1;
      assert pn[i..] == before[i - 1..][1..] && x[i..] == x[i - 1..][1..];
    }
    Wraps(Value(pn), carry, Val(x, WIDTH) * b32);
  }

  /** A product of two limbs with two limbs added fits in 64 bits, and its carry in a limb. */
  lemma WordProduct(carry: Limb, limb: Limb, a: Limb, b: Limb)
    ensures 0 <= carry + limb + a * b < BASE * BASE && 0 <= (carry + limb + a * b) / BASE < BASE
  {
    MulMono(a, BASE - 1, b);
    MulMono(b, BASE - 1, BASE - 1);
    MulNonNegative(a, b);
    var n := carry + limb + a * b;
    assert n < BASE * BASE;
    assert n / BASE < BASE;
  }

  lemma MulWordStep(before: seq<Limb>, after: seq<Limb>, x: seq<Limb>, i: nat, carry: nat, b32: nat, n: nat)
    requires i < |before| == |x| && after == before[i := n % BASE]
    requires Val(before, i) + carry * Pow(BASE, i) == Val(x, i) * b32
    requires n == carry + b32 * x[i]
    ensures Val(after, i + 1) + (n / BASE) * Pow(BASE, i + 1) == Val(x, i + 1) * b32
  {
    hide Pow, Val;
    var p := Pow(BASE, i);
    ValAgree(before, after, i);
    ValStep(after, i);
    ValStep(x, i);
    CarryStep(n, n % BASE, n / BASE, p);
    PowStep(i);
    Distribute(carry, b32, x[i], p);
    assert (Val(x, i) + x[i] * p) * b32 == Val(x, i) * b32 + x[i] * p * b32;
  }

  lemma Distribute(carry: int, b: int, x: int, p: int)
    ensures (carry + b * x) * p == carry * p + x * p * b
  {
    MulAssoc(b, x, p);
    assert b * (x * p) == x * p * b;
  }

  /** pn *= b, schoolbook multiplication that drops what does not fit. */
  method Multiply(pn: array<Limb>, b: array<Limb>)
    requires IsNumber(pn) && IsNumber(b)
    modifies pn
    ensures Value(pn) == old(Value(pn)) * old(Value(b)) % Modulus()
  {
    hide Pow, Modulus, Val;
    var a := new Limb[WIDTH](_ => 0);
    ghost var x, y := pn[..], b[..];
    ghost var lost: nat := 0;
    var j := 0;
    ValZeros(a[..], 0, WIDTH);
    ValNone(a[..]);
    ValNone(x);
    while j < WIDTH
      invariant 0 <= j <= WIDTH && pn[..] == x && b[..] == y
      invariant Value(a) + lost * Modulus() == Val(x, j) * Val(y, WIDTH)
      modifies a
    {
      lost := AddRow(a, b, pn[j], j, lost, Val(x, j));
      ValStep(x, j);
      j := j + 1;
    }
    Wraps(Value(a), lost, Val(x, WIDTH) * Val(y, WIDTH));
    Assign(pn, a);
  }

  lemma ValStep(s: seq<Limb>, n: nat)
    requires n < |s|
    ensures Val(s, n + 1) == Val(s, n) + s[n] * Pow(BASE, n)
  {
  }

  /** One row of the multiplication: adds limb * b, shifted j limbs. */
  method AddRow(a: array<Limb>, b: array<Limb>, limb: Limb, j: nat, ghost lost: nat,
                ghost sum: nat) returns (ghost lost': nat)
    requires IsNumber(a) && IsNumber(b) && a != b && j < WIDTH
    requires Value(a) + lost * Modulus() == sum * Value(b)
    modifies a
    ensures Value(a) + lost' * Modulus() == (sum + limb * Pow(BASE, j)) * Value(b)
  {
    hide Pow, Modulus, Val;
    ghost var start, y := a[..], b[..];
    var carry := 0;
    var i := 0;
    ValNone(y);
    assert limb * Pow(BASE, j) * 0 == 0;
    while i + j < WIDTH
      invariant 0 <= i <= WIDTH - j && 0 <= carry < BASE && b[..] == y
      invariant Value(a) + carry * Pow(BASE, i + j) == Val(start, WIDTH) + limb * Pow(BASE, j) * Val(y, i)
    {
      ghost var before := a[..];
      WordProduct(carry, a[i + j], limb, b[i]);
      var n := carry + a[i + j] + limb * b[i];
      var low: Limb := n % BASE;
      a[i + j] := low;
      assert a[..] == before[i + j := low];
      RowStep(before, start, y, i, j, limb, carry, n);
      carry := n / BASE;
      i := i + 1;
    }
    ModulusIsPow();
    lost' := RowEnd(Value(a), Val(start, WIDTH), y, limb, j, carry, lost, sum);
  }

  lemma ValNone(s: seq<Limb>)
    ensures Val(s, 0) == 0
  {
  }

  lemma ModulusIsPow()
    ensures Modulus() == Pow(BASE, WIDTH)
  {
  }

  lemma RowStep(before: seq<Limb>, start: seq<Limb>, y: seq<Limb>, i: nat, j: nat, limb: nat, carry: nat, n: nat)
    requires |before| == |start| == |y| == WIDTH && i + j < WIDTH
    requires Val(before, WIDTH) + carry * Pow(BASE, i + j) == Val(start, WIDTH) + limb * Pow(BASE, j) * Val(y, i)
    requires n == carry + before[i + j] + limb * y[i]
    ensures Val(before[i + j := n % BASE], WIDTH) + (n / BASE) * Pow(BASE, i + 1 + j)
              == Val(start, WIDTH) + limb * Pow(BASE, j) * Val(y, i + 1)
  {
    hide Pow;
    var p := Pow(BASE, i + j);
    ValUpdate(before, i + j, n % BASE, WIDTH);
    CarryStep(n, n % BASE, n / BASE, p);
    PowStep(i + j);
    PowAdd(BASE, i, j);
    RowProduct(limb, Pow(BASE, j), Val(y, i), y[i], Pow(BASE, i));
    RowSum(carry, before[i + j], limb * y[i], n, n % BASE, p);
    assert i + j + 1 == i + 1 + j;
  }

  lemma RowSum(carry: int, was: int, product: int, n: int, limb: int, p: int)
    requires n == carry + was + product
    ensures n * p == carry * p + was * p + product * p && (limb - was) * p == limb * p - was * p
  {
  }

  lemma RowProduct(limb: int, pj: int, val: int, yi: int, pi: int)
    ensures limb * pj * (val + yi * pi) == limb * pj * val + (limb * yi) * (pi * pj)
  {
    assert limb * pj * (val + yi * pi) == limb * pj * val + limb * pj * (yi * pi);
    assert limb * pj * (yi * pi) == (limb * yi) * (pi * pj) by {
      MulAssoc(limb, pj, yi * pi);
      MulAssoc(limb, yi, pi * pj);
      MulAssoc(yi, pi, pj);
    }
  }

  /** What a row loses is a multiple of the modulus. */
  lemma RowEnd(after: nat, start: nat, y: seq<Limb>, limb: nat, j: nat, carry: nat, lost: nat,
               sum: nat) returns (lost': nat)
    requires |y| == WIDTH && j <= WIDTH
    requires after + carry * Modulus() == start + limb * Pow(BASE, j) * Val(y, WIDTH - j)
    requires start + lost * Modulus() == sum * Val(y, WIDTH)
    ensures after + lost' * Modulus() == (sum + limb * Pow(BASE, j)) * Val(y, WIDTH)
  {
    hide Pow, Val, Modulus;
    var high := HighPart(y, WIDTH - j, WIDTH);
    PowAdd(BASE, WIDTH - j, j);
    ModulusIsPow();
    MulNonNegative(limb, high);
    lost' := lost + carry + limb * high;
    RowProduct(limb, Pow(BASE, j), Val(y, WIDTH - j), high, Pow(BASE, WIDTH - j));
    RowTotal(after, start, sum, Val(y, WIDTH), limb * Pow(BASE, j), limb * high, carry, lost, Modulus());
  }

  lemma RowTotal(after: int, start: int, sum: int, val: int, row: int, extra: int, carry: int, lost: int, m: int)
    requires start + lost * m == sum * val && row * val == after + carry * m - start + extra * m
    ensures after + (lost + carry + extra) * m == (sum + row) * val
  {
    assert (sum + row) * val == sum * val + row * val;
    assert (lost + carry + extra) * m == lost * m + carry * m + extra * m;
  }

  /** The limbs from m on are worth a multiple of the place m. */
  lemma {:induction false} HighPart(s: seq<Limb>, m: nat, n: nat) returns (high: nat)
    requires m <= n <= |s|
    ensures Val(s, n) == Val(s, m) + high * Pow(BASE, m)
  {
    if m == n {
      high := 0;
    } else {
      high := HighPart(s, m, n - 1);
      PowAdd(BASE, n - 1 - m, m);
      var p := Pow(BASE, n - 1 - m);
      MulNonNegative(s[n - 1], p);
      MulAssoc(s[n - 1], p, Pow(BASE, m));
      assert (high + s[n - 1] * p) * Pow(BASE, m) == high * Pow(BASE, m) + s[n - 1] * p * Pow(BASE, m);
      high := high + s[n - 1] * p;
    }
  }

  // ---------------------------------------------------------------- comparison

  /** Three-way comparison, from the most significant limb down. */
  method CompareTo(a: array<Limb>, b: array<Limb>) returns (r: int)
    requires IsNumber(a) && IsNumber(b)
    ensures r == (if Value(a) < Value(b) then -1 else if Value(a) > Value(b) then 1 else 0)
  {
    hide Pow;
    var i := WIDTH - 1;
    while i >= 0
      invariant -1 <= i < WIDTH
      invariant Value(a) - Value(b) == Val(a[..], i + 1) - Val(b[..], i + 1)
    {
      if a[i] != b[i] {
        HigherLimb(a[..], b[..], i);
      }
      if a[i] < b[i] {
        return -1;
      }
      if a[i] > b[i] {
        return 1;
      }
      i := i - 1;
    }
    r := 0;
  }

  lemma HigherLimb(s: seq<Limb>, t: seq<Limb>, i: nat)
    requires i < |s| && i < |t| && s[i] != t[i]
    ensures Val(s, i + 1) < Val(t, i + 1) <==> s[i] < t[i]
    ensures Val(s, i + 1) != Val(t, i + 1)
  {
    ValBound(s, i);
    ValBound(t, i);
    HigherPlace(Val(s, i), Val(t, i), s[i], t[i], Pow(BASE, i));
  }

  lemma HigherPlace(x: nat, y: nat, a: nat, b: nat, p: nat)
    requires x < p && y < p && a != b
    ensures x + a * p < y + b * p <==> a < b
    ensures x + a * p != y + b * p
  {
    MulGrows(p, a - b);
    assert p * (a - b) == a * p - b * p;
  }

  /** Comparison with a 64-bit zero. */
  method IsZero(a: array<Limb>) returns (r: bool)
    requires IsNumber(a)
    ensures r <==> Value(a) == 0
  {
    hide Pow;
    var i := WIDTH - 1;
    while i >= 2
      invariant 1 <= i < WIDTH
      invariant forall k | i < k < WIDTH :: a[k] == 0
    {
      if a[i] != 0 {
        NonZero(a[..], i, WIDTH);
        return false;
      }
      i := i - 1;
    }
    if a[1] != 0 {
      NonZero(a[..], 1, WIDTH);
      return false;
    }
    if a[0] != 0 {
      NonZero(a[..], 0, WIDTH);
      return false;
    }
    ValZeros(a[..], 0, WIDTH);
    r := true;
  }

  lemma {:induction false} NonZero(s: seq<Limb>, i: nat, n: nat)
    requires i < n <= |s| && s[i] != 0
    ensures Val(s, n) >= Pow(BASE, i) >= 1
    decreases n
  {
    PowPositive(BASE, i);
    if i == n - 1 {
      MulGrows(Pow(BASE, i), s[i]);
      assert Pow(BASE, i) * s[i] == s[i] * Pow(BASE, i);
    } else {
      NonZero(s, i, n - 1);
      MulNonNegative(s[n - 1], Pow(BASE, n - 1));
    }
  }
}
