/** Facts about products, quotients and powers that several components share. */
module Arithmetic {

  lemma MulGrows(d: int, k: int)
    requires d >= 0
    ensures k >= 1 ==> d * k >= d
    ensures k <= -1 ==> d * k <= -d
    ensures k == 0 ==> d * k == 0
  {
    if k >= 1 {
      assert d * k == d + d * (k - 1);
      MulNonNegative(d, k - 1);
    } else if k <= -1 {
      assert d * k == -d - d * (-k - 1);
      MulNonNegative(d, -k - 1);
    }
  }

  lemma MulNonNegative(a: nat, b: nat)
    ensures a * b >= 0
  {
  }

  lemma MulMono(a: nat, b: nat, c: nat)
    requires a <= b
    ensures a * c <= b * c
  {
    assert b * c == a * c + (b - a) * c;
    MulNonNegative(b - a, c);
  }

  /** A quotient is determined by any division with remainder. */
  lemma DivUnique(a: int, d: nat, q: int, r: int)
    requires d >= 1 && a == d * q + r && 0 <= r < d
    ensures a / d == q && a % d == r
  {
    var q', r' := a / d, a % d;
    assert a == d * q' + r';
    assert d * (q' - q) == r - r';
    MulGrows(d, q' - q);
  }

  function Pow(b: nat, n: nat): nat {
    if n == 0 then 1 else b * Pow(b, n - 1)
  }

  lemma {:induction false} PowPositive(b: nat, n: nat)
    requires b >= 1
    ensures Pow(b, n) >= 1
  {
    if n > 0 {
      PowPositive(b, n - 1);
      MulGrows(b, Pow(b, n - 1));
    }
  }

  lemma {:induction false} PowAdd(b: nat, m: nat, n: nat)
    ensures Pow(b, m + n) == Pow(b, m) * Pow(b, n)
  {
    if m == 0 {
    } else {
      PowAdd(b, m - 1, n);
      MulAssoc(b, Pow(b, m - 1), Pow(b, n));
    }
  }

  lemma MulAssoc(a: int, b: int, c: int)
    ensures (a * b) * c == a * (b * c)
  {
  }

  lemma {:induction false} PowMono(b: nat, m: nat, n: nat)
    requires b >= 1 && m <= n
    ensures Pow(b, m) <= Pow(b, n)
  {
    PowAdd(b, m, n - m);
    PowPositive(b, n - m);
    MulGrows(Pow(b, m), Pow(b, n - m));
  }

  /** A 32-bit hash value scaled to a range by a multiplication and a shift. */
  function FastMod(x: bv32, n: nat): (r: nat)
    ensures n > 0 ==> r < n
  {
    MulNonNegative(x as nat, n);
    FastModBelow(x as nat, n);
    (x as nat) * n / 0x1_0000_0000
  }

  lemma FastModBelow(x: nat, n: nat)
    requires x < 0x1_0000_0000
    ensures n > 0 ==> 0 <= x * n / 0x1_0000_0000 < n
  {
    if n > 0 {
      MulMono(x + 1, 0x1_0000_0000, n);
      assert (x + 1) * n == x * n + n;
      MulNonNegative(x, n);
    }
  }
}
