/** The shift and mask operations of C++ on unsigned integers, bit by bit. */
module Bits {
  function Shl(n: nat, k: nat): nat
    decreases k
  {
    if k == 0 then n else Shl(2 * n, k - 1)
  }

  function Shr(n: nat, k: nat): nat { if k == 0 then n else Shr(n / 2, k - 1) }

  function And(a: nat, b: nat): nat {
    if a == 0 then 0 else 2 * And(a / 2, b / 2) + (if a % 2 == 1 && b % 2 == 1 then 1 else 0)
  }

  function Or(a: nat, b: nat): nat
    decreases a + b
  {
    if a == 0 && b == 0 then 0 else 2 * Or(a / 2, b / 2) + (if a % 2 == 1 || b % 2 == 1 then 1 else 0)
  }

  function Pow2(k: nat): (p: nat)
    ensures p >= 1
  {
    if k == 0 then 1 else 2 * Pow2(k - 1)
  }

  lemma {:induction false} ShlIsProduct(n: nat, k: nat)
    ensures Shl(n, k) == n * Pow2(k)
    decreases k
  {
    if k == 0 {
    } else {
      ShlIsProduct(2 * n, k - 1);
    }
  }

  lemma {:induction false} ShrIsQuotient(n: nat, k: nat)
    ensures Shr(n, k) == n / Pow2(k)
  {
    if k == 0 {
    } else {
      ShrIsQuotient(n / 2, k - 1);
      HalfQuotient(n, Pow2(k - 1));
    }
  }

  function Mod(a: nat, p: nat): nat
    requires p >= 1
  {
    a % p
  }

  // A mask of k ones keeps the remainder modulo 2^k.
  lemma {:induction false} AndOnes(a: nat, k: nat)
    ensures And(a, Pow2(k) - 1) == Mod(a, Pow2(k))
  {
    hide And, Mod;
    if k == 0 {
      AndZero(a);
      ModOne(a);
    } else {
      var p := Pow2(k - 1);
      AndOnes(a / 2, k - 1);
      AndStep(a, p - 1);
      ModDouble(a, p);
    }
  }

  lemma ModOne(a: nat)
    ensures Mod(a, 1) == 0
  {}

  lemma AndStep(a: nat, m: nat)
    ensures And(a, 2 * m + 1) == 2 * And(a / 2, m) + a % 2
    ensures And(a, 2 * m) == 2 * And(a / 2, m)
  {
    assert (2 * m + 1) / 2 == m == 2 * m / 2;
  }

  lemma ModDouble(a: nat, p: nat)
    requires p >= 1
    ensures Mod(a, 2 * p) == 2 * Mod(a / 2, p) + a % 2
  {
    HalfQuotient(a, p);
    var q := a / 2 / p;
    assert a == (2 * p) * q + a % (2 * p) && a / 2 == p * q + a / 2 % p;
    assert (2 * p) * q == 2 * (p * q);
  }

  lemma {:induction false} AndZero(a: nat)
    ensures And(a, 0) == 0
  {
    if a == 0 {
    } else {
      AndZero(a / 2);
    }
  }

  // OR with a number that has only zeros where the other has bits is a sum.
  lemma {:induction false} OrIsSum(x: nat, k: nat, y: nat)
    requires y < Pow2(k)
    ensures Or(Shl(x, k), y) == Shl(x, k) + y
  {
    hide Or, Shl;
    if k == 0 {
      OrZero(x);
      ShlIsProduct(x, 0);
    } else {
      OrIsSum(x, k - 1, y / 2);
      ShlStep(x, k);
      OrStep(Shl(x, k - 1), y);
    }
  }

  lemma {:induction false} ShlStep(n: nat, k: nat)
    requires k > 0
    ensures Shl(n, k) == 2 * Shl(n, k - 1)
    decreases k
  {
    if k == 1 {
    } else {
      ShlStep(2 * n, k - 1);
    }
  }

  lemma OrStep(z: nat, y: nat)
    ensures Or(2 * z, y) == 2 * Or(z, y / 2) + y % 2
  {
    assert 2 * z / 2 == z;
  }

  lemma {:induction false} OrZero(x: nat)
    ensures Or(x, 0) == x
  {
    if x == 0 {
    } else {
      OrZero(x / 2);
    }
  }

  lemma Powers()
    ensures Pow2(2) == 4 && Pow2(8) == 0x100 && Pow2(16) == 0x1_0000 && Pow2(24) == 0x100_0000
  {
    assert Pow2(4) == 0x10;
    assert Pow2(8) == 0x100;
    assert Pow2(12) == 0x1000;
    assert Pow2(16) == 0x1_0000;
    assert Pow2(20) == 0x10_0000;
  }

  // ---- Quotients ----

  lemma HalfQuotient(n: nat, u: nat)
    requires u >= 1
    ensures n / (2 * u) == n / 2 / u
  {
    var q := n / 2 / u;
    var x := q * u;
    assert x <= n / 2 < x + u;
    assert q * (2 * u) == 2 * x && (q + 1) * (2 * u) == 2 * x + 2 * u;
    QuotientUnique(n, 2 * u, q);
  }

  lemma QuotientUnique(n: nat, d: nat, q: nat)
    requires d >= 1 && q * d <= n < (q + 1) * d
    ensures n / d == q
  {
    var e := n / d;
    assert e * d <= n < (e + 1) * d;
    Monotone(e + 1, q, d);
    Monotone(q + 1, e, d);
  }

  lemma Monotone(a: int, b: int, d: nat)
    ensures a <= b ==> a * d <= b * d
  {}
}
