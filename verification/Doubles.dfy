/** Conversion of integers to IEEE 754 binary64, as QJsonValue::toDouble applies it. */
module Doubles {
  import opened Bits

  const TWO_52: int := 0x10_0000_0000_0000
  const TWO_53: int := 0x20_0000_0000_0000

  // The spacing of doubles at n: one unit in the last place of a 53-bit significand.
  function Ulp(n: nat): (u: nat)
    ensures u >= 1
  {
    if n < TWO_53 then 1 else 2 * Ulp(n / 2)
  }

  // n rounded to a multiple of unit, ties to the even quotient.
  function RoundHalfEven(n: nat, unit: nat): nat
    requires unit >= 1
  {
    var (q, r) := (n / unit, n % unit);
    if 2 * r < unit || (2 * r == unit && q % 2 == 0) then q * unit else (q + 1) * unit
  }

  // The double nearest to an integer. Integers of up to 64 bits are far from overflow.
  function ToDouble(n: int): real {
    if n >= 0 then RoundHalfEven(n, Ulp(n)) as real
    else -(RoundHalfEven(-n, Ulp(-n)) as real)
  }

  lemma {:induction false} SignificandIsFull(n: nat)
    requires n >= TWO_52
    ensures n / Ulp(n) >= TWO_52
    ensures n >= TWO_53 ==> Ulp(n) >= 2
  {
    if n < TWO_53 {
    } else {
      SignificandIsFull(n / 2);
      HalfQuotient(n, Ulp(n / 2));
    }
  }

  // Integers below 2^53 are doubles.
  lemma SmallIsExact(n: int)
    requires -TWO_53 < n < TWO_53
    ensures ToDouble(n) == n as real
  {}

  // Rounding does not bring a large integer back into the exact range.
  lemma LargeStaysLarge(n: int)
    requires n >= TWO_53
    ensures ToDouble(n) >= TWO_53 as real
  {
    SignificandIsFull(n);
    var u := Ulp(n);
    var q := n / u;
    Monotone(TWO_52, q, u);
    Monotone(q, q + 1, u);
    hide Ulp;
  }

  lemma NegativeStaysNegative(n: int)
    requires n < 0
    ensures ToDouble(n) < 0.0
  {
    if n <= -TWO_53 {
      LargeStaysLarge(-n);
    }
  }
}
