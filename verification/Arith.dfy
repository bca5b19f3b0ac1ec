/** Machine word sizes, and division facts the solver does not find by itself. */
module Arith {

  const TWO32: int := 0x1_0000_0000
  const HALF64: int := 0x8000_0000_0000_0000
  const TWO64: int := 0x1_0000_0000_0000_0000

  /** Unsigned 64-bit addition. */
  function Add64(a: nat, b: nat): nat { (a + b) % TWO64 }

  /** Round a 64-bit byte count or address up to a multiple of 16; the sum wraps. */
  function AlignUp16(value: nat): nat { Add64(value, 15) / 16 * 16 }

  function Pow2(n: nat): nat { if n == 0 then 1 else 2 * Pow2(n - 1) }

  lemma DivUnique(x: int, d: int, q: int, r: int)
    requires d > 0 && x == q * d + r && 0 <= r < d
    ensures x / d == q && x % d == r
  {
    var k := x / d;
    var s := x % d;
    assert x == k * d + s;
    assert (q - k) * d == s - r && (k - q) * d == r - s;
    if q > k {
      MulAtLeast(q - k, d);
    } else if q < k {
      MulAtLeast(k - q, d);
    }
  }

  lemma MulAtLeast(k: int, d: int)
    requires k >= 1 && d > 0
    ensures k * d >= d
  {
    assert (k - 1) * d >= 0;
  }

  /** x rounded up to a multiple of d. */
  function RoundUp(x: nat, d: nat): (r: nat)
    requires d > 0
  {
    (x + (d - 1)) / d * d
  }

  /** RoundUp is the least multiple of d that is not below x. */
  lemma RoundUpLeast(x: nat, d: nat)
    requires d > 0
    ensures RoundUp(x, d) % d == 0 && x <= RoundUp(x, d) < x + d
  {
    var q := (x + (d - 1)) / d;
    assert x + (d - 1) == q * d + (x + (d - 1)) % d;
    DivUnique(q * d, d, q, 0);
  }

  /** Remainder of a value that wraps around at most once. */
  lemma ModOnce(x: int, d: int)
    requires d > 0 && 0 <= x < 2 * d
    ensures x % d == if x < d then x else x - d
  {
    if x < d { DivUnique(x, d, 0, x); } else { DivUnique(x, d, 1, x - d); }
  }

  lemma MulMono(a: int, b: int, d: int)
    requires a <= b && 0 <= d
    ensures a * d <= b * d
  {
    assert (b - a) * d >= 0;
  }

  /** The next multiple of d after a is a + d. */
  lemma NextMultiple(a: nat, b: nat, d: nat)
    requires 0 < d && a % d == 0 && b % d == 0 && a < b
    ensures a + d <= b && (a + d) % d == 0
  {
    var x, y := a / d, b / d;
    Multiple(a, d);
    Multiple(b, d);
    assert (x + 1) * d == a + d;
    DivUnique(a + d, d, x + 1, 0);
    if y <= x { MulMono(y, x, d); } else { MulMono(x + 1, y, d); }
  }

  lemma Multiple(a: nat, d: nat)
    requires 0 < d && a % d == 0
    ensures a == a / d * d
  {
  }

  /** C's integer division, which truncates toward zero. */
  function CDiv(a: int, b: int): int
    requires b != 0
  {
    if a >= 0 then a / b else -(-a / b)
  }

  /** C's remainder, which has the sign of the dividend. */
  function CMod(a: int, b: int): int
    requires b != 0
  {
    a - b * CDiv(a, b)
  }

  lemma CDivMod(a: int, b: int)
    requires b > 0
    ensures CDiv(a, b) * b + CMod(a, b) == a && -b < CMod(a, b) < b
    ensures if a >= 0 then CMod(a, b) >= 0 else CMod(a, b) <= 0
  {
  }

  /** The multiple of b below n >= 0 is not negative, and less than |b| away. */
  lemma MultipleBelow(n: nat, b: int)
    requires b != 0
    ensures var e := if b < 0 then -b else b; n - e < n / b * b && 0 <= n / b * b <= n
  {
    var q := n / b;
    assert n == q * b + n % b;
    if b > 0 {
      assert q >= 0;
      assert q * b >= 0;
    } else {
      assert n == q * b + n % -b;
      NotNegative(-q, -b, n % -b);
      assert q * b == -q * -b;
    }
  }

  lemma NotNegative(q: int, b: nat, r: nat)
    requires r < b && q * b + r >= 0
    ensures q * b >= 0
  {
    var t := -q - 1;
    assert t * b == -(q * b) - b;
    ProductSign(t, b);
    ProductSign(q, b);
  }

  lemma ProductSign(t: int, b: nat)
    ensures t >= 0 ==> t * b >= 0
    ensures t < 0 ==> t * b <= 0
  {
  }

  /** C's quotient is the exact one cut off toward zero, whatever the signs. */
  lemma CDivExact(a: int, b: int)
    requires b != 0
    ensures var e := if b < 0 then -b else b; -e < CDiv(a, b) * b - a < e
    ensures if a >= 0 then 0 <= CDiv(a, b) * b <= a else a <= CDiv(a, b) * b <= 0
  {
    if a >= 0 {
      MultipleBelow(a, b);
    } else {
      MultipleBelow(-a, b);
      NegatedFactor(-a / b, b);
    }
  }

  lemma NegatedFactor(q: int, b: int)
    ensures -q * b == -(q * b)
  {
  }
}
