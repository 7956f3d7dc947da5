/**
  Fixed-point arithmetic of the emitted C: powers of ten, 64-bit bounds, division that truncates
  toward zero, and the laws of truncating and rescaling that the decimal code relies on.
*/
module FixedPoint {
  const MIN_INT64 := -0x8000_0000_0000_0000
  const MAX_INT64 := 0x7fff_ffff_ffff_ffff
  const TWO_TO_64 := 0x1_0000_0000_0000_0000

  predicate InInt64(x: int) { MIN_INT64 <= x <= MAX_INT64 }

  function Pow10(n: nat): (p: int)
    ensures p > 0
  {
    if n == 0 then 1 else 10 * Pow10(n - 1)
  }

  function Abs(x: int): nat { if x < 0 then -x else x }

  function WithSign(v: int, magnitude: int): int { if v < 0 then -magnitude else magnitude }

  /** C division: toward zero (section 6.5.5 of ISO/IEC 9899:2011). */
  function TruncDiv(v: int, d: int): int
    requires d > 0
  {
    WithSign(v, Abs(v) / d)
  }

  /** The emitted sign-preserving remainder: the low-order digits of the magnitude. */
  function KeepDigits(v: int, limit: int): int
    requires limit > 0
  {
    WithSign(v, Abs(v) % limit)
  }

  /** The integer that represents v / 10^from at scale `to`, truncated toward zero. */
  function Rescale(v: int, from: int, to: int): int {
    if to >= from then v * Pow10(to - from) else TruncDiv(v, Pow10(from - to))
  }

  /** The loop that builds a power of ten. */
  method PowerOfTen(n: nat) returns (limit: int)
    ensures limit == Pow10(n)
  {
    limit := 1;
    for i := 0 to n
      invariant limit == Pow10(i)
    {
      limit := limit * 10;
    }
  }

  // ----- Laws of powers -----

  lemma {:induction false} Pow10Add(a: nat, b: nat)
    ensures Pow10(a + b) == Pow10(a) * Pow10(b)
  {
    if a > 0 {
      Pow10Add(a - 1, b);
      assert Pow10(a + b) == 10 * (Pow10(a - 1) * Pow10(b));
    }
  }

  lemma {:induction false} Pow10Monotone(a: nat, b: nat)
    requires a <= b
    ensures Pow10(a) <= Pow10(b)
    decreases b
  {
    if a < b { Pow10Monotone(a, b - 1); }
  }

  lemma {:induction false} Pow10Of18()
    ensures Pow10(18) == 1_000_000_000_000_000_000
  {
    assert Pow10(6) == 1_000_000;
    assert Pow10(12) == 1_000_000_000_000;
  }

  /** A power of ten fits 64 bits up to the eighteenth. */
  lemma {:induction false} PowerFitsIff(n: nat)
    ensures InInt64(Pow10(n)) <==> n <= 18
  {
    Pow10Of18();
    assert Pow10(19) == 10 * Pow10(18);
    if n <= 18 { Pow10Monotone(n, 18); } else { Pow10Monotone(19, n); }
  }

  // ----- Laws of remainders -----

  lemma {:induction false} DivisionIsUnique(a: int, d: int, q: int, r: int)
    requires d > 0 && a == q * d + r && 0 <= r < d
    ensures a / d == q && a % d == r
  {
    var q', r' := a / d, a % d;
    assert (q - q') * d == r' - r;
    assert q - q' >= 1 ==> (q - q') * d >= d;
    assert q - q' <= -1 ==> (q - q') * d <= -d;
  }

  /** Scaling commutes with keeping digits when the limit is scaled too. */
  lemma {:induction false} ScaleThenKeep(a: nat, m: int, k: int)
    requires m > 0 && k > 0
    ensures m * k > 0 && (a % m) * k == (a * k) % (m * k)
  {
    var q, r := a / m, a % m;
    assert m * k > 0;
    assert a * k == q * (m * k) + r * k by {
      assert a == q * m + r;
      assert (q * m + r) * k == q * (m * k) + r * k;
    }
    assert 0 <= r * k < m * k by {
      assert r * k <= (m - 1) * k;
      assert (m - 1) * k == m * k - k;
    }
    DivisionIsUnique(a * k, m * k, q, r * k);
  }

  /** Dropping low digits of what was kept is keeping what is left after dropping. */
  lemma {:induction false} KeepThenDrop(a: nat, m: int, k: int)
    requires m > 0 && k > 0
    ensures m * k > 0 && (a % (m * k)) / k == (a / k) % m
  {
    ProductIsPositive(m, k);
    DropOfRest(a, m, k, m * k, a / (m * k), a % (m * k));
  }

  lemma {:induction false} DropOfRest(a: nat, m: int, k: int, n: int, q: int, r: nat)
    requires m > 0 && k > 0 && n == m * k && a == q * n + r && r < n
    ensures r / k == (a / k) % m
  {
    var s, t := r / k, r % k;
    QuotientBelow(r, m, k);
    Regroup(q, m, s, k, t);
    DivisionIsUnique(a, k, q * m + s, t);
    DivisionIsUnique(q * m + s, m, q, s);
  }

  lemma {:induction false} NegativeFactor(x: int, k: int)
    requires k > 0 && x * k < 0
    ensures x < 0
  {
    if x >= 0 { ProductIsNonNegative(x, k); }
  }

  lemma {:induction false} QuotientBelow(r: nat, m: int, k: int)
    requires m > 0 && k > 0 && r < m * k
    ensures r / k < m
  {
    var s := r / k;
    assert s * k <= r && (s - m) * k == s * k - m * k;
    NegativeFactor(s - m, k);
  }

  /** Keeping fewer digits after keeping more is keeping fewer. */
  lemma {:induction false} KeepTwice(a: nat, m: int, k: int)
    requires m > 0 && k > 0
    ensures m * k > 0 && (a % (m * k)) % m == a % m
  {
    assert m * k > 0;
    var q, r := a / (m * k), a % (m * k);
    var s, t := r / m, r % m;
    assert a == (q * k + s) * m + t by {
      assert a == q * (m * k) + r;
      assert (q * k + s) * m == q * (m * k) + s * m;
    }
    DivisionIsUnique(a, m, q * k + s, t);
  }

  lemma {:induction false} Regroup(s: int, e: int, t: int, d: int, r: int)
    ensures (s * e + t) * d + r == s * (d * e) + (t * d + r)
  {
    assert (s * e + t) * d == s * e * d + t * d;
    assert s * e * d == s * (d * e);
  }

  lemma {:induction false} ProductIsNonNegative(a: int, b: int)
    requires a >= 0 && b >= 0
    ensures a * b >= 0
  {
  }

  lemma {:induction false} ProductIsPositive(a: int, b: int)
    requires a > 0 && b > 0
    ensures a * b > 0
  {
  }

  /** Two digits make up less than the product of their bases. */
  lemma {:induction false} BelowProduct(t: int, e: int, r: int, d: int)
    requires 0 <= t < e && 0 <= r < d
    ensures 0 <= t * d + r < d * e
  {
    ProductIsNonNegative(t, d);
    ProductIsNonNegative(e - 1 - t, d);
    assert (e - 1 - t) * d == d * e - d - t * d;
  }

  /** Truncating division by two divisors in turn is division by their product. */
  lemma {:induction false} DivTwice(a: nat, d: int, e: int)
    requires d > 0 && e > 0
    ensures d * e > 0 && (a / d) / e == a / (d * e)
  {
    var q, r := a / d, a % d;
    var s, t := q / e, q % e;
    ProductIsPositive(d, e);
    Regroup(s, e, t, d, r);
    BelowProduct(t, e, r, d);
    DivisionIsUnique(a, d * e, s, t * d + r);
  }

  /** A quotient is no larger than what was divided, and at most half of it for a divisor of two or more. */
  lemma {:induction false} QuotientBound(a: nat, d: int)
    requires d >= 1
    ensures 0 <= a / d <= a && (d > 1 ==> 2 * (a / d) <= a)
  {
    var q, r := a / d, a % d;
    assert a == q * d + r;
    assert q >= 0;
    ProductIsNonNegative(q, d - 1);
    assert q * (d - 1) == q * d - q;
    if d > 1 {
      ProductIsNonNegative(q, d - 2);
      assert q * (d - 2) == q * d - 2 * q;
    }
  }

  lemma {:induction false} AbsOfProduct(v: int, k: int)
    requires k > 0
    ensures Abs(v * k) == Abs(v) * k && v * k == WithSign(v, Abs(v) * k)
  {
    if v < 0 {
      assert v * k == -((-v) * k);
      assert (-v) * k >= 0;
    } else {
      assert v * k >= 0;
    }
  }

  /** a / d, seen through a common factor p: the quotient brackets a * p / (d * p). */
  lemma {:induction false} QuotientBrackets(a: nat, d: int, p: int)
    requires d > 0 && p > 0
    ensures (a / d) * (d * p) <= a * p < (a / d + 1) * (d * p)
  {
    var q, r := a / d, a % d;
    assert a * p == q * (d * p) + r * p by {
      assert a == q * d + r;
      assert (q * d + r) * p == q * (d * p) + r * p;
    }
    assert 0 <= r * p < d * p by {
      assert r * p <= (d - 1) * p;
      assert (d - 1) * p == d * p - p;
    }
    assert (q + 1) * (d * p) == q * (d * p) + d * p;
  }

  ghost predicate Brackets(m: int, a: int, to: nat, from: nat) {
    m * Pow10(from) <= a * Pow10(to) < (m + 1) * Pow10(from)
  }

  lemma {:induction false} RescaleUp(v: int, from: nat, to: nat)
    requires from <= to
    ensures Abs(Rescale(v, from, to)) == Abs(v) * Pow10(to - from)
    ensures Brackets(Abs(v) * Pow10(to - from), Abs(v), to, from)
  {
    Pow10Add(to - from, from);
    AbsOfProduct(v, Pow10(to - from));
    ProductBrackets(Abs(v), Pow10(to - from), Pow10(from));
  }

  lemma {:induction false} AbsOfQuotient(v: int, d: int)
    requires d > 0
    ensures Abs(TruncDiv(v, d)) == Abs(v) / d
  {
  }

  lemma {:induction false} RescaleDown(v: int, from: nat, to: nat, d: int)
    requires to < from && d == Pow10(from - to)
    ensures Brackets(Abs(v) / d, Abs(v), to, from)
  {
    var p, f := Pow10(to), Pow10(from);
    assert f == d * p by { Pow10Add(from - to, to); }
    CommonFactor(Abs(v), d, p, f);
  }

  lemma {:induction false} CommonFactor(a: nat, d: int, p: int, f: int)
    requires d > 0 && p > 0 && f == d * p
    ensures (a / d) * f <= a * p < (a / d + 1) * f
  {
    QuotientBrackets(a, d, p);
  }

  /** The rescaled magnitude is the exact quotient |v| * 10^to / 10^from with its fraction cut off. */
  lemma {:induction false} RescaleTruncatesTowardZero(v: int, from: nat, to: nat)
    ensures Brackets(Abs(Rescale(v, from, to)), Abs(v), to, from)
    ensures Rescale(v, from, to) == WithSign(v, Abs(Rescale(v, from, to)))
  {
    if from <= to {
      RescaleUp(v, from, to);
      AbsOfProduct(v, Pow10(to - from));
    } else {
      AbsOfQuotient(v, Pow10(from - to));
      RescaleDown(v, from, to, Pow10(from - to));
    }
  }

  lemma {:induction false} ProductBrackets(a: nat, k: int, f: int)
    requires k > 0 && f > 0
    ensures (a * k) * f == a * (k * f) < (a * k + 1) * f
  {
    assert (a * k + 1) * f == (a * k) * f + f;
  }
}
