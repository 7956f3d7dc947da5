/**
  ADD ... GIVING over decimal terms: exact aligned addition in 128 bits narrowed to 64, rescaling
  toward zero, and the size-error test.
*/
module DecimalAdd {
  import opened FixedPoint

  /** The value and scale of a decimal operand. */
  datatype Term = Term(value: int, scale: nat)

  const MAX_INT128 := 0x7fff_ffff_ffff_ffff_ffff_ffff_ffff_ffff

  predicate InInt128(x: int) { -MAX_INT128 - 1 <= x <= MAX_INT128 }

  /** The value left when a wider integer is narrowed to 64 bits. */
  function Narrow64(x: int): (r: int)
    ensures InInt64(r)
    ensures InInt64(x) ==> r == x
    ensures (x - r) % TWO_TO_64 == 0
  {
    var m := x % TWO_TO_64;
    if m > MAX_INT64 then m - TWO_TO_64 else m
  }

  // ----- The exact sum -----

  function MaxScale(ts: seq<Term>): (s: nat)
    ensures forall t :: t in ts ==> t.scale <= s
    ensures ts != [] ==> exists t :: t in ts && t.scale == s
  {
    if ts == [] then 0
    else
      var last := ts[|ts|-1];
      assert ts == ts[..|ts|-1] + [last];
      if |ts| == 1 || last.scale >= MaxScale(ts[..|ts|-1]) then last.scale else MaxScale(ts[..|ts|-1])
  }

  /** The sum of the terms as an integer at scale `s`. */
  function ExactSum(ts: seq<Term>, s: nat): int
    requires forall t :: t in ts ==> t.scale <= s
  {
    if ts == [] then 0
    else
      assert ts[|ts|-1] in ts;
      ExactSum(ts[..|ts|-1], s) + ts[|ts|-1].value * Pow10(s - ts[|ts|-1].scale)
  }

  /** Raising the scale of the sum scales the sum. */
  lemma {:induction false} ExactSumAtHigherScale(ts: seq<Term>, s: nat, s': nat)
    requires s <= s' && forall t :: t in ts ==> t.scale <= s
    ensures ExactSum(ts, s') == ExactSum(ts, s) * Pow10(s' - s)
  {
    if ts != [] {
      var init, last := ts[..|ts|-1], ts[|ts|-1];
      assert last in ts;
      ExactSumAtHigherScale(init, s, s');
      Pow10Add(s - last.scale, s' - s);
      Distribute(ExactSum(init, s), last.value, Pow10(s - last.scale), Pow10(s' - s));
    }
  }

  lemma {:induction false} Distribute(a: int, v: int, p: int, k: int)
    ensures (a + v * p) * k == a * k + v * (p * k)
  {
  }

  // ----- The emitted addition -----

  /** The loops that align one operand. */
  method Align(value: int, times: nat) returns (r: int)
    ensures r == value * Pow10(times)
  {
    r := value;
    for i := 0 to times
      invariant r == value * Pow10(i)
    {
      assert value * Pow10(i + 1) == 10 * (value * Pow10(i));
      r := r * 10;
    }
  }

  function Higher(a: nat, b: nat): nat { if a > b then a else b }

  /** One `acc = acc + rhs`. */
  method AddExact(acc: Term, rhs: Term) returns (r: Term)
    ensures r.scale == Higher(acc.scale, rhs.scale)
    ensures r.value == Narrow64(acc.value * Pow10(r.scale - acc.scale) + rhs.value * Pow10(r.scale - rhs.scale))
  {
    var scale := if acc.scale > rhs.scale then acc.scale else rhs.scale;
    var av := Align(acc.value, scale - acc.scale);
    var bv := Align(rhs.value, scale - rhs.scale);
    r := Term(Narrow64(av + bv), scale);
  }

  /** Operands of 64 bits whose scales differ by at most 19 never leave 128 bits while they are aligned. */
  lemma {:induction false} AlignmentFits128(acc: Term, rhs: Term)
    requires InInt64(acc.value) && InInt64(rhs.value)
    requires acc.scale - rhs.scale <= 19 && rhs.scale - acc.scale <= 19
    ensures var s := Higher(acc.scale, rhs.scale);
      var av, bv := acc.value * Pow10(s - acc.scale), rhs.value * Pow10(s - rhs.scale);
      InInt128(av) && InInt128(bv) && InInt128(av + bv)
  {
    var s := Higher(acc.scale, rhs.scale);
    Pow10Of18();
    assert Pow10(19) == 10 * Pow10(18);
    Pow10Monotone(s - acc.scale, 19);
    Pow10Monotone(s - rhs.scale, 19);
    ProductBound(acc.value, Pow10(s - acc.scale));
    ProductBound(rhs.value, Pow10(s - rhs.scale));
  }

  lemma {:induction false} ProductBound(v: int, k: int)
    requires InInt64(v) && 0 < k <= 10_000_000_000_000_000_000
    ensures -92_233_720_368_547_758_080_000_000_000_000_000_000 <= v * k <= 92_233_720_368_547_758_080_000_000_000_000_000_000
  {
    MagnitudeBound(Abs(v), k, 10_000_000_000_000_000_000);
    AbsOfProduct(v, k);
  }

  lemma {:induction false} MagnitudeBound(m: nat, k: int, limit: int)
    requires 0 < k <= limit
    ensures 0 <= m * k <= m * limit
  {
    ProductIsNonNegative(m, k);
    ProductIsNonNegative(m, limit - k);
    assert m * (limit - k) == m * limit - m * k;
  }

  /** Two integers that narrow to the same 64 bits. */
  ghost predicate Congruent(x: int, y: int) {
    (x - y) % TWO_TO_64 == 0
  }

  lemma {:induction false} CongruentScaled(x: int, y: int, k: int)
    requires Congruent(x, y)
    ensures Congruent(x * k, y * k)
  {
    var q := (x - y) / TWO_TO_64;
    assert x * k - y * k == (q * k) * TWO_TO_64 by {
      assert x - y == q * TWO_TO_64;
      assert (x - y) * k == x * k - y * k;
    }
    MultipleOf64(q * k);
  }

  lemma {:induction false} MultipleOf64(q: int)
    ensures (q * TWO_TO_64) % TWO_TO_64 == 0
  {
    var x := q * TWO_TO_64;
    DivisionIsUnique(x, TWO_TO_64, q, 0);
  }

  lemma {:induction false} CongruentSum(x: int, y: int, z: int)
    requires Congruent(x, y)
    ensures Congruent(x + z, y + z)
  {
    assert (x + z) - (y + z) == x - y;
  }

  lemma {:induction false} CongruentChain(x: int, y: int, z: int)
    requires Congruent(x, y) && Congruent(y, z)
    ensures Congruent(x, z)
  {
    var p, q := (x - y) / TWO_TO_64, (y - z) / TWO_TO_64;
    MultipleOf64(p + q);
    assert x - z == (p + q) * TWO_TO_64;
  }

  /** Congruent 64-bit values are equal. */
  lemma {:induction false} CongruentIn64(x: int, y: int)
    requires Congruent(x, y) && InInt64(x) && InInt64(y)
    ensures x == y
  {
  }

  lemma {:induction false} NarrowIsCongruent(x: int)
    ensures Congruent(x, Narrow64(x)) && Congruent(Narrow64(x), x)
  {
    var q := (x - Narrow64(x)) / TWO_TO_64;
    assert x - Narrow64(x) == q * TWO_TO_64;
    MultipleOf64(-q);
    assert Narrow64(x) - x == (-q) * TWO_TO_64;
  }

  /** Congruence of the accumulator is kept by one more addition, whatever was lost in narrowing. */
  lemma {:induction false} OneMoreTerm(acc: Term, rhs: Term, r: Term, sum: int)
    requires Congruent(acc.value, sum)
    requires r.scale == Higher(acc.scale, rhs.scale)
    requires r.value == Narrow64(acc.value * Pow10(r.scale - acc.scale) + rhs.value * Pow10(r.scale - rhs.scale))
    ensures Congruent(r.value, sum * Pow10(r.scale - acc.scale) + rhs.value * Pow10(r.scale - rhs.scale))
  {
    var k, b := Pow10(r.scale - acc.scale), rhs.value * Pow10(r.scale - rhs.scale);
    CongruentScaled(acc.value, sum, k);
    CongruentSum(acc.value * k, sum * k, b);
    NarrowIsCongruent(acc.value * k + b);
    CongruentChain(r.value, acc.value * k + b, sum * k + b);
  }

  lemma {:induction false} ExactSumSnoc(ts: seq<Term>, t: Term)
    ensures MaxScale(ts + [t]) == if ts == [] then t.scale else Higher(MaxScale(ts), t.scale)
    ensures ExactSum(ts + [t], MaxScale(ts + [t])) ==
      ExactSum(ts, MaxScale(ts)) * Pow10(MaxScale(ts + [t]) - (if ts == [] then t.scale else MaxScale(ts))) +
      t.value * Pow10(MaxScale(ts + [t]) - t.scale)
  {
    assert (ts + [t])[..|ts|] == ts;
    if ts != [] {
      ExactSumAtHigherScale(ts, MaxScale(ts), MaxScale(ts + [t]));
    }
  }

  ghost predicate Operands(ts: seq<Term>) {
    forall t :: t in ts ==> InInt64(t.value) && t.scale <= 19
  }

  /** The accumulator after some terms: their highest scale, and their exact sum modulo 2^64. */
  ghost predicate Accumulates(ts: seq<Term>, acc: Term) {
    && ts != []
    && InInt64(acc.value)
    && acc.scale == MaxScale(ts)
    && Congruent(acc.value, ExactSum(ts, MaxScale(ts)))
  }

  lemma {:induction false} FirstTerm(t: Term)
    requires InInt64(t.value)
    ensures Accumulates([t], t)
  {
    ExactSumSnoc([], t);
    assert [] + [t] == [t];
  }

  lemma {:induction false} NextTerm(ts: seq<Term>, acc: Term, t: Term, r: Term)
    requires Accumulates(ts, acc) && InInt64(r.value)
    requires r.scale == Higher(acc.scale, t.scale)
    requires r.value == Narrow64(acc.value * Pow10(r.scale - acc.scale) + t.value * Pow10(r.scale - t.scale))
    ensures Accumulates(ts + [t], r)
  {
    ExactSumSnoc(ts, t);
    OneMoreTerm(acc, t, r, ExactSum(ts, MaxScale(ts)));
  }

  lemma {:induction false} AccumulatedSum(ts: seq<Term>, acc: Term)
    requires Accumulates(ts, acc)
    ensures acc.value == Narrow64(ExactSum(ts, MaxScale(ts)))
  {
    var exact := ExactSum(ts, MaxScale(ts));
    NarrowIsCongruent(exact);
    CongruentChain(acc.value, exact, Narrow64(exact));
    CongruentIn64(acc.value, Narrow64(exact));
  }

  /**
    The emitted sum: the exact sum at the highest scale, narrowed to 64 bits once. It is exact if and
    only if the total fits 64 bits: partial sums that do not fit do no harm.
  */
  method SumTerms(ts: seq<Term>) returns (sum: Term)
    requires ts != [] && Operands(ts)
    ensures sum.scale == MaxScale(ts)
    ensures sum.value == Narrow64(ExactSum(ts, MaxScale(ts)))
    ensures sum.value == ExactSum(ts, MaxScale(ts)) <==> InInt64(ExactSum(ts, MaxScale(ts)))
  {
    sum := ts[0];
    assert ts[..1] == [ts[0]];
    FirstTerm(ts[0]);
    for k := 1 to |ts|
      invariant Accumulates(ts[..k], sum)
    {
      var acc := sum;
      assert ts[..k+1] == ts[..k] + [ts[k]];
      sum := AddExact(acc, ts[k]);
      NextTerm(ts[..k], acc, ts[k], sum);
    }
    assert ts[..|ts|] == ts;
    AccumulatedSum(ts, sum);
  }

  /** While the terms are summed, no aligned operand and no aligned sum leaves 128 bits. */
  lemma {:induction false} SumStaysIn128(ts: seq<Term>, acc: Term, t: Term)
    requires Operands(ts + [t]) && Accumulates(ts, acc)
    ensures var s := Higher(acc.scale, t.scale);
      var av, bv := acc.value * Pow10(s - acc.scale), t.value * Pow10(s - t.scale);
      InInt128(av) && InInt128(bv) && InInt128(av + bv)
  {
    assert t in ts + [t];
    var top :| top in ts && top.scale == MaxScale(ts);
    assert top in ts + [t];
    AlignmentFits128(acc, t);
  }

  // ----- Rescaling and the size-error test -----

  predicate RescaleDefined(v: int, from: nat, to: nat) {
    if to > from then to - from <= 18 && InInt64(v * Pow10(to - from)) else from - to <= 18
  }

  /** Rescaling by one multiplication or division; a factor or product beyond 64 bits is undefined. */
  method RescaleTo(v: int, from: nat, to: nat) returns (defined: bool, r: int)
    requires InInt64(v)
    ensures defined <==> RescaleDefined(v, from, to)
    ensures defined ==> r == Rescale(v, from, to) && InInt64(r)
  {
    r := v;
    if from > to {
      if from - to > 18 { return false, v; }
      var factor := PowerOfTen(from - to);
      QuotientFits(v, factor);
      r := TruncDiv(v, factor);
    } else if from < to {
      if to - from > 18 { return false, v; }
      var factor := PowerOfTen(to - from);
      if !InInt64(v * factor) { return false, v; }
      r := v * factor;
    }
    defined := true;
  }

  lemma {:induction false} QuotientFits(v: int, d: int)
    requires InInt64(v) && d >= 1
    ensures InInt64(TruncDiv(v, d))
  {
    QuotientBound(Abs(v), d);
  }

  /** What an item that ADD GIVING stores into holds. */
  class Receiver {
    var value: int

    constructor (value: int)
      ensures this.value == value
    {
      this.value := value;
    }
  }

  /** The value ADD GIVING computes for a receiver of the given scale. */
  function GivingResult(ts: seq<Term>, scale: nat): int {
    Rescale(Narrow64(ExactSum(ts, MaxScale(ts))), MaxScale(ts), scale)
  }

  predicate GivingDefined(ts: seq<Term>, scale: nat, hasSizeError: bool) {
    && RescaleDefined(Narrow64(ExactSum(ts, MaxScale(ts))), MaxScale(ts), scale)
    && (hasSizeError ==> GivingResult(ts, scale) != MIN_INT64)
  }

  /** ADD GIVING into a DISPLAY item. */
  method GivingDisplay(receiver: Receiver, ts: seq<Term>, size: nat, scale: nat, hasSizeError: bool)
    returns (defined: bool, sizeError: bool)
    requires Operands(ts) && size <= 18
    modifies receiver
    ensures ts == [] ==> defined && !sizeError && receiver.value == old(receiver.value)
    ensures ts != [] ==> (defined <==> GivingDefined(ts, scale, hasSizeError))
    ensures ts != [] && defined ==>
      && (sizeError <==> hasSizeError && Abs(GivingResult(ts, scale)) > Pow10(size) - 1)
      && receiver.value == if sizeError then old(receiver.value) else GivingResult(ts, scale)
    ensures !defined ==> receiver.value == old(receiver.value)
  {
    sizeError := false;
    if ts == [] { return true, false; }
    var sum := SumTerms(ts);
    var result;
    defined, result := RescaleTo(sum.value, sum.scale, scale);
    if !defined { return; }
    if hasSizeError {
      if result == MIN_INT64 { return false, false; }
      var limit := PowerOfTen(size);
      if Abs(result) > limit - 1 {
        sizeError := true;
      } else {
        receiver.value := result;
      }
    } else {
      receiver.value := result;
    }
  }

  // ----- Rescaling by repeated multiplication or division by ten -----

  lemma {:induction false} TruncDivTwice(v: int, d: int, e: int)
    requires d > 0 && e > 0
    ensures d * e > 0 && TruncDiv(TruncDiv(v, d), e) == TruncDiv(v, d * e)
  {
    DivTwice(Abs(v), d, e);
    QuotientBound(Abs(v), d);
    if Abs(v) / d == 0 { SmallQuotientIsZero(e); }
  }

  lemma {:induction false} SmallQuotientIsZero(e: int)
    requires e > 0
    ensures 0 / e == 0
  {
  }

  /** A product by a power of ten that fits 64 bits passes only through products that fit. */
  lemma {:induction false} SmallerProductFits(v: int, i: nat, n: nat)
    requires i <= n && InInt64(v * Pow10(n))
    ensures InInt64(v * Pow10(i))
  {
    Pow10Add(i, n - i);
    Reassociate(v, Pow10(i), Pow10(n - i));
    FactorFits(v * Pow10(i), Pow10(n - i));
  }

  lemma {:induction false} Reassociate(v: int, a: int, b: int)
    ensures v * (a * b) == (v * a) * b
  {
  }

  lemma {:induction false} FactorFits(p: int, k: int)
    requires k >= 1 && InInt64(p * k)
    ensures InInt64(p)
  {
    ProductIsNonNegative(Abs(p), k - 1);
    assert Abs(p) * (k - 1) == Abs(p) * k - Abs(p);
    AbsOfProduct(p, k);
  }

  /** The loops that multiply or divide the sum by ten, step by step. */
  method RescaleByTens(v: int, from: nat, to: nat) returns (defined: bool, r: int)
    requires InInt64(v)
    ensures defined <==> (from < to ==> InInt64(v * Pow10(to - from)))
    ensures defined ==> r == Rescale(v, from, to) && InInt64(r)
  {
    r := v;
    if from < to {
      for i := 0 to to - from
        invariant InInt64(r) && r == v * Pow10(i)
      {
        assert v * Pow10(i + 1) == 10 * (v * Pow10(i));
        if !InInt64(r * 10) {
          if InInt64(v * Pow10(to - from)) { SmallerProductFits(v, i + 1, to - from); }
          return false, r;
        }
        r := r * 10;
      }
    } else if from > to {
      for i := 0 to from - to
        invariant InInt64(r) && r == TruncDiv(v, Pow10(i))
      {
        TruncDivTwice(v, Pow10(i), 10);
        QuotientFits(r, 10);
        r := TruncDiv(r, 10);
      }
    }
    defined := true;
  }

  predicate GivingDecimalDefined(ts: seq<Term>, scale: nat, hasSizeError: bool) {
    var sum, from := Narrow64(ExactSum(ts, MaxScale(ts))), MaxScale(ts);
    && (from < scale ==> InInt64(sum * Pow10(scale - from)))
    && (hasSizeError ==> GivingResult(ts, scale) != MIN_INT64)
  }

  /** ADD GIVING into a packed or binary decimal item. */
  method GivingDecimal(receiver: Receiver, ts: seq<Term>, size: nat, scale: nat, hasSizeError: bool)
    returns (defined: bool, sizeError: bool)
    requires Operands(ts) && size <= 18
    modifies receiver
    ensures ts == [] ==> defined && !sizeError && receiver.value == old(receiver.value)
    ensures ts != [] ==> (defined <==> GivingDecimalDefined(ts, scale, hasSizeError))
    ensures ts != [] && defined ==>
      && (sizeError <==> hasSizeError && Abs(GivingResult(ts, scale)) > Pow10(size) - 1)
      && receiver.value == if sizeError then old(receiver.value) else GivingResult(ts, scale)
    ensures !defined ==> receiver.value == old(receiver.value)
  {
    sizeError := false;
    if ts == [] { return true, false; }
    var sum := SumTerms(ts);
    var result;
    defined, result := RescaleByTens(sum.value, sum.scale, scale);
    if !defined { return; }
    if hasSizeError {
      if result == MIN_INT64 { return false, false; }
      var limit := PowerOfTen(size);
      if Abs(result) > limit - 1 {
        sizeError := true;
      } else {
        receiver.value := result;
      }
    } else {
      receiver.value := result;
    }
  }

  // ----- When rescaling is defined -----

  /** Rescaling by one factor is defined exactly when the factor and the rescaled value fit 64 bits. */
  lemma {:induction false} RescaleDefinedIff(v: int, from: nat, to: nat)
    requires InInt64(v)
    ensures RescaleDefined(v, from, to) <==>
      InInt64(Pow10(if to > from then to - from else from - to)) && InInt64(Rescale(v, from, to))
  {
    PowerFitsIff(if to > from then to - from else from - to);
    if to <= from { QuotientFits(v, Pow10(from - to)); }
    assert Pow10(0) == 1;
  }

  /** Rescaling step by step needs no factor: only the rescaled value must fit. */
  lemma {:induction false} GivingDecimalDefinedIff(ts: seq<Term>, scale: nat)
    ensures GivingDecimalDefined(ts, scale, false) <==> InInt64(GivingResult(ts, scale))
    ensures GivingDecimalDefined(ts, scale, true) <==> InInt64(GivingResult(ts, scale)) && InInt64(-GivingResult(ts, scale))
    ensures GivingDefined(ts, scale, false) <==> RescaleDefined(Narrow64(ExactSum(ts, MaxScale(ts))), MaxScale(ts), scale)
    ensures GivingDefined(ts, scale, true) <==> GivingDefined(ts, scale, false) && InInt64(-GivingResult(ts, scale))
  {
    var sum, from := Narrow64(ExactSum(ts, MaxScale(ts))), MaxScale(ts);
    if from >= scale { QuotientFits(sum, Pow10(from - scale)); }
    assert Pow10(0) == 1;
    RescaleDefinedIff(sum, from, scale);
  }

  // ----- What the size-error test means -----

  /** `num / 10^from` is at least ten to the power `size` in magnitude. */
  ghost predicate TooLarge(num: int, from: nat, scale: nat, size: nat) {
    Abs(num) * Pow10(scale) >= Pow10(size) * Pow10(from)
  }

  /** The size test is made on the narrowed sum. */
  lemma {:induction false} SizeTestOfNarrowed(ts: seq<Term>, size: nat, scale: nat)
    ensures var narrowed, from, r := Narrow64(ExactSum(ts, MaxScale(ts))), MaxScale(ts), GivingResult(ts, scale);
      && (Abs(r) > Pow10(size) - 1 <==> TooLarge(narrowed, from, scale, size))
      && Brackets(Abs(r), Abs(narrowed), scale, from)
      && r == WithSign(narrowed, Abs(r))
  {
    SizeTestMeans(Narrow64(ExactSum(ts, MaxScale(ts))), MaxScale(ts), scale, size);
  }

  /** A value rescaled to the receiver's scale has more digits than the receiver exactly when the value is too large. */
  lemma {:induction false} SizeTestMeans(v: int, from: nat, scale: nat, size: nat)
    ensures var r := Rescale(v, from, scale);
      && (Abs(r) > Pow10(size) - 1 <==> TooLarge(v, from, scale, size))
      && Brackets(Abs(r), Abs(v), scale, from)
      && r == WithSign(v, Abs(r))
  {
    RescaleTruncatesTowardZero(v, from, scale);
    CompareQuotient(Abs(Rescale(v, from, scale)), Abs(v) * Pow10(scale), Pow10(from), Pow10(size));
  }

  // ----- When narrowing shows in the result -----

  /** Narrowing moves an integer that does not fit by at least 2^64. */
  lemma {:induction false} NarrowMoves(e: int)
    requires !InInt64(e)
    ensures Abs(e - Narrow64(e)) >= TWO_TO_64
  {
    var q := (e - Narrow64(e)) / TWO_TO_64;
    assert e - Narrow64(e) == q * TWO_TO_64 && q != 0;
  }

  /** Integers with the same truncated quotient are less than two divisors apart. */
  lemma {:induction false} SameQuotientIsNear(x: int, y: int, d: int)
    requires d > 0 && TruncDiv(x, d) == TruncDiv(y, d)
    ensures Abs(x - y) < 2 * d
  {
    NearItsQuotient(x, d);
    NearItsQuotient(y, d);
  }

  lemma {:induction false} NearItsQuotient(x: int, d: int)
    requires d > 0
    ensures Abs(x - TruncDiv(x, d) * d) < d
  {
    var q, r := Abs(x) / d, Abs(x) % d;
    assert Abs(x) == q * d + r;
    assert (-q) * d == -(q * d);
  }

  lemma {:induction false} ZeroQuotient(x: int, d: int)
    requires d > 0
    ensures TruncDiv(x, d) == 0 <==> Abs(x) < d
  {
    var q, r := Abs(x) / d, Abs(x) % d;
    if Abs(x) < d { DivisionIsUnique(Abs(x), d, 0, Abs(x)); }
  }

  lemma {:induction false} SameProduct(x: int, y: int, k: int)
    requires k > 0 && x * k == y * k
    ensures x == y
  {
    DivisionIsUnique(x * k, k, x, 0);
    DivisionIsUnique(y * k, k, y, 0);
  }

  /** Narrowing changes nothing, or nothing but digits that are dropped anyway. */
  predicate NarrowingIsHidden(e: int, from: nat, to: nat) {
    InInt64(e) || (from >= to + 19 && Abs(e) < Pow10(from - to))
  }

  /** The rescaled value is the exact one if and only if narrowing is hidden. */
  lemma {:induction false} RescaledNarrowedIff(e: int, from: nat, to: nat)
    ensures Rescale(Narrow64(e), from, to) == Rescale(e, from, to) <==> NarrowingIsHidden(e, from, to)
  {
    if !InInt64(e) {
      NarrowMoves(e);
      if from <= to {
        if Rescale(Narrow64(e), from, to) == Rescale(e, from, to) { SameProduct(Narrow64(e), e, Pow10(to - from)); }
      } else if from <= to + 18 {
        FewDigitsDropped(e, Pow10(from - to), from - to);
      } else {
        ManyDigitsDropped(e, Pow10(from - to), from - to);
      }
    }
  }

  lemma {:induction false} FewDigitsDropped(e: int, d: int, n: nat)
    requires n <= 18 && d == Pow10(n) && Abs(e - Narrow64(e)) >= TWO_TO_64
    ensures TruncDiv(Narrow64(e), d) != TruncDiv(e, d)
  {
    Pow10Monotone(n, 18);
    Pow10Of18();
    if TruncDiv(Narrow64(e), d) == TruncDiv(e, d) { SameQuotientIsNear(e, Narrow64(e), d); }
  }

  lemma {:induction false} ManyDigitsDropped(e: int, d: int, n: nat)
    requires n >= 19 && d == Pow10(n)
    ensures TruncDiv(Narrow64(e), d) == TruncDiv(e, d) <==> Abs(e) < d
  {
    Pow10Monotone(19, n);
    Pow10Of18();
    assert Pow10(19) == 10 * Pow10(18);
    ZeroQuotient(Narrow64(e), d);
    ZeroQuotient(e, d);
  }

  /** The value ADD GIVING computes is the exact sum, cut off at the receiver's scale. */
  ghost predicate GivesExactSum(ts: seq<Term>, scale: nat) {
    GivingResult(ts, scale) == Rescale(ExactSum(ts, MaxScale(ts)), MaxScale(ts), scale)
  }

  /** It is so if and only if narrowing is hidden: for receivers with few places less, if and only if the total fits. */
  lemma {:induction false} GivesExactSumIff(ts: seq<Term>, scale: nat)
    ensures GivesExactSum(ts, scale) <==> NarrowingIsHidden(ExactSum(ts, MaxScale(ts)), MaxScale(ts), scale)
    ensures MaxScale(ts) <= scale + 18 ==> (GivesExactSum(ts, scale) <==> InInt64(ExactSum(ts, MaxScale(ts))))
  {
    RescaledNarrowedIff(ExactSum(ts, MaxScale(ts)), MaxScale(ts), scale);
  }

  /** ON SIZE ERROR does what it should: an error exactly for a sum that is too large, and otherwise the exact sum cut off. */
  ghost predicate SizeErrorIsRight(ts: seq<Term>, size: nat, scale: nat) {
    var raised := Abs(GivingResult(ts, scale)) > Pow10(size) - 1;
    && (raised <==> TooLarge(ExactSum(ts, MaxScale(ts)), MaxScale(ts), scale, size))
    && (!raised ==> GivesExactSum(ts, scale))
  }

  /**
    It does so if and only if narrowing is hidden, or both the exact sum and what narrowing leaves
    of it are too large. When it is not, a wrong sum is stored, or a sum that fits is refused.
  */
  lemma {:induction false} SizeErrorIffTooLarge(ts: seq<Term>, size: nat, scale: nat)
    ensures var exact, from := ExactSum(ts, MaxScale(ts)), MaxScale(ts);
      SizeErrorIsRight(ts, size, scale) <==>
        || NarrowingIsHidden(exact, from, scale)
        || (TooLarge(exact, from, scale, size) && TooLarge(Narrow64(exact), from, scale, size))
    ensures var exact, from, r := ExactSum(ts, MaxScale(ts)), MaxScale(ts), GivingResult(ts, scale);
      NarrowingIsHidden(exact, from, scale) ==>
        && (Abs(r) > Pow10(size) - 1 <==> TooLarge(exact, from, scale, size))
        && Brackets(Abs(r), Abs(exact), scale, from)
        && r == WithSign(exact, Abs(r))
  {
    SizeTestOfNarrowed(ts, size, scale);
    SizeTestMeans(ExactSum(ts, MaxScale(ts)), MaxScale(ts), scale, size);
    GivesExactSumIff(ts, scale);
  }

  /** A sum nearly ten to the eighteenth times what it may be, for which no error is raised and at most 9.22 is stored. */
  lemma {:induction false} SizeErrorIsMissed()
    ensures var ts := [Term(999_999_999_999_999_999, 0), Term(1, 18)];
      && Operands(ts) && MaxScale(ts) == 18
      && GivingDefined(ts, 2, true) && GivingDecimalDefined(ts, 2, true)
      && TooLarge(ExactSum(ts, 18), 18, 2, 18)
      && Abs(GivingResult(ts, 2)) <= 922
      && !SizeErrorIsRight(ts, 18, 2)
  {
    var ts := [Term(999_999_999_999_999_999, 0), Term(1, 18)];
    ExactSumSnoc([], ts[0]);
    ExactSumSnoc([ts[0]], ts[1]);
    assert [] + [ts[0]] == [ts[0]] && [ts[0]] + [ts[1]] == ts;
    Pow10Of18();
    MissedArithmetic(Narrow64(ExactSum(ts, 18)));
  }

  lemma {:induction false} MissedArithmetic(n: int)
    requires InInt64(n)
    ensures Pow10(2) == 100 && Pow10(16) == 10_000_000_000_000_000 && Abs(TruncDiv(n, Pow10(16))) <= 922
  {
    assert Pow10(8) == 100_000_000;
    var q := Abs(n) / 10_000_000_000_000_000;
  }

  lemma {:induction false} CompareQuotient(m: nat, a: nat, f: int, limit: int)
    requires f > 0 && m * f <= a < (m + 1) * f
    ensures m >= limit <==> a >= limit * f
  {
    assert m >= limit ==> m * f >= limit * f;
    assert m + 1 <= limit ==> (m + 1) * f <= limit * f;
  }

  /** A receiver with more decimal places than the sum can overflow 64 bits before its size is tested. */
  lemma {:induction false} SizeTestCanComeTooLate()
    ensures !GivingDefined([Term(1_000_000_000_000_000_000, 0)], 1, true)
    ensures TooLarge(1_000_000_000_000_000_000, 0, 1, 18)
  {
    var ts := [Term(1_000_000_000_000_000_000, 0)];
    ExactSumSnoc([], ts[0]);
    assert [] + ts == ts;
    Pow10Of18();
    assert Pow10(1) == 10 && Pow10(0) == 1;
  }
}
