/**
  Assigning a scaled integer or another decimal to a decimal item: truncate early to the digits
  the target can hold, rescale, and truncate again, all in 64-bit C arithmetic.
*/
module DecimalAssign {
  import opened Options
  import opened FixedPoint

  /** Size, decimal places and sign of the target's PICTURE. */
  datatype Picture = Picture(size: nat, scale: nat, isSigned: bool)

  // ----- What an assignment computes -----

  /** Whether the truncation before rescaling is made. */
  predicate Early(ds: int, scale: int, size: nat) {
    size > scale && size <= 18 && ds >= 0 && 0 < size - scale + ds <= 18
  }

  /** Whether every intermediate of the assignment is a defined 64-bit value. */
  predicate AssignDefined(v: int, ds: int, scale: int, size: nat) {
    && -18 <= scale - ds <= 18
    && (Early(ds, scale, size) ==> v != MIN_INT64)
    && (!Early(ds, scale, size) && scale > ds ==> InInt64(v * Pow10(scale - ds)))
    && (scale == ds && 1 <= size <= 18 ==> v != MIN_INT64)
  }

  /** The digits that are kept at the end: a leading-P picture has fewer than its size. */
  function KeptDigits(size: nat, adjustment: int): (n: nat)
    ensures n <= size
  {
    if adjustment < 0 && size > -adjustment then size + adjustment else size
  }

  function Assigned(v: int, ds: int, scale: int, size: nat, adjustment: int): int {
    if 1 <= size <= 18 then KeepDigits(Rescale(v, ds, scale), Pow10(KeptDigits(size, adjustment)))
    else if size == 0 && Early(ds, scale, size) then Rescale(KeepDigits(v, Pow10(size - scale + ds)), ds, scale)
    else Rescale(v, ds, scale)
  }

  // ----- The early truncation is harmless -----

  lemma {:induction false} KeepOfSign(v: int, m: nat, limit: int)
    requires limit > 0 && (m == 0 || Abs(v) > 0)
    ensures KeepDigits(WithSign(v, m), limit) == WithSign(v, m % limit)
  {
  }

  /** Rescaling up what was kept: at most `size` digits are left, the same ones as without keeping. */
  lemma {:induction false} EarlyThenUp(v: int, keep: nat, up: nat)
    ensures KeepDigits(KeepDigits(v, Pow10(keep)) * Pow10(up), Pow10(keep + up)) == KeepDigits(v * Pow10(up), Pow10(keep + up))
    ensures Abs(KeepDigits(v, Pow10(keep)) * Pow10(up)) < Pow10(keep + up)
  {
    var m, k := Pow10(keep), Pow10(up);
    Pow10Add(keep, up);
    var kept := KeepDigits(v, m);
    AbsOfProduct(kept, k);
    AbsOfProduct(v, k);
    ScaleThenKeep(Abs(v), m, k);
    assert Abs(kept) == Abs(v) % m;
    assert (Abs(v) * k) % (m * k) == Abs(kept) * k;
    SmallIsKept(Abs(kept) * k, m * k);
  }

  lemma {:induction false} SmallIsKept(a: nat, limit: int)
    requires a < limit
    ensures a % limit == a
  {
  }

  /** Rescaling down what was kept. */
  lemma {:induction false} EarlyThenDown(v: int, size: nat, down: nat)
    ensures KeepDigits(TruncDiv(KeepDigits(v, Pow10(size + down)), Pow10(down)), Pow10(size)) ==
      KeepDigits(TruncDiv(v, Pow10(down)), Pow10(size))
  {
    Pow10Add(size, down);
    KeepDropKeep(v, Pow10(size), Pow10(down), Pow10(size + down));
  }

  lemma {:induction false} KeepDropKeep(v: int, m: int, k: int, limit: int)
    requires m > 0 && k > 0 && limit == m * k && limit > 0
    ensures KeepDigits(TruncDiv(KeepDigits(v, limit), k), m) == KeepDigits(TruncDiv(v, k), m)
  {
    KeepThenDrop(Abs(v), m, k);
    AbsOfKept(v, limit);
    QuotientsKeepAlike(v, KeepDigits(v, limit), m, k);
  }

  lemma {:induction false} QuotientsKeepAlike(v: int, kept: int, m: int, k: int)
    requires m > 0 && k > 0 && kept == WithSign(v, Abs(kept)) && Abs(kept) / k == (Abs(v) / k) % m
    ensures KeepDigits(TruncDiv(kept, k), m) == KeepDigits(TruncDiv(v, k), m)
  {
    ZeroOver(Abs(kept), k);
    var x := Quotient(kept, k);
    var y := Quotient(v, k);
    ZeroKept(y, m);
    SignedKeep(v, kept, x, y, m);
  }

  /** The magnitude of a truncated quotient. */
  lemma {:induction false} Quotient(v: int, k: int) returns (x: nat)
    requires k > 0
    ensures x == Abs(v) / k && TruncDiv(v, k) == WithSign(v, x)
  {
    QuotientBound(Abs(v), k);
    x := Abs(v) / k;
  }

  lemma {:induction false} ZeroOver(a: nat, k: int)
    requires k > 0
    ensures a == 0 ==> a / k == 0
  {
  }

  lemma {:induction false} ZeroKept(y: nat, m: int)
    requires m > 0
    ensures y == 0 ==> y % m == 0
  {
  }

  /** The sign passes through both ways as long as a digit is left. */
  lemma {:induction false} SignedKeep(v: int, kept: int, x: nat, y: nat, m: int)
    requires m > 0 && x == y % m && kept == WithSign(v, Abs(kept)) && (kept == 0 ==> x == 0) && (y == 0 ==> x == 0)
    ensures KeepDigits(WithSign(kept, x), m) == KeepDigits(WithSign(v, y), m)
  {
    SmallIsKept(x, m);
  }

  /** The early truncation never changes what the final truncation leaves. */
  lemma {:induction false} EarlyIsHarmless(v: int, ds: int, scale: int, size: nat)
    requires Early(ds, scale, size) && size >= 1
    ensures KeepDigits(Rescale(KeepDigits(v, Pow10(size - scale + ds)), ds, scale), Pow10(size)) ==
      KeepDigits(Rescale(v, ds, scale), Pow10(size))
    ensures scale > ds ==> Abs(KeepDigits(v, Pow10(size - scale + ds)) * Pow10(scale - ds)) < Pow10(size)
  {
    if scale >= ds {
      EarlyThenUp(v, size - scale + ds, scale - ds);
    } else {
      EarlyThenDown(v, size, ds - scale);
    }
  }

  /** Keeping more digits after keeping fewer changes nothing. */
  lemma {:induction false} FewerThenMore(x: int, few: int, more: int)
    requires 0 < few <= more
    ensures KeepDigits(KeepDigits(x, few), more) == KeepDigits(x, few)
  {
    SmallIsKept(Abs(x) % few, more);
  }

  // ----- The emitted assignment -----

  lemma {:induction false} KeptIsSmall(v: int, n: nat)
    requires n <= 18
    ensures Abs(KeepDigits(v, Pow10(n))) < 1_000_000_000_000_000_000
  {
    Pow10Monotone(n, 18);
    Pow10Of18();
    AbsOfKept(v, Pow10(n));
  }

  lemma {:induction false} AbsOfKept(v: int, limit: int)
    requires limit > 0
    ensures Abs(KeepDigits(v, limit)) == Abs(v) % limit < limit
  {
  }

  /** `_dv` cut to `n` digits; negating the least 64-bit value is undefined. */
  method CutTo(dv: int, n: nat) returns (defined: bool, dv': int)
    requires InInt64(dv) && n <= 18
    ensures defined <==> dv != MIN_INT64
    ensures defined ==> dv' == KeepDigits(dv, Pow10(n))
    ensures InInt64(dv') && (defined ==> dv' != MIN_INT64)
  {
    if dv == MIN_INT64 { return false, dv; }
    var limit := PowerOfTen(n);
    KeptIsSmall(dv, n);
    return true, if dv >= 0 then dv % limit else -((-dv) % limit);
  }

  /** The rescaling step; a power beyond 10^18 or a product beyond 64 bits is undefined. */
  method RescaleStep(dv: int, dd: int) returns (defined: bool, dv': int)
    requires InInt64(dv)
    ensures defined <==> -18 <= dd <= 18 && (dd > 0 ==> InInt64(dv * Pow10(dd)))
    ensures defined ==> dv' == Rescale(dv, 0, dd) && InInt64(dv')
    ensures defined && dd != 0 ==> dv' != MIN_INT64
  {
    if dd > 0 {
      if dd > 18 || !InInt64(dv * Pow10(dd)) { return false, dv; }
      MinIsNoMultipleOfTen(dv, dd);
      return true, dv * Pow10(dd);
    } else if dd < 0 {
      if -dd > 18 { return false, dv; }
      QuotientShrinks(dv, Pow10(-dd));
      return true, TruncDiv(dv, Pow10(-dd));
    } else {
      return true, dv;
    }
  }

  lemma {:induction false} MinIsNoMultipleOfTen(v: int, n: nat)
    requires n > 0
    ensures v * Pow10(n) != MIN_INT64
  {
    assert v * Pow10(n) == 10 * (v * Pow10(n - 1));
  }

  lemma {:induction false} QuotientShrinks(v: int, d: int)
    requires InInt64(v) && d >= 1
    ensures InInt64(TruncDiv(v, d))
    ensures d > 1 ==> TruncDiv(v, d) != MIN_INT64
  {
    QuotientBound(Abs(v), d);
  }

  /** The rescaling step as rescaling from the source's scale to the target's. */
  lemma {:induction false} RescaleByDifference(v: int, ds: int, scale: int)
    ensures Rescale(v, 0, scale - ds) == Rescale(v, ds, scale)
  {
  }

  class CobolDecimal {
    var value: int
    var scale: int
    var size: nat
    var isSigned: bool

    constructor (value: int, scale: int, size: nat, isSigned: bool)
      ensures this.value == value && this.scale == scale && this.size == size && this.isSigned == isSigned
    {
      this.value, this.scale, this.size, this.isSigned := value, scale, size, isSigned;
    }

    /** From `_dv` and `_ds` to the value stored, with the target's scale and size already set. */
    method Store(v: int, ds: int, adjustment: int) returns (defined: bool)
      requires InInt64(v)
      modifies this`value
      ensures defined <==> AssignDefined(v, ds, scale, size)
      ensures value == if defined then Assigned(v, ds, scale, size, adjustment) else old(value)
    {
      var dv;
      defined, dv := CutEarly(v, ds, scale, size);
      if !defined { return; }
      if Early(ds, scale, size) { EarlyCutFits(v, ds, scale, size); }
      RescaleByDifference(dv, ds, scale);
      defined, dv := RescaleStep(dv, scale - ds);
      if !defined { return; }
      defined, dv := CutFinally(dv, size, adjustment);
      if !defined { return; }
      if Early(ds, scale, size) && size >= 1 { EarlyKeepsFinal(v, ds, scale, size, adjustment); }
      value := dv;
    }
  }

  /** The truncation before rescaling, to the digits the target can still hold. */
  method CutEarly(v: int, ds: int, scale: int, size: nat) returns (defined: bool, dv: int)
    requires InInt64(v)
    ensures defined <==> (Early(ds, scale, size) ==> v != MIN_INT64)
    ensures defined ==> dv == if Early(ds, scale, size) then KeepDigits(v, Pow10(size - scale + ds)) else v
    ensures InInt64(dv) && (defined && Early(ds, scale, size) ==> dv != MIN_INT64)
  {
    defined, dv := true, v;
    if size > scale && size <= 18 && ds >= 0 {
      var keep := size - scale + ds;
      if keep > 0 && keep <= 18 {
        defined, dv := CutTo(dv, keep);
      }
    }
  }

  /** The truncations after rescaling: to a leading-P picture's digits, then to the size. */
  method CutFinally(v: int, size: nat, adjustment: int) returns (defined: bool, dv: int)
    requires InInt64(v)
    ensures defined <==> (1 <= size <= 18 ==> v != MIN_INT64)
    ensures defined ==> dv == if 1 <= size <= 18 then KeepDigits(v, Pow10(KeptDigits(size, adjustment))) else v
  {
    defined, dv := true, v;
    if adjustment < 0 {
      var leadingP := -adjustment;
      if size > leadingP && size <= 18 {
        defined, dv := CutTo(dv, size - leadingP);
        if !defined { return; }
      }
    }
    if size > 0 && size <= 18 {
      defined, dv := CutTo(dv, size);
      FinalCuts(v, size, adjustment);
    }
  }

  /** Assignment of an integer literal, a decimal literal or an integer expression. */
  method AssignScaledInt(target: CobolDecimal, v: int, ds: int, adjustment: int, picture: Option<Picture>) returns (defined: bool)
    requires InInt64(v)
    modifies target
    ensures match picture
      case Some(p) => target.size == p.size && target.scale == p.scale && target.isSigned == p.isSigned
      case None =>
        if old(target.size) == 0 && old(target.scale) == 0
        then target.size == 18 && target.scale == ds && target.isSigned
        else target.size == old(target.size) && target.scale == old(target.scale) && target.isSigned == old(target.isSigned)
    ensures defined <==> AssignDefined(v, ds, target.scale, target.size)
    ensures target.value == if defined then Assigned(v, ds, target.scale, target.size, adjustment) else old(target.value)
  {
    match picture {
      case Some(p) =>
        target.scale, target.size, target.isSigned := p.scale, p.size, p.isSigned;
      case None =>
        if target.size == 0 && target.scale == 0 {
          target.scale, target.size, target.isSigned := ds, 18, true;
        }
    }
    defined := target.Store(v, ds, adjustment);
  }

  /** Assignment of one decimal item to another; the two may be the same item. */
  method AssignDecimal(target: CobolDecimal, source: CobolDecimal, adjustment: int, picture: Option<Picture>) returns (defined: bool)
    requires InInt64(source.value)
    modifies target
    ensures match picture
      case Some(p) => target.size == p.size && target.scale == p.scale && target.isSigned == p.isSigned
      case None =>
        if old(target.size) == 0 && old(target.scale) == 0
        then target.size == old(source.size) && target.scale == old(source.scale) && target.isSigned == old(source.isSigned)
        else target.size == old(target.size) && target.scale == old(target.scale) && target.isSigned == old(target.isSigned)
    ensures defined <==> AssignDefined(old(source.value), source.scale, target.scale, target.size)
    ensures target.value ==
      if defined then Assigned(old(source.value), source.scale, target.scale, target.size, adjustment) else old(target.value)
  {
    var dv := source.value;
    match picture {
      case Some(p) =>
        target.scale, target.size, target.isSigned := p.scale, p.size, p.isSigned;
      case None =>
        if target.size == 0 && target.scale == 0 {
          target.scale, target.size, target.isSigned := source.scale, source.size, source.isSigned;
        }
    }
    defined := target.Store(dv, source.scale, adjustment);
  }

  lemma {:induction false} EarlyCutFits(v: int, ds: int, scale: int, size: nat)
    requires Early(ds, scale, size)
    ensures scale - ds > 0 ==> scale - ds <= 18 && InInt64(KeepDigits(v, Pow10(size - scale + ds)) * Pow10(scale - ds))
  {
    if scale > ds {
      EarlyThenUp(v, size - scale + ds, scale - ds);
      Pow10Monotone(size, 18);
      Pow10Of18();
    }
  }

  lemma {:induction false} FinalCuts(x: int, size: nat, adjustment: int)
    requires size >= 1
    ensures var n := KeptDigits(size, adjustment);
      KeepDigits(KeepDigits(x, Pow10(n)), Pow10(size)) == KeepDigits(x, Pow10(n))
  {
    Pow10Monotone(KeptDigits(size, adjustment), size);
    FewerThenMore(x, Pow10(KeptDigits(size, adjustment)), Pow10(size));
  }

  /** The early truncation does not change the digits a leading-P picture keeps either. */
  lemma {:induction false} EarlyKeepsFinal(v: int, ds: int, scale: int, size: nat, adjustment: int)
    requires Early(ds, scale, size) && size >= 1
    ensures var n := KeptDigits(size, adjustment);
      KeepDigits(Rescale(KeepDigits(v, Pow10(size - scale + ds)), ds, scale), Pow10(n)) ==
      KeepDigits(Rescale(v, ds, scale), Pow10(n))
  {
    var n := KeptDigits(size, adjustment);
    var early, plain := Rescale(KeepDigits(v, Pow10(size - scale + ds)), ds, scale), Rescale(v, ds, scale);
    EarlyIsHarmless(v, ds, scale, size);
    MoreThenFewer(early, n, size);
    MoreThenFewer(plain, n, size);
  }

  /** Keeping fewer digits after keeping more is keeping fewer. */
  lemma {:induction false} MoreThenFewer(x: int, n: nat, size: nat)
    requires n <= size
    ensures KeepDigits(KeepDigits(x, Pow10(size)), Pow10(n)) == KeepDigits(x, Pow10(n))
  {
    Pow10Add(n, size - n);
    KeepFewer(x, Pow10(n), Pow10(size - n), Pow10(size));
  }

  lemma {:induction false} KeepFewer(x: int, m: int, k: int, limit: int)
    requires m > 0 && k > 0 && limit == m * k
    ensures limit > 0 && KeepDigits(KeepDigits(x, limit), m) == KeepDigits(x, m)
  {
    KeepTwice(Abs(x), m, k);
    AbsOfKept(x, limit);
    assert limit > 0;
  }

  // ----- What the assignment means -----

  /** The magnitude of a rescaled value, as one exact quotient cut off. */
  lemma {:induction false} RescaledMagnitude(v: int, from: nat, to: nat)
    ensures Abs(Rescale(v, from, to)) == (Abs(v) * Pow10(to)) / Pow10(from)
  {
    RescaleTruncatesTowardZero(v, from, to);
    var m, a, f := Abs(Rescale(v, from, to)), Abs(v) * Pow10(to), Pow10(from);
    assert (m + 1) * f == m * f + f;
    DivisionIsUnique(a, f, m, a - m * f);
  }

  /**
    For a decimal picture and any source scale the digits can bridge, the assignment is defined
    for every 64-bit value but the least, and stores the low-order digits of the value cut off at
    the target's scale, with the value's sign.
  */
  lemma {:induction false} AssignmentTruncatesBothEnds(v: int, ds: nat, scale: nat, size: nat)
    requires scale < size <= 18 && ds <= scale + 18 && InInt64(v) && v != MIN_INT64
    ensures AssignDefined(v, ds, scale, size)
    ensures Assigned(v, ds, scale, size, 0) == WithSign(v, ((Abs(v) * Pow10(scale)) / Pow10(ds)) % Pow10(size))
  {
    RescaledMagnitude(v, ds, scale);
    RescaleTruncatesTowardZero(v, ds, scale);
    var m := Abs(Rescale(v, ds, scale));
    if v == 0 { ZeroRescales(ds, scale); }
    KeepOfSign(v, m, Pow10(size));
  }

  /**
    The digits stored, for every value, source scale and picture of up to eighteen digits, with
    integer digits or without: the low-order digits of the value cut off at the target's scale, as
    many as the size, or as are left of it after leading P positions.
  */
  lemma {:induction false} StoredDigits(v: int, ds: nat, scale: nat, size: nat, adjustment: int)
    requires 1 <= size <= 18
    ensures var cut := (Abs(v) * Pow10(scale)) / Pow10(ds);
      && (adjustment >= 0 || size <= -adjustment ==>
            Assigned(v, ds, scale, size, adjustment) == WithSign(v, cut % Pow10(size)))
      && (0 < -adjustment < size ==>
            Assigned(v, ds, scale, size, adjustment) == WithSign(v, cut % Pow10(size + adjustment)))
  {
    RescaledMagnitude(v, ds, scale);
    RescaleTruncatesTowardZero(v, ds, scale);
    if v == 0 { ZeroRescales(ds, scale); }
    KeepOfSign(v, Abs(Rescale(v, ds, scale)), Pow10(KeptDigits(size, adjustment)));
  }

  /** A picture whose digits end left of the decimal point keeps digits of the value divided down to them. */
  lemma {:induction false} StoredLeftOfPoint(v: int, ds: nat, scale: int, size: nat)
    requires 1 <= size <= 18 && scale < 0
    ensures Assigned(v, ds, scale, size, 0) == WithSign(v, (Abs(v) / Pow10(ds - scale)) % Pow10(size))
  {
    var d := Pow10(ds - scale);
    AbsOfQuotient(v, d);
    QuotientBound(Abs(v), d);
    KeepOfSign(v, Abs(v) / d, Pow10(size));
  }

  /** A target of more than eighteen digits, or without any, takes the value cut off at its scale. */
  lemma {:induction false} StoredUncut(v: int, ds: nat, scale: nat, size: nat, adjustment: int)
    requires size == 0 || size > 18
    ensures Assigned(v, ds, scale, size, adjustment) == WithSign(v, (Abs(v) * Pow10(scale)) / Pow10(ds))
  {
    RescaledMagnitude(v, ds, scale);
    RescaleTruncatesTowardZero(v, ds, scale);
  }

  lemma {:induction false} ZeroRescales(ds: nat, scale: nat)
    ensures Rescale(0, ds, scale) == 0
  {
    SmallQuotient(Pow10(if ds > scale then ds - scale else 0));
  }

  lemma {:induction false} SmallQuotient(d: int)
    requires d > 0
    ensures 0 / d == 0
  {
  }

  /**
    A picture without integer digits is not truncated early: the assignment is defined exactly when
    the power of ten and the rescaled value fit 64 bits, and the value to be cut can be negated.
  */
  lemma {:induction false} FractionPictureCanOverflow(v: int, ds: nat, scale: nat, size: nat)
    requires 1 <= size <= 18 && size <= scale && InInt64(v)
    ensures AssignDefined(v, ds, scale, size) <==>
      && InInt64(Pow10(if ds < scale then scale - ds else ds - scale))
      && (ds < scale ==> InInt64(v * Pow10(scale - ds)))
      && (ds == scale ==> v != MIN_INT64)
  {
    PowerFitsIff(if ds < scale then scale - ds else ds - scale);
  }

  /** A picture with integer digits is truncated early, and only the power of ten and the least value can leave 64 bits. */
  lemma {:induction false} IntegerPictureDefinedIff(v: int, ds: nat, scale: nat, size: nat)
    requires scale < size <= 18 && size - scale + ds <= 18 && InInt64(v)
    ensures AssignDefined(v, ds, scale, size) <==>
      InInt64(Pow10(if ds < scale then scale - ds else ds - scale)) && v != MIN_INT64
  {
    PowerFitsIff(if ds < scale then scale - ds else ds - scale);
  }

  /** A concrete overflow: ten into a picture of eighteen decimal places. */
  lemma {:induction false} TenOverflowsEighteenPlaces()
    ensures !AssignDefined(10, 0, 18, 18)
  {
    Pow10Of18();
  }
}
