/**
  The length of a record with OCCURS DEPENDING ON tables: the C expression emitted for it, what
  that expression evaluates to at the current counts, and how it compares with the static size.
*/
module DynamicLength {
  import opened Options
  import opened DataItems
  import opened FixedPoint

  // ----- The emitted expression -----

  datatype LenExpr = Num(n: nat) | Counter(name: string) | Times(left: LenExpr, right: LenExpr) | Sum(parts: seq<LenExpr>)

  /** `group_item_contains_depending`: looks below redefining members too. */
  predicate ContainsDepending(item: Item) {
    item.body.Group? &&
    exists m :: m in item.body.members && (m.depending.Some? || (m.body.Group? && ContainsDepending(m)))
  }

  /** `effective_item_len_expr`; none when the length is static. */
  function ItemExpr(item: Item): Option<LenExpr>
    decreases item, 1
  {
    if item.depending.Some? then Some(Times(Counter(item.depending.value), UnitExpr(item)))
    else if !ContainsDepending(item) then None
    else match item.occurs
      case Some(n) => Some(Times(Num(n), UnitExpr(item)))
      case None => Some(UnitExpr(item))
  }

  /** One occurrence: the sum over the members of a group with a dynamic one, else the static size. */
  function UnitExpr(item: Item): LenExpr
    decreases item, 0
  {
    match item.body
    case Group(members, size) => if AnyDynamic(members) then Sum(Parts(members)) else Num(size)
    case Elementary(size, _) => Num(size)
  }

  function Parts(members: seq<Item>): seq<LenExpr>
    decreases members, 0
  {
    if members == [] then []
    else if !members[0].clause.Plain? then Parts(members[1..])
    else [PartOf(members[0])] + Parts(members[1..])
  }

  function PartOf(item: Item): LenExpr
    decreases item, 2
  {
    match ItemExpr(item)
    case Some(e) => e
    case None => Num(ByteSize(item.body) * Count(item))
  }

  predicate AnyDynamic(members: seq<Item>)
    decreases members, 0
  {
    members != [] && ((members[0].clause.Plain? && ItemExpr(members[0]).Some?) || AnyDynamic(members[1..]))
  }

  /** From the item down to an item with OCCURS DEPENDING ON, each a member of the one before. */
  predicate LeadsToDepending(chain: seq<Item>, item: Item) {
    && |chain| > 1 && chain[0] == item && chain[|chain|-1].depending.Some?
    && forall i :: 0 < i < |chain| ==> IsMember(chain, i)
  }

  predicate IsMember(chain: seq<Item>, i: nat)
    requires 0 < i < |chain|
  {
    chain[i-1].body.Group? && chain[i] in chain[i-1].body.members
  }

  /** A length is emitted as an expression exactly for items that depend on a counter or have an item below them that does. */
  lemma {:induction false} ExpressionIff(item: Item)
    ensures ItemExpr(item).Some? <==> item.depending.Some? || exists chain :: LeadsToDepending(chain, item)
  {
    if ContainsDepending(item) {
      var chain := DependingBelow(item);
    }
    if chain :| LeadsToDepending(chain, item) {
      ChainContains(chain, item);
    }
  }

  lemma {:induction false} DependingBelow(item: Item) returns (chain: seq<Item>)
    requires ContainsDepending(item)
    ensures LeadsToDepending(chain, item)
    decreases item
  {
    var m :| m in item.body.members && (m.depending.Some? || (m.body.Group? && ContainsDepending(m)));
    if m.depending.Some? {
      chain := [item, m];
    } else {
      var rest := DependingBelow(m);
      chain := [item] + rest;
      forall i | 0 < i < |chain| ensures IsMember(chain, i) {
        assert i > 1 ==> IsMember(rest, i - 1);
      }
    }
  }

  lemma {:induction false} ChainContains(chain: seq<Item>, item: Item)
    requires LeadsToDepending(chain, item)
    ensures ContainsDepending(item)
    decreases |chain|
  {
    var rest := chain[1..];
    assert IsMember(chain, 1);
    if |chain| > 2 {
      forall i | 0 < i < |rest| ensures IsMember(rest, i) { assert IsMember(chain, i + 1); }
      ChainContains(rest, rest[0]);
    }
  }

  // ----- What it evaluates to -----

  /** The current value of each OCCURS DEPENDING ON counter. */
  type Counts = string -> int

  function Eval(e: LenExpr, counts: Counts): int
    decreases e, 0
  {
    match e
    case Num(n) => n
    case Counter(name) => counts(name)
    case Times(l, r) => Eval(l, counts) * Eval(r, counts)
    case Sum(parts) => EvalAll(parts, counts)
  }

  function EvalAll(parts: seq<LenExpr>, counts: Counts): int
    decreases parts, 0
  {
    if parts == [] then 0 else Eval(parts[0], counts) + EvalAll(parts[1..], counts)
  }

  const UINT32: int := 0x1_0000_0000

  /** The same in C, where the counter is cast to `uint32_t` and every operation wraps. */
  function EvalC(e: LenExpr, counts: Counts): int
    decreases e, 0
  {
    match e
    case Num(n) => n % UINT32
    case Counter(name) => counts(name) % UINT32
    case Times(l, r) => (EvalC(l, counts) * EvalC(r, counts)) % UINT32
    case Sum(parts) => EvalAllC(parts, counts)
  }

  function EvalAllC(parts: seq<LenExpr>, counts: Counts): int
    decreases parts, 0
  {
    if parts == [] then 0 else (EvalC(parts[0], counts) + EvalAllC(parts[1..], counts)) % UINT32
  }

  /** C arithmetic gives the value modulo 2^32, so it is exact whenever the value fits. */
  lemma {:induction false} CComputesModulo(e: LenExpr, counts: Counts)
    ensures EvalC(e, counts) == Eval(e, counts) % UINT32
    decreases e, 0
  {
    match e
    case Times(l, r) =>
      CComputesModulo(l, counts);
      CComputesModulo(r, counts);
      ProductModulo(Eval(l, counts), Eval(r, counts), UINT32);
    case Sum(parts) => CComputesAllModulo(parts, counts);
    case _ =>
  }

  lemma {:induction false} CComputesAllModulo(parts: seq<LenExpr>, counts: Counts)
    ensures EvalAllC(parts, counts) == EvalAll(parts, counts) % UINT32
    decreases parts, 0
  {
    if parts != [] {
      CComputesModulo(parts[0], counts);
      CComputesAllModulo(parts[1..], counts);
      SumModulo(Eval(parts[0], counts), EvalAll(parts[1..], counts), UINT32);
    }
  }

  lemma {:induction false} SumModulo(a: int, b: int, m: int)
    requires m > 0
    ensures (a % m + b % m) % m == (a + b) % m
  {
    var k := a / m + b / m;
    assert a + b == a % m + b % m + k * m;
    ModuloOfShift(a % m + b % m, k, m);
  }

  lemma {:induction false} ModuloOfShift(x: int, k: int, m: int)
    requires m > 0
    ensures (x + k * m) % m == x % m
  {
    assert x + k * m == (x / m + k) * m + x % m by {
      assert (x / m + k) * m == x / m * m + k * m;
    }
    DivisionIsUnique(x + k * m, m, x / m + k, x % m);
  }

  lemma {:induction false} ProductModulo(a: int, b: int, m: int)
    requires m > 0
    ensures ((a % m) * (b % m)) % m == (a * b) % m
  {
    ReduceLeft(a, b, m);
    ReduceLeft(b, a % m, m);
    assert (b % m) * (a % m) == (a % m) * (b % m) && b * (a % m) == (a % m) * b;
  }

  lemma {:induction false} ReduceLeft(a: int, b: int, m: int)
    requires m > 0
    ensures ((a % m) * b) % m == (a * b) % m
  {
    ScaleShift(a % m, a / m, m, b);
    ModuloOfShift((a % m) * b, (a / m) * b, m);
    assert a % m + (a / m) * m == a;
  }

  lemma {:induction false} ScaleShift(r: int, p: int, m: int, b: int)
    ensures (r + p * m) * b == r * b + p * b * m
  {
    assert (r + p * m) * b == r * b + (p * m) * b;
    assert (p * m) * b == p * b * m;
  }

  // ----- The record length -----

  function Occurrences(item: Item, counts: Counts): int {
    match item.depending case Some(name) => counts(name) case None => Count(item)
  }

  /** The storage an item takes at the current counts, its members one after the other. */
  function Length(item: Item, counts: Counts): int
    decreases item, 1
  {
    Occurrences(item, counts) * UnitLength(item, counts)
  }

  function UnitLength(item: Item, counts: Counts): int
    decreases item, 0
  {
    match item.body
    case Group(members, _) => TotalLength(members, counts)
    case Elementary(_, _) => StorageSize(item)
  }

  function TotalLength(items: seq<Item>, counts: Counts): int
    decreases items, 0
  {
    if items == [] then 0
    else (if items[0].clause.Plain? then Length(items[0], counts) else 0) + TotalLength(items[1..], counts)
  }

  /** The separate signs that the summed expression of a dynamic group leaves out. */
  function MissedSigns(item: Item, counts: Counts): int
    decreases item, 1
  {
    Occurrences(item, counts) * MissedPerUnit(item, counts)
  }

  function MissedPerUnit(item: Item, counts: Counts): int
    decreases item, 0
  {
    match item.body
    case Group(members, _) => if AnyDynamic(members) then MissedIn(members, counts) else 0
    case Elementary(_, separateSign) => if separateSign then 1 else 0
  }

  function MissedIn(items: seq<Item>, counts: Counts): int
    decreases items, 0
  {
    if items == [] then 0
    else (if items[0].clause.Plain? then MissedSigns(items[0], counts) else 0) + MissedIn(items[1..], counts)
  }

  // ----- Static items -----

  /** Without an expression the length does not depend on any count. */
  lemma {:induction false} NoExpressionIsStatic(item: Item, counts: Counts)
    requires SizedItem(item) && ItemExpr(item).None?
    ensures Length(item, counts) == StorageSize(item) * Count(item)
    decreases item, 1
  {
    match item.body
    case Group(members, size) =>
      MembersAreStatic(item);
      NoneDynamic(members);
      StaticTotal(members, counts);
    case Elementary(_, _) =>
  }

  lemma {:induction false} MembersAreStatic(item: Item)
    requires item.body.Group? && ItemExpr(item).None?
    ensures forall m :: m in item.body.members ==> ItemExpr(m).None?
  {
    forall m | m in item.body.members ensures ItemExpr(m).None? {
      MemberIsStatic(item, m);
    }
  }

  lemma {:induction false} MemberIsStatic(item: Item, m: Item)
    requires item.body.Group? && m in item.body.members && !ContainsDepending(item)
    ensures m.depending.None? && !ContainsDepending(m)
  {
  }

  lemma {:induction false} StaticTotal(items: seq<Item>, counts: Counts)
    requires Sized(items) && !AnyDynamic(items)
    ensures TotalLength(items, counts) == Total(items)
    decreases items, 0
  {
    if items != [] {
      assert items[0] in items;
      if items[0].clause.Plain? { NoExpressionIsStatic(items[0], counts); }
      StaticTotal(items[1..], counts);
    }
  }

  lemma {:induction false} NoneDynamic(items: seq<Item>)
    requires forall m :: m in items ==> ItemExpr(m).None?
    ensures !AnyDynamic(items)
  {
    if items != [] { NoneDynamic(items[1..]); }
  }

  // ----- The expression against the length -----

  /** What is counted for an item inside its group. */
  function PartValue(item: Item, counts: Counts): int {
    Eval(PartOf(item), counts)
  }

  /** The emitted length falls short of the record length by exactly the separate signs it leaves out. */
  lemma {:induction false} PartMissesSigns(item: Item, counts: Counts)
    requires SizedItem(item)
    ensures PartValue(item, counts) + MissedSigns(item, counts) == Length(item, counts)
    decreases item, 1
  {
    UnitMissesSigns(item, counts);
    if ItemExpr(item).Some? {
      UnitTimes(item, counts);
      Distribute(Occurrences(item, counts), Eval(UnitExpr(item), counts), MissedPerUnit(item, counts));
    } else {
      match item.body
      case Group(members, _) => NoExpressionHasNoDynamic(item);
      case Elementary(_, _) => Distribute(Count(item), ByteSize(item.body), StorageSize(item) - ByteSize(item.body));
    }
  }

  lemma {:induction false} Distribute(n: int, a: int, b: int)
    ensures n * a + n * b == n * (a + b)
  {
  }

  lemma {:induction false} NoExpressionHasNoDynamic(item: Item)
    requires item.body.Group? && ItemExpr(item).None?
    ensures !AnyDynamic(item.body.members)
  {
    forall m | m in item.body.members ensures ItemExpr(m).None? {
    }
    NoneDynamic(item.body.members);
  }

  lemma {:induction false} UnitTimes(item: Item, counts: Counts)
    requires ItemExpr(item).Some?
    ensures PartValue(item, counts) == Occurrences(item, counts) * Eval(UnitExpr(item), counts)
  {
    var e, unit := ItemExpr(item).value, UnitExpr(item);
    if item.depending.Some? {
      assert e == Times(Counter(item.depending.value), unit);
      assert Eval(Counter(item.depending.value), counts) == Occurrences(item, counts);
    } else if item.occurs.Some? {
      assert e == Times(Num(item.occurs.value), unit);
      assert Eval(Num(item.occurs.value), counts) == Count(item);
    } else {
      assert e == unit;
    }
  }

  lemma {:induction false} UnitMissesSigns(item: Item, counts: Counts)
    requires SizedItem(item)
    ensures Eval(UnitExpr(item), counts) + MissedPerUnit(item, counts) == UnitLength(item, counts)
    decreases item, 0
  {
    match item.body
    case Group(members, _) =>
      if AnyDynamic(members) { PartsMissSigns(members, counts); } else { StaticTotal(members, counts); }
    case Elementary(_, _) =>
  }

  lemma {:induction false} PartsMissSigns(items: seq<Item>, counts: Counts)
    requires Sized(items)
    ensures EvalAll(Parts(items), counts) + MissedIn(items, counts) == TotalLength(items, counts)
    decreases items, 0
  {
    if items != [] {
      assert items[0] in items;
      if items[0].clause.Plain? {
        PartMissesSigns(items[0], counts);
        var parts := Parts(items);
        assert parts[0] == PartOf(items[0]) && parts[1..] == Parts(items[1..]);
      }
      PartsMissSigns(items[1..], counts);
    }
  }

  // ----- Counts within their maxima -----

  /** Every table's current count is between zero and the number of occurrences it is declared with. */
  predicate WithinMaxima(items: seq<Item>, counts: Counts) {
    forall item :: item in items ==> ItemWithinMaxima(item, counts)
  }

  predicate ItemWithinMaxima(item: Item, counts: Counts) {
    && 0 <= Occurrences(item, counts) <= Count(item)
    && (item.body.Group? ==> forall m :: m in item.body.members ==> ItemWithinMaxima(m, counts))
  }

  /** Every table is full. */
  predicate AtMaxima(items: seq<Item>, counts: Counts) {
    forall item :: item in items ==> ItemAtMaxima(item, counts)
  }

  predicate ItemAtMaxima(item: Item, counts: Counts) {
    && Occurrences(item, counts) == Count(item)
    && (item.body.Group? ==> forall m :: m in item.body.members ==> ItemAtMaxima(m, counts))
  }

  lemma {:induction false} ProductMonotone(a: int, b: int, c: int, d: int)
    requires 0 <= a <= b && 0 <= c <= d
    ensures 0 <= a * c <= b * d
  {
    assert b * d == a * c + a * (d - c) + (b - a) * d;
    ProductIsNonNegative(a, c);
    ProductIsNonNegative(a, d - c);
    ProductIsNonNegative(b - a, d);
  }

  /** The length never exceeds the static size while the counts are within their maxima. */
  lemma {:induction false} LengthWithinStatic(item: Item, counts: Counts)
    requires SizedItem(item) && ItemWithinMaxima(item, counts)
    ensures 0 <= Length(item, counts) <= StorageSize(item) * Count(item)
    decreases item, 1
  {
    match item.body {
      case Group(members, _) => TotalWithinStatic(members, counts);
      case Elementary(_, _) =>
    }
    ProductMonotone(Occurrences(item, counts), Count(item), UnitLength(item, counts), StorageSize(item));
  }

  lemma {:induction false} TotalWithinStatic(items: seq<Item>, counts: Counts)
    requires Sized(items) && WithinMaxima(items, counts)
    ensures 0 <= TotalLength(items, counts) <= Total(items)
    decreases items, 0
  {
    if items != [] {
      assert items[0] in items;
      LengthWithinStatic(items[0], counts);
      TotalWithinStatic(items[1..], counts);
    }
  }

  /** A record whose tables are all full takes its static size. */
  lemma {:induction false} LengthAtMaxima(item: Item, counts: Counts)
    requires SizedItem(item) && ItemAtMaxima(item, counts)
    ensures Length(item, counts) == StorageSize(item) * Count(item)
    decreases item, 1
  {
    match item.body
    case Group(members, _) => TotalAtMaxima(members, counts);
    case Elementary(_, _) =>
  }

  lemma {:induction false} TotalAtMaxima(items: seq<Item>, counts: Counts)
    requires Sized(items) && AtMaxima(items, counts)
    ensures TotalLength(items, counts) == Total(items)
    decreases items, 0
  {
    if items != [] {
      assert items[0] in items;
      LengthAtMaxima(items[0], counts);
      TotalAtMaxima(items[1..], counts);
    }
  }

  /** The signs left out are part of the length. */
  lemma {:induction false} MissedWithinLength(item: Item, counts: Counts)
    requires ItemWithinMaxima(item, counts)
    ensures 0 <= MissedSigns(item, counts) <= Length(item, counts)
    decreases item, 1
  {
    match item.body {
      case Group(members, _) => MissedWithinTotal(members, counts);
      case Elementary(_, _) =>
    }
    ProductMonotone(Occurrences(item, counts), Occurrences(item, counts), MissedPerUnit(item, counts), UnitLength(item, counts));
  }

  lemma {:induction false} MissedWithinTotal(items: seq<Item>, counts: Counts)
    requires WithinMaxima(items, counts)
    ensures 0 <= MissedIn(items, counts) <= TotalLength(items, counts)
    decreases items, 0
  {
    if items != [] {
      assert items[0] in items;
      MissedWithinLength(items[0], counts);
      MissedWithinTotal(items[1..], counts);
    }
  }

  /** No item below has a separate sign. */
  predicate NoSeparateSign(item: Item) {
    match item.body
    case Elementary(_, separateSign) => !separateSign
    case Group(members, _) => forall m :: m in members ==> NoSeparateSign(m)
  }

  lemma {:induction false} NothingMissed(item: Item, counts: Counts)
    requires NoSeparateSign(item)
    ensures MissedSigns(item, counts) == 0
    decreases item, 1
  {
    match item.body
    case Group(members, _) => NothingMissedIn(members, counts);
    case Elementary(_, _) =>
  }

  lemma {:induction false} NothingMissedIn(items: seq<Item>, counts: Counts)
    requires forall m :: m in items ==> NoSeparateSign(m)
    ensures MissedIn(items, counts) == 0
    decreases items, 0
  {
    if items != [] {
      assert items[0] in items;
      NothingMissed(items[0], counts);
      NothingMissedIn(items[1..], counts);
    }
  }

  lemma {:induction false} EmittedLengthMisses(item: Item, e: LenExpr, counts: Counts)
    requires SizedItem(item) && ItemExpr(item) == Some(e) && ItemWithinMaxima(item, counts)
    requires StorageSize(item) * Count(item) < UINT32
    ensures EvalC(e, counts) + MissedSigns(item, counts) == Length(item, counts) <= StorageSize(item) * Count(item)
  {
    PartMissesSigns(item, counts);
    LengthWithinStatic(item, counts);
    MissedWithinLength(item, counts);
    CComputesModulo(e, counts);
  }

  /**
    The length computed in C for a record no larger than 4 GiB, at any counts within their maxima:
    the record length less the separate signs left out, never more than the static size, and equal
    to it when every table is full and no sign is left out.
  */
  lemma {:induction false} EmittedLengthIsRecordLength(item: Item, e: LenExpr, counts: Counts)
    requires SizedItem(item) && ItemExpr(item) == Some(e) && ItemWithinMaxima(item, counts)
    requires StorageSize(item) * Count(item) < UINT32
    ensures EvalC(e, counts) + MissedSigns(item, counts) == Length(item, counts) <= StorageSize(item) * Count(item)
    ensures EvalC(e, counts) == Length(item, counts) <==> MissedSigns(item, counts) == 0
    ensures NoSeparateSign(item) ==> MissedSigns(item, counts) == 0
    ensures ItemAtMaxima(item, counts) && MissedSigns(item, counts) == 0 ==> EvalC(e, counts) == StorageSize(item) * Count(item)
  {
    EmittedLengthMisses(item, e, counts);
    if NoSeparateSign(item) { NothingMissed(item, counts); }
    if ItemAtMaxima(item, counts) { LengthAtMaxima(item, counts); }
  }

  /** A group of up to five signed items of three digits, each with its sign apart. */
  function SignedTable(): Item {
    Item("G", Group([Item("E", Elementary(3, true), Some(5), Some("N"), Plain)], 20), None, None, Plain)
  }

  /** With two of the items the record has eight bytes, and the emitted length is six. */
  lemma {:induction false} SignsAreLeftOut(counts: Counts)
    requires counts("N") == 2
    ensures SizedItem(SignedTable()) && ItemWithinMaxima(SignedTable(), counts)
    ensures Length(SignedTable(), counts) == 8 && MissedSigns(SignedTable(), counts) == 2
    ensures ItemExpr(SignedTable()).Some? && EvalC(ItemExpr(SignedTable()).value, counts) == 6
  {
    var g := SignedTable();
    var members := g.body.members;
    assert members[1..] == [];
    assert Total(members[1..]) == 0 && TotalLength(members[1..], counts) == 0 && MissedIn(members[1..], counts) == 0;
    assert UnitLength(members[0], counts) == 4 && Length(members[0], counts) == 8;
    assert MissedPerUnit(members[0], counts) == 1 && MissedSigns(members[0], counts) == 2;
    assert members[0] in members && ItemExpr(members[0]).Some? && AnyDynamic(members);
    assert UnitLength(g, counts) == 8 && MissedPerUnit(g, counts) == 2;
    EmittedLengthIsRecordLength(g, ItemExpr(g).value, counts);
  }

  /** The emitted expression grows with every count. */
  lemma {:induction false} ExpressionIsMonotone(e: LenExpr, fewer: Counts, more: Counts)
    requires forall name :: 0 <= fewer(name) <= more(name)
    ensures 0 <= Eval(e, fewer) <= Eval(e, more)
    decreases e, 0
  {
    match e
    case Times(l, r) =>
      ExpressionIsMonotone(l, fewer, more);
      ExpressionIsMonotone(r, fewer, more);
      ProductMonotone(Eval(l, fewer), Eval(l, more), Eval(r, fewer), Eval(r, more));
    case Sum(parts) => SumIsMonotone(parts, fewer, more);
    case _ =>
  }

  lemma {:induction false} SumIsMonotone(parts: seq<LenExpr>, fewer: Counts, more: Counts)
    requires forall name :: 0 <= fewer(name) <= more(name)
    ensures 0 <= EvalAll(parts, fewer) <= EvalAll(parts, more)
    decreases parts, 0
  {
    if parts != [] {
      ExpressionIsMonotone(parts[0], fewer, more);
      SumIsMonotone(parts[1..], fewer, more);
    }
  }

  /** What C computes is the value of the expression, which no count within its maximum takes out of 32 bits. */
  lemma {:induction false} ComputedInFull(item: Item, e: LenExpr, counts: Counts)
    requires SizedItem(item) && ItemExpr(item) == Some(e) && ItemWithinMaxima(item, counts)
    requires StorageSize(item) * Count(item) < UINT32
    ensures EvalC(e, counts) == Eval(e, counts)
  {
    PartMissesSigns(item, counts);
    EmittedLengthMisses(item, e, counts);
  }

  /** The length computed in C grows with every count, for counts within their maxima. */
  lemma {:induction false} EmittedLengthIsMonotone(item: Item, e: LenExpr, fewer: Counts, more: Counts)
    requires SizedItem(item) && ItemExpr(item) == Some(e) && StorageSize(item) * Count(item) < UINT32
    requires ItemWithinMaxima(item, fewer) && ItemWithinMaxima(item, more)
    requires forall name :: 0 <= fewer(name) <= more(name)
    ensures 0 <= EvalC(e, fewer) <= EvalC(e, more)
  {
    ComputedInFull(item, e, fewer);
    ComputedInFull(item, e, more);
    ExpressionIsMonotone(e, fewer, more);
  }
}
