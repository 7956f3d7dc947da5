/**
  The tallying scan of INSPECT TALLYING ... REPLACING, with counters shared between phrases, and
  how it relates to the replacing scan over the same bytes.
*/
module InspectTally {
  import opened Options
  import opened InspectScan
  import opened InspectSeries

  datatype TallyingKind =
    | TallyCharacters
    | TallyAll(search: seq<Byte>)
    | TallyLeading(search: seq<Byte>)
    | TallyTrailing(search: seq<Byte>)

  datatype Tallying = Tallying(counter: string, kind: TallyingKind, markers: seq<Marker>)

  /** In a series a TRAILING phrase is never compared. */
  function TallyingRule(text: seq<Byte>, t: Tallying): Rule {
    var region := RegionOf(text, t.markers);
    match t.kind
    case TallyCharacters => Rule(AnyByte, [], region)
    case TallyAll(search) => Rule(Every, search, region)
    case TallyLeading(search) => Rule(LeadingOnly, search, region)
    case TallyTrailing(_) => Rule(Never, [], region)
  }

  function TallyingRules(text: seq<Byte>, ts: seq<Tallying>): (rules: seq<Rule>)
    ensures |rules| == |ts|
    ensures forall p :: 0 <= p < |ts| ==> rules[p] == TallyingRule(text, ts[p])
  {
    seq(|ts|, p requires 0 <= p < |ts| => TallyingRule(text, ts[p]))
  }

  /** How many cells were matched by a phrase that counts into `name`. */
  function Tally(cells: seq<Cell>, ts: seq<Tallying>, name: string): nat {
    if cells == [] then 0
    else
      var last := cells[|cells|-1];
      Tally(cells[..|cells|-1], ts, name) +
      if last.rule.Some? && last.rule.value < |ts| && ts[last.rule.value].counter == name then 1 else 0
  }

  /** The matches of the first `n` phrases that count into `name`. */
  function MatchesInto(cells: seq<Cell>, ts: seq<Tallying>, name: string, n: nat): nat
    requires n <= |ts|
  {
    if n == 0 then 0
    else MatchesInto(cells, ts, name, n - 1) + if ts[n-1].counter == name then MatchesOf(cells, n - 1) else 0
  }

  /** A counter grows by the matches of exactly the phrases that share it. */
  lemma {:induction false} TallyIsSumOfMatches(cells: seq<Cell>, ts: seq<Tallying>, name: string)
    ensures Tally(cells, ts, name) == MatchesInto(cells, ts, name, |ts|)
  {
    if cells == [] {
      NoCellsNoMatches(ts, name, |ts|);
    } else {
      TallyIsSumOfMatches(cells[..|cells|-1], ts, name);
      LastCellCounts(cells, ts, name, |ts|);
    }
  }

  lemma {:induction false} NoCellsNoMatches(ts: seq<Tallying>, name: string, n: nat)
    requires n <= |ts|
    ensures MatchesInto([], ts, name, n) == 0
  {
    if n > 0 { NoCellsNoMatches(ts, name, n - 1); }
  }

  lemma {:induction false} LastCellCounts(cells: seq<Cell>, ts: seq<Tallying>, name: string, n: nat)
    requires cells != [] && n <= |ts|
    ensures var last := cells[|cells|-1];
      MatchesInto(cells, ts, name, n) == MatchesInto(cells[..|cells|-1], ts, name, n) +
        if last.rule.Some? && last.rule.value < n && ts[last.rule.value].counter == name then 1 else 0
  {
    if n > 0 { LastCellCounts(cells, ts, name, n - 1); }
  }

  // ----- Counter slots -----

  /** The first phrase that counts into the same counter as phrase `i`. */
  function SlotOf(ts: seq<Tallying>, i: nat): (s: nat)
    requires i < |ts|
    ensures s <= i && ts[s].counter == ts[i].counter
    ensures forall j :: 0 <= j < s ==> ts[j].counter != ts[i].counter
  {
    FirstWith(ts, ts[i].counter, 0, i)
  }

  function FirstWith(ts: seq<Tallying>, name: string, j: nat, i: nat): (s: nat)
    requires j <= i < |ts| && ts[i].counter == name
    ensures j <= s <= i && ts[s].counter == name
    ensures forall k :: j <= k < s ==> ts[k].counter != name
    decreases i - j
  {
    if ts[j].counter == name then j else FirstWith(ts, name, j + 1, i)
  }

  /** The local counters of the slots hold what the counters held plus the tally so far. */
  ghost predicate CountersAgree(ts: seq<Tallying>, counters: map<string, int>, h: seq<Cell>, local: seq<int>)
    requires forall t :: t in ts ==> t.counter in counters
  {
    |local| == |ts| &&
    forall s: nat :: s < |ts| && SlotOf(ts, s) == s ==> local[s] == counters[ts[s].counter] + Tally(h, ts, ts[s].counter)
  }

  function Bump(ts: seq<Tallying>, local: seq<int>, p: nat): seq<int>
    requires |local| == |ts| && p < |ts|
  {
    var s := SlotOf(ts, p);
    local[s := local[s] + 1]
  }

  function Counted(ts: seq<Tallying>, local: seq<int>, c: Cell): seq<int>
    requires |local| == |ts|
  {
    if c.rule.Some? && c.rule.value < |ts| then Bump(ts, local, c.rule.value) else local
  }

  lemma {:induction false} CountedAgrees(ts: seq<Tallying>, counters: map<string, int>, h: seq<Cell>, local: seq<int>, c: Cell)
    requires forall t :: t in ts ==> t.counter in counters
    requires CountersAgree(ts, counters, h, local)
    ensures CountersAgree(ts, counters, h + [c], Counted(ts, local, c))
  {
    assert (h + [c])[..|h|] == h;
    var after := Counted(ts, local, c);
    forall s: nat | s < |ts| && SlotOf(ts, s) == s
      ensures after[s] == counters[ts[s].counter] + Tally(h + [c], ts, ts[s].counter)
    {
      if c.rule.Some? && c.rule.value < |ts| {
        var w := c.rule.value;
        assert SlotOf(ts, w) == s <==> ts[w].counter == ts[s].counter;
      }
    }
  }

  ghost predicate TallyRegions(text: seq<Byte>, ts: seq<Tallying>, regions: seq<Region>) {
    |regions| == |ts| && forall p :: 0 <= p < |ts| ==> regions[p] == RegionOf(text, ts[p].markers)
  }

  /** The `if` of one phrase at position `i`; `len` is 0 when it does not match. */
  method TryTally(base: array<Byte>, t: Tallying, region: Region, i: nat, leading: bool) returns (len: nat, leading': bool)
    requires region == RegionOf(base[..], t.markers)
    ensures var rule := TallyingRule(base[..], t);
      if Matches(base[..], rule, i) && Live(rule.mode, leading, false)
      then len == MatchLength(rule) > 0 && leading' == leading
      else len == 0 && leading' == (leading && !(rule.mode == LeadingOnly && InRegion(rule, i)))
  {
    len, leading' := 0, leading;
    if region.start <= i < region.end {
      match t.kind
      case TallyCharacters =>
        len := 1;
      case TallyAll(search) =>
        var here := Compare(base, search, i, region.end);
        if here { len := |search|; }
      case TallyLeading(search) =>
        if leading {
          var here := Compare(base, search, i, region.end);
          if here {
            len := |search|;
          } else {
            leading' := false;
          }
        }
      case TallyTrailing(_) =>
    }
  }

  ghost function NoneDone(n: nat): seq<bool> { seq(n, _ => false) }

  /** One turn of the scan loop. */
  method TallyAt(base: array<Byte>, ts: seq<Tallying>, regions: seq<Region>, i: nat,
                 leading: seq<bool>, local: seq<int>, ghost h: seq<Cell>)
    returns (i': nat, leading': seq<bool>, local': seq<int>)
    requires i < base.Length && End(h) == i && |local| == |ts|
    requires TallyRegions(base[..], ts, regions)
    requires FlagsAgree(TallyingRules(base[..], ts), h, leading, NoneDone(|ts|))
    ensures var c := NextCell(base[..], TallyingRules(base[..], ts), h);
      && i' == i + c.len && i' <= base.Length
      && FlagsAgree(TallyingRules(base[..], ts), h + [c], leading', NoneDone(|ts|))
      && local' == Counted(ts, local, c)
  {
    ghost var text, rules, done := base[..], TallyingRules(base[..], ts), NoneDone(|ts|);
    var len := 0;
    leading', local' := leading, local;
    ghost var c := Cell(i, 1, None);
    for p := 0 to |ts|
      invariant FlagsMidway(rules, h, c, leading', done, p)
      invariant CellMidway(text, rules, h, c, len, p)
      invariant local' == if len == 0 then local else Counted(ts, local, c)
    {
      if len == 0 {
        var leadingP;
        len, leadingP := TryTally(base, ts[p], regions[p], i, leading'[p]);
        TallyTurn(text, rules, h, leading', p, len, leadingP);
        if len > 0 {
          c := Cell(i, len, Some(p));
          local' := Bump(ts, local', p);
        }
        leading' := leading'[p := leadingP];
      } else {
        PassedOver(rules, h, c, leading', done, p);
      }
    }
    MidwayEnds(rules, h, c, leading', done);
    i' := if len == 0 then i + 1 else i + len;
  }

  /** One phrase compared while none has matched; no flag of a FIRST phrase is ever set. */
  lemma {:induction false} TallyTurn(text: seq<Byte>, rules: seq<Rule>, h: seq<Cell>, leading: seq<bool>, p: nat, len: nat, leadingP: bool)
    requires p < |rules| && rules[p].mode != FirstOnly && CellMidway(text, rules, h, Cell(End(h), 1, None), 0, p)
    requires FlagsMidway(rules, h, Cell(End(h), 1, None), leading, NoneDone(|rules|), p)
    requires if Matches(text, rules[p], End(h)) && Live(rules[p].mode, leading[p], false)
      then len == MatchLength(rules[p]) > 0 && leadingP == leading[p]
      else len == 0 && leadingP == (leading[p] && !(rules[p].mode == LeadingOnly && InRegion(rules[p], End(h))))
    ensures var c := if len == 0 then Cell(End(h), 1, None) else Cell(End(h), len, Some(p));
      && FlagsMidway(rules, h, c, leading[p := leadingP], NoneDone(|rules|), p + 1)
      && CellMidway(text, rules, h, c, len, p + 1)
  {
    PhraseTurn(text, rules, h, leading, NoneDone(|rules|), p, len, leadingP, false);
    assert NoneDone(|rules|)[p := false] == NoneDone(|rules|);
  }

  /** Everything the scan loop keeps: how far it is, the flags and the local counters. */
  ghost predicate HalfTallied(text: seq<Byte>, ts: seq<Tallying>, counters: map<string, int>, h: seq<Cell>, leading: seq<bool>, local: seq<int>)
    requires forall t :: t in ts ==> t.counter in counters
  {
    && End(h) <= |text|
    && Scan(text, TallyingRules(text, ts), h) == Scan(text, TallyingRules(text, ts), [])
    && FlagsAgree(TallyingRules(text, ts), h, leading, NoneDone(|ts|))
    && CountersAgree(ts, counters, h, local)
  }

  /** The marker loops and the loads before the scan. */
  method LoadCounters(base: array<Byte>, ts: seq<Tallying>, counters: map<string, int>) returns (regions: seq<Region>, local: seq<int>)
    requires forall t :: t in ts ==> t.counter in counters
    ensures TallyRegions(base[..], ts, regions) && CountersAgree(ts, counters, [], local)
  {
    regions, local := [], [];
    for p := 0 to |ts|
      invariant |regions| == p && forall q :: 0 <= q < p ==> regions[q] == RegionOf(base[..], ts[q].markers)
      invariant |local| == p && forall q :: 0 <= q < p ==> local[q] == counters[ts[q].counter]
    {
      var r := FindRegion(base, ts[p].markers);
      regions, local := regions + [r], local + [counters[ts[p].counter]];
    }
  }

  /** INSPECT TALLYING: each counter grows by the number of cells its phrases matched. */
  method TallyingSeries(base: array<Byte>, ts: seq<Tallying>, counters: map<string, int>) returns (counters': map<string, int>)
    requires forall t :: t in ts ==> t.counter in counters
    ensures counters'.Keys == counters.Keys
    ensures forall name :: name in counters ==>
      counters'[name] == counters[name] + Tally(Scan(base[..], TallyingRules(base[..], ts), []), ts, name)
  {
    var regions, local := LoadCounters(base, ts, counters);
    ghost var h: seq<Cell>;
    local, h := TallyingScan(base, ts, regions, counters, local);
    counters' := StoreCounters(ts, counters, local, h);
  }

  /** The scan loop; `cells` is the whole scan. */
  method TallyingScan(base: array<Byte>, ts: seq<Tallying>, regions: seq<Region>, counters: map<string, int>, local: seq<int>)
    returns (local': seq<int>, ghost cells: seq<Cell>)
    requires forall t :: t in ts ==> t.counter in counters
    requires TallyRegions(base[..], ts, regions) && CountersAgree(ts, counters, [], local)
    ensures cells == Scan(base[..], TallyingRules(base[..], ts), []) && CountersAgree(ts, counters, cells, local')
  {
    ghost var text := base[..];
    local' := local;
    var leading := seq(|ts|, _ => true);
    cells := [];
    var i := 0;
    while i < base.Length
      invariant i == End(cells) <= base.Length
      invariant HalfTallied(text, ts, counters, cells, leading, local')
    {
      ghost var c := NextCell(text, TallyingRules(text, ts), cells);
      CountedAgrees(ts, counters, cells, local', c);
      ScanNext(text, TallyingRules(text, ts), cells);
      i, leading, local' := TallyAt(base, ts, regions, i, leading, local', cells);
      cells := cells + [c];
    }
  }

  lemma {:induction false} UncountedNames(cells: seq<Cell>, ts: seq<Tallying>, name: string)
    requires forall p :: 0 <= p < |ts| ==> ts[p].counter != name
    ensures Tally(cells, ts, name) == 0
  {
    if cells != [] { UncountedNames(cells[..|cells|-1], ts, name); }
  }

  /** Some phrase before `p` counts into the counter. */
  ghost predicate CountedInto(ts: seq<Tallying>, p: nat, name: string) {
    exists q :: 0 <= q < p && q < |ts| && ts[q].counter == name
  }

  /** After the stores for the first `p` phrases, the counters those count into have their new values. */
  ghost predicate StoredUpTo(ts: seq<Tallying>, counters: map<string, int>, cells: seq<Cell>, stored: map<string, int>, p: nat) {
    && stored.Keys == counters.Keys
    && forall name :: name in counters ==> StoredAt(ts, counters, cells, stored, p, name)
  }

  ghost predicate StoredAt(ts: seq<Tallying>, counters: map<string, int>, cells: seq<Cell>, stored: map<string, int>, p: nat, name: string)
    requires name in counters && name in stored
  {
    stored[name] == counters[name] + if CountedInto(ts, p, name) then Tally(cells, ts, name) else 0
  }

  lemma {:induction false} StoreNext(ts: seq<Tallying>, counters: map<string, int>, local: seq<int>, cells: seq<Cell>, stored: map<string, int>, p: nat)
    requires forall t :: t in ts ==> t.counter in counters
    requires StoredUpTo(ts, counters, cells, stored, p) && p < |ts|
    requires CountersAgree(ts, counters, cells, local)
    ensures StoredUpTo(ts, counters, cells, if SlotOf(ts, p) == p then stored[ts[p].counter := local[p]] else stored, p + 1)
  {
    var after := if SlotOf(ts, p) == p then stored[ts[p].counter := local[p]] else stored;
    forall name | name in counters ensures StoredAt(ts, counters, cells, after, p + 1, name) {
      assert StoredAt(ts, counters, cells, stored, p, name);
      if name == ts[p].counter {
        assert CountedInto(ts, p + 1, name);
        assert SlotOf(ts, p) < p ==> ts[SlotOf(ts, p)].counter == name;
      } else {
        assert CountedInto(ts, p + 1, name) == CountedInto(ts, p, name);
      }
    }
  }

  lemma {:induction false} AllStored(ts: seq<Tallying>, counters: map<string, int>, cells: seq<Cell>, stored: map<string, int>, name: string)
    requires StoredUpTo(ts, counters, cells, stored, |ts|) && name in counters
    ensures stored[name] == counters[name] + Tally(cells, ts, name)
  {
    assert StoredAt(ts, counters, cells, stored, |ts|, name);
    if !CountedInto(ts, |ts|, name) {
      UncountedNames(cells, ts, name);
    }
  }

  /** The stores after the scan: one for each slot. */
  method StoreCounters(ts: seq<Tallying>, counters: map<string, int>, local: seq<int>, ghost cells: seq<Cell>) returns (counters': map<string, int>)
    requires forall t :: t in ts ==> t.counter in counters
    requires CountersAgree(ts, counters, cells, local)
    ensures counters'.Keys == counters.Keys
    ensures forall name :: name in counters ==> counters'[name] == counters[name] + Tally(cells, ts, name)
  {
    counters' := counters;
    for p := 0 to |ts|
      invariant StoredUpTo(ts, counters, cells, counters', p)
    {
      StoreNext(ts, counters, local, cells, counters', p);
      if SlotOf(ts, p) == p {
        counters' := counters'[ts[p].counter := local[p]];
      }
    }
    forall name | name in counters
      ensures counters'[name] == counters[name] + Tally(cells, ts, name)
    {
      AllStored(ts, counters, cells, counters', name);
    }
  }

  // ----- TRAILING -----

  /** A TRAILING phrase of a series matches nowhere, so it counts nothing. */
  lemma {:induction false} TrailingNeverCounts(text: seq<Byte>, ts: seq<Tallying>, p: nat)
    requires p < |ts| && ts[p].kind.TallyTrailing?
    ensures MatchesOf(Scan(text, TallyingRules(text, ts), []), p) == 0
  {
    var rules := TallyingRules(text, ts);
    ScanIsGreedy(text, rules, []);
    NeverMatches(text, rules, Scan(text, rules, []), p);
  }

  lemma {:induction false} NeverMatches(text: seq<Byte>, rules: seq<Rule>, cells: seq<Cell>, p: nat)
    requires Greedy(text, rules, cells) && p < |rules| && rules[p].mode == Never
    ensures MatchesOf(cells, p) == 0
  {
    if cells != [] {
      var last := |cells| - 1;
      assert GreedyAt(text, rules, cells, last);
      GreedyInit(text, rules, cells, last);
      NeverMatches(text, rules, cells[..last], p);
    }
  }

  /** An item that ends in its search string all the same: the counter stays where it was. */
  lemma {:induction false} TrailingIsMissed(b: Byte, name: string)
    ensures var text, ts := [b], [Tallying(name, TallyTrailing([b]), [])];
      && OccursAt(text, ts[0].kind.search, |text| - |ts[0].kind.search|, |text|)
      && Tally(Scan(text, TallyingRules(text, ts), []), ts, name) == 0
  {
    var text, ts := [b], [Tallying(name, TallyTrailing([b]), [])];
    var cells := Scan(text, TallyingRules(text, ts), []);
    assert text[0..1] == [b];
    TrailingNeverCounts(text, ts, 0);
    TallyIsSumOfMatches(cells, ts, name);
    assert MatchesInto(cells, ts, name, 0) == 0 && MatchesInto(cells, ts, name, 1) == MatchesOf(cells, 0);
  }

  // ----- LEADING after an earlier phrase -----

  lemma {:induction false} AroundTheOther(a: Byte, b: Byte, rules: seq<Rule>)
    requires a != b
    requires rules == [Rule(Every, [a], Region(0, 3)), Rule(LeadingOnly, [b], Region(0, 3))]
    ensures Scan([b, a, b], rules, []) == [Cell(0, 1, Some(1)), Cell(1, 1, Some(0)), Cell(2, 1, Some(1))]
  {
    var text := [b, a, b];
    var first, second := [Cell(0, 1, Some(1))], [Cell(0, 1, Some(1)), Cell(1, 1, Some(0))];
    ByteMatches(text, rules, a, b, []);
    assert first[..0] == [] && Eligible(rules, first, 1);
    ByteMatches(text, rules, a, b, first);
    assert second[..1] == first && Eligible(rules, second, 1);
    ByteMatches(text, rules, a, b, second);
    ScanNext(text, rules, []);
    ScanNext(text, rules, first);
    ScanNext(text, rules, second);
    assert [] + [Cell(0, 1, Some(1))] == first && first + [Cell(1, 1, Some(0))] == second;
    assert second + [Cell(2, 1, Some(1))] == [Cell(0, 1, Some(1)), Cell(1, 1, Some(0)), Cell(2, 1, Some(1))];
  }

  /** The next cell is a match of the phrase whose byte comes next. */
  lemma {:induction false} ByteMatches(text: seq<Byte>, rules: seq<Rule>, a: Byte, b: Byte, h: seq<Cell>)
    requires a != b && rules == [Rule(Every, [a], Region(0, 3)), Rule(LeadingOnly, [b], Region(0, 3))]
    requires |text| == 3 && End(h) < 3 && text[End(h)] in {a, b} && Eligible(rules, h, 1)
    ensures NextCell(text, rules, h) == Cell(End(h), 1, Some(if text[End(h)] == a then 0 else 1))
  {
    var x := End(h);
    assert text[x..x + 1] == [text[x]];
    OthersAlwaysEligible(rules, h, 0);
    assert [a][0] != [b][0];
    assert CanMatch(text, rules, h, 0) <==> text[x] == a;
    assert CanMatch(text, rules, h, 1) <==> text[x] == b;
    assert Winner(text, rules, h, 0) == if text[x] == a then Some(0) else Winner(text, rules, h, 1);
  }

  /** LEADING "B" after ALL "A" counts both letters B of "BAB", of which only the first leads. */
  lemma {:induction false} LeadingGoesOnAfterOthers(a: Byte, b: Byte, all: string, leading: string)
    requires a != b && all != leading
    ensures var text, ts := [b, a, b], [Tallying(all, TallyAll([a]), []), Tallying(leading, TallyLeading([b]), [])];
      Tally(Scan(text, TallyingRules(text, ts), []), ts, leading) == 2
  {
    var text, ts := [b, a, b], [Tallying(all, TallyAll([a]), []), Tallying(leading, TallyLeading([b]), [])];
    var rules := TallyingRules(text, ts);
    assert OfKind([], false) + OfKind([], true) == [];
    assert rules == [Rule(Every, [a], Region(0, 3)), Rule(LeadingOnly, [b], Region(0, 3))];
    AroundTheOther(a, b, rules);
    CountsBoth(ts, leading);
  }

  lemma {:induction false} TallySnoc(cells: seq<Cell>, c: Cell, ts: seq<Tallying>, name: string)
    ensures Tally(cells + [c], ts, name) ==
      Tally(cells, ts, name) + if c.rule.Some? && c.rule.value < |ts| && ts[c.rule.value].counter == name then 1 else 0
  {
    assert (cells + [c])[..|cells|] == cells;
  }

  lemma {:induction false} CountsBoth(ts: seq<Tallying>, name: string)
    requires |ts| == 2 && ts[0].counter != name && ts[1].counter == name
    ensures Tally([Cell(0, 1, Some(1)), Cell(1, 1, Some(0)), Cell(2, 1, Some(1))], ts, name) == 2
  {
    var first, second := [] + [Cell(0, 1, Some(1))], [Cell(0, 1, Some(1))] + [Cell(1, 1, Some(0))];
    TallySnoc([], Cell(0, 1, Some(1)), ts, name);
    TallySnoc([Cell(0, 1, Some(1))], Cell(1, 1, Some(0)), ts, name);
    TallySnoc(second, Cell(2, 1, Some(1)), ts, name);
    assert first == [Cell(0, 1, Some(1))];
    assert second + [Cell(2, 1, Some(1))] == [Cell(0, 1, Some(1)), Cell(1, 1, Some(0)), Cell(2, 1, Some(1))];
  }

  // ----- Tallying and replacing side by side -----

  /** The two phrases match in the same places. */
  predicate SamePhrase(t: Tallying, r: Replacing) {
    t.markers == r.markers &&
    match r.kind
    case ReplaceCharacters(to) => t.kind == TallyCharacters && to != []
    case ReplaceAll(from, _) => t.kind == TallyAll(from)
    case ReplaceLeading(from, _) => t.kind == TallyLeading(from)
    case ReplaceFirst(_, _) => false
  }

  /**
    Over the same bytes and the same phrases, tallying counts exactly the cells that replacing
    rewrites: the counters sum the rewritten cells, whose lengths and the untouched bytes make up
    the item, and every byte outside a match is as it was.
  */
  lemma {:induction false} TallyingSeesWhatReplacingRewrites(text: seq<Byte>, ts: seq<Tallying>, rs: seq<Replacing>)
    requires |ts| == |rs| && forall p :: 0 <= p < |ts| ==> SamePhrase(ts[p], rs[p])
    ensures var cells := Scan(text, TallyingRules(text, ts), []);
      && cells == Scan(text, ReplacingRules(text, rs), [])
      && MatchedBytes(cells) + Unmatched(cells) == |text| == |Replaced(text, rs)|
      && (forall name :: Tally(cells, ts, name) == MatchesInto(cells, ts, name, |ts|))
      && (forall x: nat :: x < |text| && !InMatch(cells, x) ==> Replaced(text, rs)[x] == text[x])
  {
    var tallied, replaced := TallyingRules(text, ts), ReplacingRules(text, rs);
    forall p | 0 <= p < |ts| ensures tallied[p] == replaced[p] {
      assert SamePhrase(ts[p], rs[p]);
    }
    assert tallied == replaced;
    var cells := Scan(text, tallied, []);
    ScanIsGreedy(text, tallied, []);
    BytesAreConserved(text, tallied, cells);
    RewrittenLength(text, tallied, Replacements(rs), cells);
    forall name ensures Tally(cells, ts, name) == MatchesInto(cells, ts, name, |ts|) {
      TallyIsSumOfMatches(cells, ts, name);
    }
    forall x: nat | x < |text| && !InMatch(cells, x) ensures Replaced(text, rs)[x] == text[x] {
      UntouchedByte(text, rs, x);
    }
  }

  /** Some phrase's match covers position `x`. */
  ghost predicate InMatch(cells: seq<Cell>, x: nat) {
    exists c :: c in cells && c.rule.Some? && c.pos <= x < c.pos + c.len
  }

  lemma {:induction false} UntouchedByte(text: seq<Byte>, rs: seq<Replacing>, x: nat)
    requires x < |text| && !InMatch(Scan(text, ReplacingRules(text, rs), []), x)
    ensures |Replaced(text, rs)| == |text| && Replaced(text, rs)[x] == text[x]
  {
    var c := ReplacedAt(text, rs, x);
  }

  /**
    What REPLACING leaves at one position: the one greedy cell of the original bytes that covers
    it decides, so no replaced byte is looked at again and bytes no phrase matched stay.
  */
  lemma {:induction false} ReplacedAt(text: seq<Byte>, rs: seq<Replacing>, x: nat) returns (c: Cell)
    requires x < |text|
    ensures |Replaced(text, rs)| == |text|
    ensures c in Scan(text, ReplacingRules(text, rs), [])
    ensures c.pos <= x < c.pos + c.len <= |text|
    ensures Replaced(text, rs)[x] == ByteAfter(text, Replacements(rs), c, x - c.pos)
  {
    c := ScannedAt(text, ReplacingRules(text, rs), Replacements(rs), x);
  }

  lemma {:induction false} ScannedAt(text: seq<Byte>, rules: seq<Rule>, tos: seq<seq<Byte>>, x: nat) returns (c: Cell)
    requires x < |text|
    ensures |Rewritten(text, tos, Scan(text, rules, []))| == |text|
    ensures c in Scan(text, rules, [])
    ensures c.pos <= x < c.pos + c.len <= |text|
    ensures Rewritten(text, tos, Scan(text, rules, []))[x] == ByteAfter(text, tos, c, x - c.pos)
  {
    var cells := Scan(text, rules, []);
    ScanIsGreedy(text, rules, []);
    RewrittenLength(text, rules, tos, cells);
    var k := RewrittenByte(text, rules, tos, cells, x);
    c := cells[k];
  }
}
