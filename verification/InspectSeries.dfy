/**
  The C emitted for the marker loops of an INSPECT series and for its REPLACING phrases, as methods
  over the inspected bytes: the scan rewrites the item in place against a saved original.
*/
module InspectSeries {
  import opened Options
  import opened InspectScan

  // ----- Marker loops -----

  /** The search loop for one marker; `end` stands for "not found". */
  method Search(data: array<Byte>, m: seq<Byte>, start: nat, end: nat) returns (found: nat)
    requires start <= end <= data.Length && 0 < |m| <= end - start
    ensures found == FindMarker(data[..], m, start, end)
  {
    found := end;
    var i := start;
    while i + |m| <= end
      invariant start <= i && found == end
      invariant i <= end && FindMarker(data[..], m, i, end) == FindMarker(data[..], m, start, end)
    {
      if data[i..i+|m|] == m {
        assert data[..][i..i+|m|] == data[i..i+|m|];
        found := i;
        break;
      }
      assert data[..][i..i+|m|] == data[i..i+|m|];
      i := i + 1;
    }
  }

  /** One marker loop: the phrase's start or end variable moves, or neither. */
  method NarrowBy(data: array<Byte>, m: Marker, r: Region) returns (r': Region)
    requires r.start <= r.end <= data.Length
    ensures r' == Narrow(data[..], r, m)
  {
    var start, end := r.start, r.end;
    if |m.value| == 0 || |m.value| > end - start {
      if !m.isBefore { start := end; }
    } else {
      var found := Search(data, m.value, start, end);
      if found == end {
        if !m.isBefore { start := end; }
      } else if m.isBefore {
        end := found;
      } else {
        start := found + |m.value|;
      }
    }
    r' := Region(start, end);
  }

  lemma {:induction false} NarrowNext(text: seq<Byte>, r: Region, ms: seq<Marker>, k: nat)
    requires r.start <= r.end <= |text| && k < |ms|
    ensures NarrowAll(text, r, ms[k..]) == NarrowAll(text, Narrow(text, r, ms[k]), ms[k+1..])
  {
    assert ms[k..][1..] == ms[k+1..];
  }

  /** The start and end variables of one phrase after all its marker loops. */
  method FindRegion(data: array<Byte>, markers: seq<Marker>) returns (r: Region)
    ensures r == RegionOf(data[..], markers)
  {
    r := Region(0, data.Length);
    var ordered := OfKind(markers, false) + OfKind(markers, true);
    ghost var text := data[..];
    assert ordered[0..] == ordered;
    for k := 0 to |ordered|
      invariant r.start <= r.end <= data.Length
      invariant NarrowAll(text, r, ordered[k..]) == RegionOf(text, markers)
    {
      NarrowNext(text, r, ordered, k);
      r := NarrowBy(data, ordered[k], r);
    }
  }

  // ----- REPLACING -----

  datatype ReplacingKind =
    | ReplaceCharacters(to: seq<Byte>)
    | ReplaceAll(from: seq<Byte>, to: seq<Byte>)
    | ReplaceLeading(from: seq<Byte>, to: seq<Byte>)
    | ReplaceFirst(from: seq<Byte>, to: seq<Byte>)

  datatype Replacing = Replacing(kind: ReplacingKind, markers: seq<Marker>)

  /** CHARACTERS BY an empty operand never matches; the other kinds match their search string. */
  function ReplacingRule(text: seq<Byte>, r: Replacing): Rule {
    var region := RegionOf(text, r.markers);
    match r.kind
    case ReplaceCharacters(to) => Rule(if to == [] then Never else AnyByte, [], region)
    case ReplaceAll(from, _) => Rule(Every, from, region)
    case ReplaceLeading(from, _) => Rule(LeadingOnly, from, region)
    case ReplaceFirst(from, _) => Rule(FirstOnly, from, region)
  }

  function ReplacingRules(text: seq<Byte>, rs: seq<Replacing>): (rules: seq<Rule>)
    ensures |rules| == |rs|
    ensures forall p :: 0 <= p < |rs| ==> rules[p] == ReplacingRule(text, rs[p])
  {
    seq(|rs|, p requires 0 <= p < |rs| => ReplacingRule(text, rs[p]))
  }

  function Replacements(rs: seq<Replacing>): (tos: seq<seq<Byte>>)
    ensures |tos| == |rs|
    ensures forall p :: 0 <= p < |rs| ==> tos[p] == rs[p].kind.to
  {
    seq(|rs|, p requires 0 <= p < |rs| => rs[p].kind.to)
  }

  /** What INSPECT REPLACING leaves of a text: the scan's cells, each with its replacement laid over. */
  function Replaced(text: seq<Byte>, rs: seq<Replacing>): seq<Byte> {
    Rewritten(text, Replacements(rs), Scan(text, ReplacingRules(text, rs), []))
  }

  /** `memcpy` of the first `len` bytes of `to`. */
  method CopyInto(base: array<Byte>, at: nat, to: seq<Byte>, len: nat)
    requires len <= |to| && at + len <= base.Length
    modifies base
    ensures base[..] == old(base[..at]) + to[..len] + old(base[at + len..])
  {
    forall i | at <= i < at + len {
      base[i] := to[i - at];
    }
  }

  /** The flag variables of the phrases agree with eligibility after the history `h`. */
  ghost predicate FlagAgrees(rules: seq<Rule>, h: seq<Cell>, leading: seq<bool>, done: seq<bool>, q: nat)
    requires q < |rules| == |leading| == |done|
  {
    && (rules[q].mode == LeadingOnly ==> leading[q] == Eligible(rules, h, q))
    && (rules[q].mode == FirstOnly ==> done[q] == !Eligible(rules, h, q))
  }

  ghost predicate FlagsAgree(rules: seq<Rule>, h: seq<Cell>, leading: seq<bool>, done: seq<bool>) {
    |rules| == |leading| == |done| && forall q: nat :: q < |rules| ==> FlagAgrees(rules, h, leading, done, q)
  }

  lemma {:induction false} EligibleNext(rules: seq<Rule>, h: seq<Cell>, c: Cell, q: nat)
    requires q < |rules|
    ensures Eligible(rules, h + [c], q) <==> Eligible(rules, h, q) && StillEligible(rules, c, q)
  {
    assert (h + [c])[..|h|] == h;
  }

  /** Whether the flag of a phrase lets it be compared. */
  predicate Live(mode: Mode, leading: bool, done: bool) {
    match mode
    case LeadingOnly => leading
    case FirstOnly => !done
    case _ => true
  }

  /** `text` with the bytes from `at` on overlaid by the first `len` bytes of `to`, as far as it reaches. */
  function OverlaidAt(text: seq<Byte>, at: nat, to: seq<Byte>, len: nat): seq<Byte>
    requires at + len <= |text|
  {
    text[..at] + Overlay(to, text[at..at + len]) + text[at + len..]
  }

  lemma {:induction false} CopyIsOverlay(text: seq<Byte>, at: nat, to: seq<Byte>, len: nat, copied: nat)
    requires at + len <= |text| && copied == if len < |to| then len else |to|
    ensures text[..at] + to[..copied] + text[at + copied..] == OverlaidAt(text, at, to, len)
  {
    assert text[at + copied..] == text[at + copied..at + len] + text[at + len..];
    assert text[at..at + len][copied..] == text[at + copied..at + len];
  }

  /** The copy made on a match: the shorter of the two operands decides how many bytes. */
  method ReplaceMatch(base: array<Byte>, at: nat, to: seq<Byte>, searchLength: nat)
    requires at + searchLength <= base.Length
    modifies base
    ensures base[..] == OverlaidAt(old(base[..]), at, to, searchLength)
  {
    var copyLength := if searchLength < |to| then searchLength else |to|;
    CopyIsOverlay(base[..], at, to, searchLength, copyLength);
    CopyInto(base, at, to, copyLength);
  }

  /** The `if` of one phrase at position `i`; `len` is 0 when it does not match. */
  method TryReplace(base: array<Byte>, orig: array<Byte>, r: Replacing, region: Region, i: nat, leading: bool, done: bool)
    returns (len: nat, leading': bool, done': bool)
    requires base != orig && base.Length == orig.Length && i < base.Length
    requires region == RegionOf(orig[..], r.markers)
    modifies base
    ensures var rule := ReplacingRule(orig[..], r);
      if Matches(orig[..], rule, i) && Live(rule.mode, leading, done)
      then
        && len == MatchLength(rule) && i + len <= base.Length
        && base[..] == OverlaidAt(old(base[..]), i, r.kind.to, len)
        && leading' == leading && done' == (done || rule.mode == FirstOnly)
      else
        && len == 0 && base[..] == old(base[..])
        && done' == done && leading' == (leading && !(rule.mode == LeadingOnly && InRegion(rule, i)))
  {
    len, leading', done' := 0, leading, done;
    if region.start <= i < region.end {
      match r.kind
      case ReplaceCharacters(to) =>
        if |to| > 0 {
          ReplaceMatch(base, i, to, 1);
          len := 1;
        }
      case ReplaceAll(from, to) =>
        var here := Compare(orig, from, i, region.end);
        if here {
          ReplaceMatch(base, i, to, |from|);
          len := |from|;
        }
      case ReplaceLeading(from, to) =>
        if leading {
          var here := Compare(orig, from, i, region.end);
          if here {
            ReplaceMatch(base, i, to, |from|);
            len := |from|;
          } else {
            leading' := false;
          }
        }
      case ReplaceFirst(from, to) =>
        if !done {
          var here := Compare(orig, from, i, region.end);
          if here {
            ReplaceMatch(base, i, to, |from|);
            done' := true;
            len := |from|;
          }
        }
    }
  }

  /** The comparison shared by ALL, LEADING and FIRST. */
  method Compare(data: array<Byte>, search: seq<Byte>, i: nat, end: nat) returns (here: bool)
    requires end <= data.Length
    ensures here <==> search != [] && OccursAt(data[..], search, i, end)
  {
    if |search| > 0 && i + |search| <= end {
      assert data[..][i..i+|search|] == data[i..i+|search|];
      here := data[i..i+|search|] == search;
    } else {
      here := false;
    }
  }

  /** Part-way through the phrases of a position: those before `p` have taken the cell `c` into account. */
  ghost predicate FlagsMidway(rules: seq<Rule>, h: seq<Cell>, c: Cell, leading: seq<bool>, done: seq<bool>, p: nat) {
    && |rules| == |leading| == |done|
    && (forall q: nat :: q < p && q < |rules| ==> FlagAgrees(rules, h + [c], leading, done, q))
    && (forall q: nat :: p <= q < |rules| ==> FlagAgrees(rules, h, leading, done, q))
  }

  /** A phrase that was passed over, because an earlier one matched, keeps its flags. */
  lemma {:induction false} PassedOver(rules: seq<Rule>, h: seq<Cell>, c: Cell, leading: seq<bool>, done: seq<bool>, p: nat)
    requires FlagsMidway(rules, h, c, leading, done, p) && p < |rules|
    requires c.rule.Some? && c.rule.value < p
    ensures FlagsMidway(rules, h, c, leading, done, p + 1)
  {
    assert FlagAgrees(rules, h, leading, done, p);
    EligibleNext(rules, h, c, p);
  }

  /** A phrase compared without success, or outside its region, or no longer live. */
  lemma {:induction false} NotMatched(rules: seq<Rule>, h: seq<Cell>, leading: seq<bool>, done: seq<bool>, p: nat, leading': seq<bool>)
    requires p < |rules| && FlagsMidway(rules, h, Cell(End(h), 1, None), leading, done, p)
    requires leading' == leading[p := leading[p] && !(rules[p].mode == LeadingOnly && InRegion(rules[p], End(h)))]
    ensures FlagsMidway(rules, h, Cell(End(h), 1, None), leading', done, p + 1)
  {
    var c := Cell(End(h), 1, None);
    forall q: nat | q < p ensures FlagAgrees(rules, h + [c], leading', done, q) {
      assert FlagAgrees(rules, h + [c], leading, done, q);
    }
    assert FlagAgrees(rules, h, leading, done, p);
    EligibleNext(rules, h, c, p);
    forall q: nat | p < q < |rules| ensures FlagAgrees(rules, h, leading', done, q) {
      assert FlagAgrees(rules, h, leading, done, q);
    }
  }

  /** The phrase that matches: earlier ones have failed here, FIRST is now done. */
  lemma {:induction false} Matched(rules: seq<Rule>, h: seq<Cell>, leading: seq<bool>, done: seq<bool>, p: nat, len: nat, done': seq<bool>)
    requires p < |rules| && FlagsMidway(rules, h, Cell(End(h), 1, None), leading, done, p)
    requires Eligible(rules, h, p)
    requires done' == done[p := done[p] || rules[p].mode == FirstOnly]
    ensures FlagsMidway(rules, h, Cell(End(h), len, Some(p)), leading, done', p + 1)
  {
    var g := h + [Cell(End(h), len, Some(p))];
    forall q: nat | q < p ensures FlagAgrees(rules, g, leading, done', q) {
      FailedBeforeMatch(rules, h, leading, done, p, len, q);
    }
    MatchedFlag(rules, h, leading, done, p, len, done');
    forall q: nat | p < q < |rules| ensures FlagAgrees(rules, h, leading, done', q) {
      assert FlagAgrees(rules, h, leading, done, q);
    }
  }

  lemma {:induction false} MatchedFlag(rules: seq<Rule>, h: seq<Cell>, leading: seq<bool>, done: seq<bool>, p: nat, len: nat, done': seq<bool>)
    requires p < |rules| == |leading| == |done| && FlagAgrees(rules, h, leading, done, p) && Eligible(rules, h, p)
    requires done' == done[p := done[p] || rules[p].mode == FirstOnly]
    ensures FlagAgrees(rules, h + [Cell(End(h), len, Some(p))], leading, done', p)
  {
    EligibleNext(rules, h, Cell(End(h), len, Some(p)), p);
  }

  lemma {:induction false} FailedBeforeMatch(rules: seq<Rule>, h: seq<Cell>, leading: seq<bool>, done: seq<bool>, p: nat, len: nat, q: nat)
    requires q < p < |rules| && FlagsMidway(rules, h, Cell(End(h), 1, None), leading, done, p)
    ensures FlagAgrees(rules, h + [Cell(End(h), len, Some(p))], leading, done, q)
  {
    assert FlagAgrees(rules, h + [Cell(End(h), 1, None)], leading, done, q);
    EligibleNext(rules, h, Cell(End(h), 1, None), q);
    EligibleNext(rules, h, Cell(End(h), len, Some(p)), q);
  }

  lemma {:induction false} MidwayEnds(rules: seq<Rule>, h: seq<Cell>, c: Cell, leading: seq<bool>, done: seq<bool>)
    requires FlagsMidway(rules, h, c, leading, done, |rules|)
    ensures FlagsAgree(rules, h + [c], leading, done)
  {
  }

  lemma {:induction false} LiveIsEligible(rules: seq<Rule>, h: seq<Cell>, leading: seq<bool>, done: seq<bool>, p: nat)
    requires p < |rules| == |leading| == |done| && FlagAgrees(rules, h, leading, done, p)
    requires rules[p].mode == LeadingOnly || rules[p].mode == FirstOnly || Eligible(rules, h, p)
    ensures Live(rules[p].mode, leading[p], done[p]) <==> Eligible(rules, h, p)
  {
  }

  lemma {:induction false} OthersAlwaysEligible(rules: seq<Rule>, h: seq<Cell>, p: nat)
    requires p < |rules| && rules[p].mode != LeadingOnly && rules[p].mode != FirstOnly
    ensures Eligible(rules, h, p)
  {
    if h != [] { OthersAlwaysEligible(rules, h[..|h|-1], p); }
  }

  ghost predicate RegionsOf(text: seq<Byte>, rs: seq<Replacing>, regions: seq<Region>) {
    |regions| == |rs| && forall p :: 0 <= p < |rs| ==> regions[p] == RegionOf(text, rs[p].markers)
  }

  /** The bytes after the phrases of one position have been tried. */
  function AfterCell(text: seq<Byte>, tos: seq<seq<Byte>>, c: Cell): seq<Byte>
    requires c.pos + c.len <= |text|
  {
    if c.rule.Some? && c.rule.value < |tos| then OverlaidAt(text, c.pos, tos[c.rule.value], c.len) else text
  }

  /** One turn of the scan loop. */
  method ReplaceAt(base: array<Byte>, orig: array<Byte>, rs: seq<Replacing>, regions: seq<Region>, i: nat,
                   leading: seq<bool>, done: seq<bool>, ghost h: seq<Cell>)
    returns (i': nat, leading': seq<bool>, done': seq<bool>)
    requires base != orig && base.Length == orig.Length && i < base.Length && End(h) == i
    requires RegionsOf(orig[..], rs, regions)
    requires FlagsAgree(ReplacingRules(orig[..], rs), h, leading, done)
    modifies base
    ensures orig[..] == old(orig[..])
    ensures var c := NextCell(orig[..], ReplacingRules(orig[..], rs), h);
      && i' == i + c.len && i' <= base.Length
      && FlagsAgree(ReplacingRules(orig[..], rs), h + [c], leading', done')
      && base[..] == AfterCell(old(base[..]), Replacements(rs), c)
  {
    ghost var text, rules := orig[..], ReplacingRules(orig[..], rs);
    var len := 0;
    leading', done' := leading, done;
    ghost var c := Cell(i, 1, None);
    for p := 0 to |rs|
      invariant orig[..] == text && FlagsMidway(rules, h, c, leading', done', p)
      invariant CellMidway(text, rules, h, c, len, p) && i + len <= base.Length
      invariant base[..] == AfterCell(old(base[..]), Replacements(rs), c)
    {
      if len == 0 {
        var leadingP, doneP;
        len, leadingP, doneP := TryReplace(base, orig, rs[p], regions[p], i, leading'[p], done'[p]);
        PhraseTurn(text, rules, h, leading', done', p, len, leadingP, doneP);
        if len > 0 { c := Cell(i, len, Some(p)); }
        leading', done' := leading'[p := leadingP], done'[p := doneP];
      } else {
        PassedOver(rules, h, c, leading', done', p);
      }
    }
    MidwayEnds(rules, h, c, leading', done');
    i' := if len == 0 then i + 1 else i + len;
  }

  /** Part-way through the phrases of a position: the cell found, or none by a phrase before `p`. */
  ghost predicate CellMidway(text: seq<Byte>, rules: seq<Rule>, h: seq<Cell>, c: Cell, len: nat, p: nat)
    requires p <= |rules|
  {
    if len == 0 then c == Cell(End(h), 1, None) && Winner(text, rules, h, 0) == Winner(text, rules, h, p)
    else c == NextCell(text, rules, h) && c.len == len && c.rule.Some? && c.rule.value < p
  }

  /** One phrase compared while none has matched. */
  lemma {:induction false} PhraseTurn(text: seq<Byte>, rules: seq<Rule>, h: seq<Cell>, leading: seq<bool>, done: seq<bool>,
                                      p: nat, len: nat, leadingP: bool, doneP: bool)
    requires p < |rules| && CellMidway(text, rules, h, Cell(End(h), 1, None), 0, p)
    requires FlagsMidway(rules, h, Cell(End(h), 1, None), leading, done, p)
    requires if Matches(text, rules[p], End(h)) && Live(rules[p].mode, leading[p], done[p])
      then len == MatchLength(rules[p]) > 0 && leadingP == leading[p] && doneP == (done[p] || rules[p].mode == FirstOnly)
      else len == 0 && doneP == done[p] && leadingP == (leading[p] && !(rules[p].mode == LeadingOnly && InRegion(rules[p], End(h))))
    ensures var c := if len == 0 then Cell(End(h), 1, None) else Cell(End(h), len, Some(p));
      && FlagsMidway(rules, h, c, leading[p := leadingP], done[p := doneP], p + 1)
      && CellMidway(text, rules, h, c, len, p + 1)
  {
    if rules[p].mode != LeadingOnly && rules[p].mode != FirstOnly { OthersAlwaysEligible(rules, h, p); }
    LiveIsEligible(rules, h, leading, done, p);
    if len == 0 {
      NotMatched(rules, h, leading, done, p, leading[p := leadingP]);
      assert done[p := doneP] == done;
    } else {
      Matched(rules, h, leading, done, p, len, done[p := doneP]);
      assert leading[p := leadingP] == leading;
    }
  }

  /** The regions of all phrases, found in the saved original. */
  method FindRegions(data: array<Byte>, rs: seq<Replacing>) returns (regions: seq<Region>)
    ensures RegionsOf(data[..], rs, regions)
  {
    regions := [];
    for p := 0 to |rs|
      invariant |regions| == p && forall q :: 0 <= q < p ==> regions[q] == RegionOf(data[..], rs[q].markers)
    {
      var r := FindRegion(data, rs[p].markers);
      regions := regions + [r];
    }
  }

  /** Overlaying the next cell on a half-scanned item extends its rewritten front. */
  lemma {:induction false} CellOverMid(text: seq<Byte>, tos: seq<seq<Byte>>, before: seq<Byte>, c: Cell)
    requires |before| == c.pos && c.pos + c.len <= |text|
    ensures AfterCell(before + text[c.pos..], tos, c) == before + CellBytes(text, tos, c) + text[c.pos + c.len..]
  {
    var mid := before + text[c.pos..];
    assert mid[..c.pos] == before;
    assert mid[c.pos..c.pos + c.len] == text[c.pos..c.pos + c.len];
    assert mid[c.pos + c.len..] == text[c.pos + c.len..];
    assert mid == before + text[c.pos..c.pos + c.len] + text[c.pos + c.len..];
  }

  lemma {:induction false} GreedyNext(text: seq<Byte>, rules: seq<Rule>, h: seq<Cell>)
    requires Greedy(text, rules, h) && End(h) < |text|
    ensures Greedy(text, rules, h + [NextCell(text, rules, h)])
  {
    var c := NextCell(text, rules, h);
    assert (h + [c])[..|h|] == h;
    GreedyExtends(text, rules, h, c);
  }

  lemma {:induction false} RewrittenAppend(text: seq<Byte>, tos: seq<seq<Byte>>, h: seq<Cell>, c: Cell)
    ensures Rewritten(text, tos, h + [c]) == Rewritten(text, tos, h) + CellBytes(text, tos, c)
    ensures End(h + [c]) == c.pos + c.len
  {
    assert (h + [c])[..|h|] == h;
  }

  ghost predicate HalfScanned(text: seq<Byte>, rules: seq<Rule>, h: seq<Cell>) {
    Greedy(text, rules, h) && End(h) <= |text| && Scan(text, rules, h) == Scan(text, rules, [])
  }

  /** The front is rewritten along the history, the rest is as it was. */
  ghost predicate HalfWritten(text: seq<Byte>, tos: seq<seq<Byte>>, now: seq<Byte>, h: seq<Cell>) {
    var front := Rewritten(text, tos, h);
    End(h) <= |text| && |front| == End(h) && now == front + text[End(h)..]
  }

  /** Half-way through the scan. */
  ghost predicate HalfRewritten(text: seq<Byte>, rules: seq<Rule>, tos: seq<seq<Byte>>, now: seq<Byte>, h: seq<Cell>) {
    HalfScanned(text, rules, h) && HalfWritten(text, tos, now, h)
  }

  lemma {:induction false} NothingRewritten(text: seq<Byte>, rules: seq<Rule>, tos: seq<seq<Byte>>)
    ensures HalfRewritten(text, rules, tos, text, [])
  {
    assert Rewritten(text, tos, []) + text[0..] == text;
  }

  lemma {:induction false} AllRewritten(text: seq<Byte>, rules: seq<Rule>, tos: seq<seq<Byte>>, now: seq<Byte>, h: seq<Cell>)
    requires HalfRewritten(text, rules, tos, now, h) && End(h) == |text|
    ensures now == Rewritten(text, tos, Scan(text, rules, []))
  {
    assert now == Rewritten(text, tos, h);
  }

  lemma {:induction false} ScannedNext(text: seq<Byte>, rules: seq<Rule>, h: seq<Cell>, g: seq<Cell>)
    requires HalfScanned(text, rules, h) && End(h) < |text| && g == h + [NextCell(text, rules, h)]
    ensures HalfScanned(text, rules, g)
  {
    GreedyNext(text, rules, h);
    ScanNext(text, rules, h);
  }

  lemma {:induction false} WrittenNext(text: seq<Byte>, tos: seq<seq<Byte>>, now: seq<Byte>, h: seq<Cell>, c: Cell, g: seq<Cell>)
    requires HalfWritten(text, tos, now, h) && c.pos == End(h) && c.pos + c.len <= |text| && g == h + [c]
    ensures c.pos + c.len <= |now| && HalfWritten(text, tos, AfterCell(now, tos, c), g)
  {
    CellOverMid(text, tos, Rewritten(text, tos, h), c);
    RewrittenAppend(text, tos, h, c);
  }

  lemma {:induction false} RewriteNext(text: seq<Byte>, rules: seq<Rule>, tos: seq<seq<Byte>>, now: seq<Byte>, h: seq<Cell>)
    requires HalfRewritten(text, rules, tos, now, h) && End(h) < |text|
    ensures var c := NextCell(text, rules, h);
      c.pos + c.len <= |now| && HalfRewritten(text, rules, tos, AfterCell(now, tos, c), h + [c])
  {
    var c := NextCell(text, rules, h);
    ScannedNext(text, rules, h, h + [c]);
    WrittenNext(text, tos, now, h, c, h + [c]);
  }

  /** The scan loop. */
  method ReplacingScan(base: array<Byte>, orig: array<Byte>, rs: seq<Replacing>, regions: seq<Region>)
    requires base != orig && base[..] == orig[..]
    requires RegionsOf(orig[..], rs, regions)
    modifies base
    ensures base[..] == Replaced(orig[..], rs)
  {
    ghost var text, rules, tos := orig[..], ReplacingRules(orig[..], rs), Replacements(rs);
    var leading, done := seq(|rs|, _ => true), seq(|rs|, _ => false);
    ghost var h: seq<Cell> := [];
    NothingRewritten(text, rules, tos);
    assert base.Length == |base[..]| == orig.Length;
    var i := 0;
    while i < base.Length
      invariant orig[..] == text && i == End(h) <= base.Length
      invariant HalfRewritten(text, rules, tos, base[..], h)
      invariant FlagsAgree(rules, h, leading, done)
    {
      RewriteNext(text, rules, tos, base[..], h);
      ghost var c := NextCell(text, rules, h);
      i, leading, done := ReplaceAt(base, orig, rs, regions, i, leading, done, h);
      h := h + [c];
    }
    AllRewritten(text, rules, tos, base[..], h);
  }

  /** INSPECT REPLACING: the item becomes the rewriting of its original bytes along the scan. */
  method ReplacingSeries(base: array<Byte>, rs: seq<Replacing>)
    modifies base
    ensures base[..] == Replaced(old(base[..]), rs)
  {
    ghost var text := base[..];
    if rs == [] {
      NoPhrasesNoChange(text);
      return;
    }
    var orig := new Byte[base.Length];
    forall k | 0 <= k < base.Length { orig[k] := base[k]; }
    assert orig[..] == text;
    var regions := FindRegions(orig, rs);
    ReplacingScan(base, orig, rs, regions);
  }

  /** Without phrases the scan matches nothing. */
  lemma {:induction false} NoPhrasesNoChange(text: seq<Byte>)
    ensures Replaced(text, []) == text
  {
    var cells := Scan(text, [], []);
    ScanIsGreedy(text, [], []);
    RewrittenLength(text, [], [], cells);
    var after := Rewritten(text, [], cells);
    forall x | 0 <= x < |text| ensures after[x] == text[x] {
      var k := CellOf(text, [], cells, x);
      RewrittenAt(text, [], [], cells, k, x - cells[k].pos);
    }
    assert after == text;
  }
}
