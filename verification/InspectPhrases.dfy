/**
  What the phrases of an INSPECT series do, said of their kinds and of the bytes alone: which phrase
  takes each place of the scan, and what a single phrase leaves of the item or counts in it.
*/
module InspectPhrases {
  import opened Options
  import opened InspectScan
  import opened InspectSeries
  import opened InspectTally

  // ----- REPLACING: which phrase takes a place -----

  /** The scan of a REPLACING series. */
  function ReplacingCells(text: seq<Byte>, rs: seq<Replacing>): seq<Cell> {
    Scan(text, ReplacingRules(text, rs), [])
  }

  /** The search string stands at `x`, not empty, within the bytes before `end`. */
  predicate Stands(text: seq<Byte>, s: seq<Byte>, x: nat, end: nat) {
    s != [] && x + |s| <= end <= |text| && text[x..x + |s|] == s
  }

  /** The scan reached the cell with phrase `p` still to be looked at: in its region, no earlier phrase having taken it. */
  predicate LookedAt(region: Region, c: Cell, p: nat) {
    region.start <= c.pos < region.end && (c.rule.Some? ==> p <= c.rule.value)
  }

  /** Phrase `p` may take cell `k`, going by its kind, the bytes and the cells before. */
  predicate MayReplace(text: seq<Byte>, rs: seq<Replacing>, cells: seq<Cell>, k: nat, p: nat)
    requires k < |cells| && p < |rs|
  {
    var x, r := cells[k].pos, RegionOf(text, rs[p].markers);
    r.start <= x < r.end &&
    match rs[p].kind
    case ReplaceCharacters(to) => to != []
    case ReplaceAll(from, _) => Stands(text, from, x, r.end)
    case ReplaceLeading(from, _) =>
      Stands(text, from, x, r.end) && forall j :: 0 <= j < k && LookedAt(r, cells[j], p) ==> cells[j].rule == Some(p)
    case ReplaceFirst(from, _) =>
      Stands(text, from, x, r.end) && forall j :: 0 <= j < k ==> cells[j].rule != Some(p)
  }

  /** How many bytes a phrase takes. */
  function TakenBytes(kind: ReplacingKind): nat {
    match kind
    case ReplaceCharacters(_) => 1
    case ReplaceAll(from, _) => |from|
    case ReplaceLeading(from, _) => |from|
    case ReplaceFirst(from, _) => |from|
  }

  lemma {:induction false} MayReplaceIsCanMatch(text: seq<Byte>, rs: seq<Replacing>, cells: seq<Cell>, k: nat, p: nat)
    requires k < |cells| && p < |rs| && cells[k].pos == End(cells[..k])
    ensures MayReplace(text, rs, cells, k, p) <==> CanMatch(text, ReplacingRules(text, rs), cells[..k], p)
  {
    var rules := ReplacingRules(text, rs);
    EligibleMeans(rules, cells[..k], p);
    assert rules[p] == ReplacingRule(text, rs[p]);
    assert forall j :: 0 <= j < k ==> cells[..k][j] == cells[j];
    assert forall j :: 0 <= j < k ==> (LookedAt(rules[p].region, cells[j], p) <==> Tried(rules, cells[j], p));
    EveryStillEligible(rules, cells, k, p);
  }

  lemma {:induction false} EveryStillEligible(rules: seq<Rule>, cells: seq<Cell>, k: nat, p: nat)
    requires k <= |cells| && p < |rules|
    ensures (forall j :: 0 <= j < k ==> StillEligible(rules, cells[..k][j], p)) <==>
      match rules[p].mode
      case LeadingOnly => forall j :: 0 <= j < k && Tried(rules, cells[j], p) ==> cells[j].rule == Some(p)
      case FirstOnly => forall j :: 0 <= j < k ==> cells[j].rule != Some(p)
      case _ => true
  {
    assert forall j :: 0 <= j < k ==> cells[..k][j] == cells[j];
    if rules[p].mode == LeadingOnly {
      assert forall j :: 0 <= j < k ==> (StillEligible(rules, cells[..k][j], p) <==> (Tried(rules, cells[j], p) ==> cells[j].rule == Some(p)));
    } else if rules[p].mode == FirstOnly {
      assert forall j :: 0 <= j < k ==> (StillEligible(rules, cells[..k][j], p) <==> cells[j].rule != Some(p));
    }
  }

  /**
    Cell `k` of the scan belongs to the first phrase that may take it, and takes as many bytes as
    that phrase searches for; it is a single byte of no phrase exactly when none may take it.
  */
  lemma {:induction false} ReplacingTakes(text: seq<Byte>, rs: seq<Replacing>, cells: seq<Cell>, k: nat)
    requires cells == ReplacingCells(text, rs) && k < |cells|
    ensures match cells[k].rule
      case Some(w) =>
        && w < |rs| && MayReplace(text, rs, cells, k, w)
        && (forall q :: 0 <= q < w ==> !MayReplace(text, rs, cells, k, q))
        && cells[k].len == TakenBytes(rs[w].kind)
      case None =>
        && (forall q :: 0 <= q < |rs| ==> !MayReplace(text, rs, cells, k, q))
        && cells[k].len == 1
  {
    var rules := ReplacingRules(text, rs);
    ScanIsGreedy(text, rules, []);
    assert GreedyAt(text, rules, cells, k);
    forall q: nat | q < |rs| ensures MayReplace(text, rs, cells, k, q) <==> CanMatch(text, rules, cells[..k], q) {
      MayReplaceIsCanMatch(text, rs, cells, k, q);
    }
    if cells[k].rule.Some? {
      assert rules[cells[k].rule.value] == ReplacingRule(text, rs[cells[k].rule.value]);
    }
  }

  /** A FIRST phrase takes at most one place, in any series. */
  lemma {:induction false} FirstTakesOnce(text: seq<Byte>, rs: seq<Replacing>, cells: seq<Cell>, p: nat, j: nat, k: nat)
    requires cells == ReplacingCells(text, rs) && p < |rs| && rs[p].kind.ReplaceFirst?
    requires j < |cells| && k < |cells| && cells[j].rule == Some(p) && cells[k].rule == Some(p)
    ensures j == k
  {
    ReplacingTakes(text, rs, cells, j);
    ReplacingTakes(text, rs, cells, k);
  }

  /** Where a place is left alone, no ALL phrase's string stands there inside its region, and no CHARACTERS phrase covers it. */
  lemma {:induction false} LeftAlone(text: seq<Byte>, rs: seq<Replacing>, cells: seq<Cell>, k: nat, p: nat)
    requires cells == ReplacingCells(text, rs) && k < |cells| && cells[k].rule.None? && p < |rs|
    ensures var x, r := cells[k].pos, RegionOf(text, rs[p].markers);
      && (rs[p].kind.ReplaceAll? && r.start <= x ==> !Stands(text, rs[p].kind.from, x, r.end))
      && (rs[p].kind.ReplaceCharacters? && rs[p].kind.to != [] ==> !(r.start <= x < r.end))
      && (rs[p].kind.ReplaceFirst? && r.start <= x && Stands(text, rs[p].kind.from, x, r.end) ==>
            exists j :: 0 <= j < k && cells[j].rule == Some(p))
  {
    ReplacingTakes(text, rs, cells, k);
    assert !MayReplace(text, rs, cells, k, p);
  }

  // ----- REPLACING: one phrase alone -----

  /** What one phrase leaves of the bytes from `i` on. */
  function OnePhrase(text: seq<Byte>, kind: ReplacingKind, r: Region, i: nat): seq<Byte>
    decreases |text| - i
  {
    if i >= |text| then []
    else if !(r.start <= i < r.end) then [text[i]] + OnePhrase(text, kind, r, i + 1)
    else match kind
      case ReplaceCharacters(to) => (if to == [] then [text[i]] else [to[0]]) + OnePhrase(text, kind, r, i + 1)
      case ReplaceAll(from, to) =>
        if Stands(text, from, i, r.end) then Overlay(to, from) + OnePhrase(text, kind, r, i + |from|)
        else [text[i]] + OnePhrase(text, kind, r, i + 1)
      case ReplaceLeading(from, to) =>
        if Stands(text, from, i, r.end) then Overlay(to, from) + OnePhrase(text, kind, r, i + |from|)
        else text[i..]
      case ReplaceFirst(from, to) =>
        if Stands(text, from, i, r.end) then Overlay(to, from) + text[i + |from|..]
        else [text[i]] + OnePhrase(text, kind, r, i + 1)
  }

  /** What the rest of the scan leaves, once the flag of a LEADING or FIRST phrase is down or while it is up. */
  function RestOfPhrase(text: seq<Byte>, r: Replacing, h: seq<Cell>): seq<Byte>
    requires End(h) <= |text|
  {
    if Eligible([ReplacingRule(text, r)], h, 0) then OnePhrase(text, r.kind, RegionOf(text, r.markers), End(h)) else text[End(h)..]
  }

  lemma {:induction false} OneRule(text: seq<Byte>, r: Replacing)
    ensures ReplacingRules(text, [r]) == [ReplacingRule(text, r)] && Replacements([r]) == [r.kind.to]
  {
  }

  lemma {:induction false} OnePhraseCell(text: seq<Byte>, r: Replacing, h: seq<Cell>)
    requires End(h) < |text|
    ensures var rule, x := ReplacingRule(text, r), End(h);
      NextCell(text, [rule], h) ==
        if Matches(text, rule, x) && Eligible([rule], h, 0) then Cell(x, MatchLength(rule), Some(0)) else Cell(x, 1, None)
  {
    var rules := [ReplacingRule(text, r)];
    assert Winner(text, rules, h, 1) == None;
  }

  /** One cell of the scan, and what is left after it. */
  lemma {:induction false} OnePhraseNext(text: seq<Byte>, r: Replacing, h: seq<Cell>, g: seq<Cell>)
    requires End(h) < |text| && g == h + [NextCell(text, [ReplacingRule(text, r)], h)]
    ensures var c := NextCell(text, [ReplacingRule(text, r)], h);
      End(g) <= |text| && RestOfPhrase(text, r, h) == CellBytes(text, [r.kind.to], c) + RestOfPhrase(text, r, g)
  {
    var rule, x := ReplacingRule(text, r), End(h);
    var c := NextCell(text, [rule], h);
    OnePhraseCell(text, r, h);
    EligibleNext([rule], h, c, 0);
    assert g[..|h|] == h && End(g) == x + c.len;
    assert text[x..] == text[x..x + c.len] + text[x + c.len..];
    if c.rule.None? {
      assert text[x..x + 1] == [text[x]];
      UnmatchedRest(text, r, h, g);
    } else {
      MatchedRest(text, r, h, g, c);
    }
  }

  lemma {:induction false} UnmatchedRest(text: seq<Byte>, r: Replacing, h: seq<Cell>, g: seq<Cell>)
    requires End(h) < |text| && g == h + [Cell(End(h), 1, None)]
    requires !(Matches(text, ReplacingRule(text, r), End(h)) && Eligible([ReplacingRule(text, r)], h, 0))
    ensures End(g) == End(h) + 1
    ensures RestOfPhrase(text, r, h) == [text[End(h)]] + RestOfPhrase(text, r, g)
  {
    var rule, x := ReplacingRule(text, r), End(h);
    EligibleNext([rule], h, Cell(x, 1, None), 0);
    assert text[x..] == [text[x]] + text[x + 1..];
  }

  lemma {:induction false} MatchedRest(text: seq<Byte>, r: Replacing, h: seq<Cell>, g: seq<Cell>, c: Cell)
    requires End(h) < |text| && c == Cell(End(h), MatchLength(ReplacingRule(text, r)), Some(0)) && g == h + [c]
    requires Matches(text, ReplacingRule(text, r), End(h)) && Eligible([ReplacingRule(text, r)], h, 0)
    ensures End(g) == End(h) + c.len <= |text|
    ensures RestOfPhrase(text, r, h) == CellBytes(text, [r.kind.to], c) + RestOfPhrase(text, r, g)
  {
    match r.kind
    case ReplaceCharacters(to) => CharacterMatched(text, r, h, g, c);
    case ReplaceAll(from, to) => AllMatched(text, r, h, g, c);
    case ReplaceLeading(from, to) => LeadingMatched(text, r, h, g, c);
    case ReplaceFirst(from, to) => FirstMatched(text, r, h, g, c);
  }

  lemma {:induction false} AllMatched(text: seq<Byte>, r: Replacing, h: seq<Cell>, g: seq<Cell>, c: Cell)
    requires r.kind.ReplaceAll? && End(h) < |text| && c == Cell(End(h), |r.kind.from|, Some(0)) && g == h + [c]
    requires Matches(text, ReplacingRule(text, r), End(h)) && Eligible([ReplacingRule(text, r)], h, 0)
    ensures End(g) == End(h) + c.len <= |text|
    ensures RestOfPhrase(text, r, h) == CellBytes(text, [r.kind.to], c) + RestOfPhrase(text, r, g)
  {
    OthersAlwaysEligible([ReplacingRule(text, r)], g, 0);
    AllStep(text, r.kind.from, r.kind.to, RegionOf(text, r.markers), End(h));
  }

  lemma {:induction false} LeadingMatched(text: seq<Byte>, r: Replacing, h: seq<Cell>, g: seq<Cell>, c: Cell)
    requires r.kind.ReplaceLeading? && End(h) < |text| && c == Cell(End(h), |r.kind.from|, Some(0)) && g == h + [c]
    requires Matches(text, ReplacingRule(text, r), End(h)) && Eligible([ReplacingRule(text, r)], h, 0)
    ensures End(g) == End(h) + c.len <= |text|
    ensures RestOfPhrase(text, r, h) == CellBytes(text, [r.kind.to], c) + RestOfPhrase(text, r, g)
  {
    EligibleNext([ReplacingRule(text, r)], h, c, 0);
  }

  lemma {:induction false} FirstMatched(text: seq<Byte>, r: Replacing, h: seq<Cell>, g: seq<Cell>, c: Cell)
    requires r.kind.ReplaceFirst? && End(h) < |text| && c == Cell(End(h), |r.kind.from|, Some(0)) && g == h + [c]
    requires Matches(text, ReplacingRule(text, r), End(h)) && Eligible([ReplacingRule(text, r)], h, 0)
    ensures End(g) == End(h) + c.len <= |text|
    ensures RestOfPhrase(text, r, h) == CellBytes(text, [r.kind.to], c) + RestOfPhrase(text, r, g)
  {
    EligibleNext([ReplacingRule(text, r)], h, c, 0);
  }

  lemma {:induction false} CharacterMatched(text: seq<Byte>, r: Replacing, h: seq<Cell>, g: seq<Cell>, c: Cell)
    requires r.kind.ReplaceCharacters? && r.kind.to != []
    requires End(h) < |text| && c == Cell(End(h), 1, Some(0)) && g == h + [c]
    requires Matches(text, ReplacingRule(text, r), End(h)) && Eligible([ReplacingRule(text, r)], h, 0)
    ensures RestOfPhrase(text, r, h) == CellBytes(text, [r.kind.to], c) + RestOfPhrase(text, r, g)
  {
    var x := End(h);
    OthersAlwaysEligible([ReplacingRule(text, r)], g, 0);
    assert text[x..x + 1] == [text[x]];
    assert Overlay(r.kind.to, [text[x]]) == [r.kind.to[0]];
  }

  /** What the scan leaves when it goes on from a history. */
  function AfterPhrase(text: seq<Byte>, r: Replacing, h: seq<Cell>): seq<Byte>
    requires End(h) <= |text|
  {
    Rewritten(text, [r.kind.to], Scan(text, [ReplacingRule(text, r)], h))
  }

  lemma {:induction false} OnePhraseScan(text: seq<Byte>, r: Replacing, h: seq<Cell>)
    requires End(h) <= |text|
    ensures AfterPhrase(text, r, h) == Rewritten(text, [r.kind.to], h) + RestOfPhrase(text, r, h)
    decreases |text| - End(h)
  {
    var rules, tos := [ReplacingRule(text, r)], [r.kind.to];
    if End(h) < |text| {
      var c := NextCell(text, rules, h);
      var g := h + [c];
      ScanNext(text, rules, h);
      OnePhraseNext(text, r, h, g);
      RewrittenAppend(text, tos, h, c);
      OnePhraseScan(text, r, g);
      Associate(Rewritten(text, tos, h), CellBytes(text, tos, c), RestOfPhrase(text, r, g));
    } else {
      assert RestOfPhrase(text, r, h) == [];
    }
  }

  /** A single phrase leaves what one pass over the bytes leaves. */
  lemma {:induction false} OnePhraseReplaces(text: seq<Byte>, r: Replacing)
    ensures Replaced(text, [r]) == OnePhrase(text, r.kind, RegionOf(text, r.markers), 0)
  {
    OneRule(text, r);
    OnePhraseScan(text, r, []);
    var rest := OnePhrase(text, r.kind, RegionOf(text, r.markers), 0);
    assert Rewritten(text, [r.kind.to], []) + rest == rest;
  }

  lemma {:induction false} OneByteMore(text: seq<Byte>, i: nat, x: nat, rest: seq<Byte>)
    requires i < x <= |text|
    ensures [text[i]] + (text[i + 1..x] + rest) == text[i..x] + rest
  {
  }

  lemma {:induction false} NoByte(text: seq<Byte>, i: nat, rest: seq<Byte>)
    requires i <= |text|
    ensures text[i..i] + rest == rest
  {
  }

  /** The phrase does nothing at `i`. */
  predicate Idle(text: seq<Byte>, kind: ReplacingKind, r: Region, i: nat) {
    !(r.start <= i < r.end) || ((kind.ReplaceAll? || kind.ReplaceFirst?) && !Stands(text, kind.from, i, r.end))
  }

  lemma {:induction false} IdleBytes(text: seq<Byte>, kind: ReplacingKind, r: Region, i: nat, x: nat)
    requires i <= x <= |text| && forall j :: i <= j < x ==> Idle(text, kind, r, j)
    ensures OnePhrase(text, kind, r, i) == text[i..x] + OnePhrase(text, kind, r, x)
    decreases x - i
  {
    if i < x {
      assert Idle(text, kind, r, i);
      IdleBytes(text, kind, r, i + 1, x);
      OneByteMore(text, i, x, OnePhrase(text, kind, r, x));
    } else {
      NoByte(text, i, OnePhrase(text, kind, r, x));
    }
  }

  lemma {:induction false} IdleToTheEnd(text: seq<Byte>, kind: ReplacingKind, r: Region, i: nat)
    requires i <= |text| && forall j :: i <= j < |text| ==> Idle(text, kind, r, j)
    ensures OnePhrase(text, kind, r, i) == text[i..]
  {
    IdleBytes(text, kind, r, i, |text|);
    assert text[i..|text|] + [] == text[i..];
  }

  lemma {:induction false} AbsentIsIdle(text: seq<Byte>, kind: ReplacingKind, r: Region, i: nat)
    requires r.end <= |text| && (kind.ReplaceAll? || kind.ReplaceFirst?)
    requires kind.from == [] || Absent(text, kind.from, i, r.end)
    ensures forall j :: i <= j < |text| ==> Idle(text, kind, r, j)
  {
    forall j | i <= j < |text| ensures Idle(text, kind, r, j) {
      assert kind.from != [] ==> !OccursAt(text, kind.from, j, r.end);
    }
  }

  lemma {:induction false} IdleBeforeFirst(text: seq<Byte>, kind: ReplacingKind, r: Region, i: nat, f: nat)
    requires r.start <= i && r.end <= |text| && (kind.ReplaceAll? || kind.ReplaceFirst?)
    requires kind.from != [] && FirstOccurrence(text, kind.from, i, r.end, f)
    ensures i <= f < r.end && Stands(text, kind.from, f, r.end)
    ensures forall j :: i <= j < f ==> Idle(text, kind, r, j)
  {
    forall j | i <= j < f ensures Idle(text, kind, r, j) {
      assert !OccursAt(text, kind.from, j, r.end);
    }
  }

  /** FIRST alone replaces the first occurrence in its region, and nothing when there is none. */
  lemma {:induction false} FirstReplaces(text: seq<Byte>, from: seq<Byte>, to: seq<Byte>, ms: seq<Marker>)
    ensures var r, after := RegionOf(text, ms), Replaced(text, [Replacing(ReplaceFirst(from, to), ms)]);
      && (from == [] || Absent(text, from, r.start, r.end) ==> after == text)
      && (forall f: nat :: from != [] && FirstOccurrence(text, from, r.start, r.end, f) ==>
            after == text[..f] + Overlay(to, from) + text[f + |from|..])
  {
    var r, kind := RegionOf(text, ms), ReplaceFirst(from, to);
    OnePhraseReplaces(text, Replacing(kind, ms));
    if from == [] || Absent(text, from, r.start, r.end) {
      AbsentIsIdle(text, kind, r, r.start);
      assert forall j :: 0 <= j < |text| ==> Idle(text, kind, r, j);
      IdleToTheEnd(text, kind, r, 0);
      assert text[0..] == text;
    }
    forall f: nat | from != [] && FirstOccurrence(text, from, r.start, r.end, f)
      ensures OnePhrase(text, kind, r, 0) == text[..f] + Overlay(to, from) + text[f + |from|..]
    {
      FirstReplacedAt(text, from, to, r, f);
    }
  }

  lemma {:induction false} FirstReplacedAt(text: seq<Byte>, from: seq<Byte>, to: seq<Byte>, r: Region, f: nat)
    requires r.end <= |text| && from != [] && FirstOccurrence(text, from, r.start, r.end, f)
    ensures f + |from| <= |text|
    ensures OnePhrase(text, ReplaceFirst(from, to), r, 0) == text[..f] + Overlay(to, from) + text[f + |from|..]
  {
    var kind := ReplaceFirst(from, to);
    IdleBeforeFirst(text, kind, r, r.start, f);
    assert forall j :: 0 <= j < f ==> Idle(text, kind, r, j);
    IdleBytes(text, kind, r, 0, f);
    assert text[0..f] == text[..f];
    assert text[..f] + (Overlay(to, from) + text[f + |from|..]) == text[..f] + Overlay(to, from) + text[f + |from|..];
  }

  /** CHARACTERS alone turns every byte of its region into the first replacement byte. */
  lemma {:induction false} CharactersReplace(text: seq<Byte>, to: seq<Byte>, ms: seq<Marker>)
    ensures var r, after := RegionOf(text, ms), Replaced(text, [Replacing(ReplaceCharacters(to), ms)]);
      && |after| == |text|
      && forall i :: 0 <= i < |text| ==> after[i] == if to != [] && r.start <= i < r.end then to[0] else text[i]
  {
    var r := RegionOf(text, ms);
    OnePhraseReplaces(text, Replacing(ReplaceCharacters(to), ms));
    CharactersFrom(text, to, r, 0);
    assert forall i :: 0 <= i < |text| ==> CharacterAfter(text, to, r, i) == if to != [] && r.start <= i < r.end then to[0] else text[i];
  }

  function CharacterAfter(text: seq<Byte>, to: seq<Byte>, r: Region, i: nat): Byte
    requires i < |text|
  {
    if to != [] && r.start <= i < r.end then to[0] else text[i]
  }

  lemma {:induction false} CharactersFrom(text: seq<Byte>, to: seq<Byte>, r: Region, i: nat)
    requires i <= |text|
    ensures var rest := OnePhrase(text, ReplaceCharacters(to), r, i);
      |rest| == |text| - i && forall j :: 0 <= j < |rest| ==> rest[j] == CharacterAfter(text, to, r, i + j)
    decreases |text| - i
  {
    if i < |text| {
      CharactersFrom(text, to, r, i + 1);
      var rest, tail := OnePhrase(text, ReplaceCharacters(to), r, i), OnePhrase(text, ReplaceCharacters(to), r, i + 1);
      assert rest == [CharacterAfter(text, to, r, i)] + tail;
      forall j | 0 <= j < |rest| ensures rest[j] == CharacterAfter(text, to, r, i + j) {
        if j > 0 { assert rest[j] == tail[j - 1] && CharacterAfter(text, to, r, i + 1 + (j - 1)) == tail[j - 1]; }
      }
    }
  }

  /** ALL alone, from any place on: an occurrence is replaced and the pass goes on after it; without one the rest stays. */
  lemma {:induction false} AllReplaces(text: seq<Byte>, from: seq<Byte>, to: seq<Byte>, r: Region, i: nat)
    requires r.start <= i <= r.end <= |text|
    ensures var kind := ReplaceAll(from, to);
      && (from == [] || Absent(text, from, i, r.end) ==> OnePhrase(text, kind, r, i) == text[i..])
      && (forall f: nat :: from != [] && FirstOccurrence(text, from, i, r.end, f) ==>
            OnePhrase(text, kind, r, i) == text[i..f] + Overlay(to, from) + OnePhrase(text, kind, r, f + |from|))
  {
    var kind := ReplaceAll(from, to);
    if from == [] || Absent(text, from, i, r.end) {
      AbsentIsIdle(text, kind, r, i);
      IdleToTheEnd(text, kind, r, i);
    }
    forall f: nat | from != [] && FirstOccurrence(text, from, i, r.end, f)
      ensures OnePhrase(text, kind, r, i) == text[i..f] + Overlay(to, from) + OnePhrase(text, kind, r, f + |from|)
    {
      NextReplacedAt(text, from, to, r, i, f);
    }
  }

  lemma {:induction false} AllStep(text: seq<Byte>, from: seq<Byte>, to: seq<Byte>, r: Region, x: nat)
    requires r.start <= x && Stands(text, from, x, r.end)
    ensures OnePhrase(text, ReplaceAll(from, to), r, x) == Overlay(to, from) + OnePhrase(text, ReplaceAll(from, to), r, x + |from|)
  {
  }

  lemma {:induction false} NextReplacedAt(text: seq<Byte>, from: seq<Byte>, to: seq<Byte>, r: Region, i: nat, f: nat)
    requires r.start <= i && r.end <= |text| && from != [] && FirstOccurrence(text, from, i, r.end, f)
    ensures var kind := ReplaceAll(from, to);
      OnePhrase(text, kind, r, i) == text[i..f] + Overlay(to, from) + OnePhrase(text, kind, r, f + |from|)
  {
    var kind := ReplaceAll(from, to);
    IdleBeforeFirst(text, kind, r, i, f);
    IdleBytes(text, kind, r, i, f);
    AllStep(text, from, to, r, f);
    Associate(text[i..f], Overlay(to, from), OnePhrase(text, kind, r, f + |from|));
  }

  function Repeated(s: seq<Byte>, n: nat): seq<Byte> {
    if n == 0 then [] else s + Repeated(s, n - 1)
  }

  /** From `x` on the string stands exactly `n` times, one copy after the other. */
  predicate StandsTimes(text: seq<Byte>, s: seq<Byte>, x: nat, end: nat, n: nat)
    decreases n
  {
    if n == 0 then !Stands(text, s, x, end)
    else Stands(text, s, x, end) && StandsTimes(text, s, x + |s|, end, n - 1)
  }

  /** The place after `n` copies of a string of length `l`. */
  function AfterCopies(x: nat, l: nat, n: nat): nat
    decreases n
  {
    if n == 0 then x else AfterCopies(x + l, l, n - 1)
  }

  lemma {:induction false} CopiesEnd(x: nat, l: nat, n: nat)
    ensures AfterCopies(x, l, n) == x + n * l
    decreases n
  {
    if n > 0 {
      CopiesEnd(x + l, l, n - 1);
      assert (n - 1) * l == n * l - l;
    }
  }

  /** LEADING alone replaces the copies of its string that its region begins with, and nothing else. */
  lemma {:induction false} LeadingReplaces(text: seq<Byte>, from: seq<Byte>, to: seq<Byte>, ms: seq<Marker>, n: nat)
    requires from != [] && StandsTimes(text, from, RegionOf(text, ms).start, RegionOf(text, ms).end, n)
    ensures var start, after := RegionOf(text, ms).start, RegionOf(text, ms).start + n * |from|;
      && after <= |text|
      && Replaced(text, [Replacing(ReplaceLeading(from, to), ms)]) == text[..start] + (Repeated(Overlay(to, from), n) + text[after..])
  {
    var r, kind := RegionOf(text, ms), ReplaceLeading(from, to);
    OnePhraseReplaces(text, Replacing(kind, ms));
    IdleBytes(text, kind, r, 0, r.start);
    LeadingFrom(text, from, to, r, r.start, n);
    CopiesEnd(r.start, |from|, n);
    assert text[0..r.start] == text[..r.start];
  }

  /** From `x` on, `n` copies are replaced and the rest stays. */
  predicate LeadingIs(text: seq<Byte>, from: seq<Byte>, to: seq<Byte>, r: Region, x: nat, n: nat) {
    var after := AfterCopies(x, |from|, n);
    after <= |text| && OnePhrase(text, ReplaceLeading(from, to), r, x) == Repeated(Overlay(to, from), n) + text[after..]
  }

  lemma {:induction false} LeadingFrom(text: seq<Byte>, from: seq<Byte>, to: seq<Byte>, r: Region, x: nat, n: nat)
    requires r.start <= x <= r.end <= |text| && from != [] && StandsTimes(text, from, x, r.end, n)
    ensures LeadingIs(text, from, to, r, x, n)
    decreases n
  {
    if n > 0 {
      LeadingFrom(text, from, to, r, x + |from|, n - 1);
      LeadingMore(text, from, to, r, x, n);
    } else {
      LeadingStops(text, from, to, r, x);
    }
  }

  /** One more copy in front of those replaced already. */
  lemma {:induction false} LeadingMore(text: seq<Byte>, from: seq<Byte>, to: seq<Byte>, r: Region, x: nat, n: nat)
    requires r.start <= x && n > 0 && Stands(text, from, x, r.end) && LeadingIs(text, from, to, r, x + |from|, n - 1)
    ensures LeadingIs(text, from, to, r, x, n)
  {
    Associate(Overlay(to, from), Repeated(Overlay(to, from), n - 1), text[AfterCopies(x, |from|, n)..]);
  }

  lemma {:induction false} Associate(a: seq<Byte>, b: seq<Byte>, c: seq<Byte>)
    ensures a + (b + c) == (a + b) + c
  {
  }

  lemma {:induction false} LeadingStops(text: seq<Byte>, from: seq<Byte>, to: seq<Byte>, r: Region, x: nat)
    requires r.start <= x <= r.end <= |text| && !Stands(text, from, x, r.end)
    ensures LeadingIs(text, from, to, r, x, 0)
  {
    if x == r.end { IdleToTheEnd(text, ReplaceLeading(from, to), r, x); }
  }

  // ----- TALLYING: which phrase takes a place, and what one phrase counts -----

  function TallyingCells(text: seq<Byte>, ts: seq<Tallying>): seq<Cell> {
    Scan(text, TallyingRules(text, ts), [])
  }

  predicate MayCount(text: seq<Byte>, ts: seq<Tallying>, cells: seq<Cell>, k: nat, p: nat)
    requires k < |cells| && p < |ts|
  {
    var x, r := cells[k].pos, RegionOf(text, ts[p].markers);
    r.start <= x < r.end &&
    match ts[p].kind
    case TallyCharacters => true
    case TallyAll(search) => Stands(text, search, x, r.end)
    case TallyLeading(search) =>
      Stands(text, search, x, r.end) && forall j :: 0 <= j < k && LookedAt(r, cells[j], p) ==> cells[j].rule == Some(p)
    case TallyTrailing(_) => false
  }

  function CountedBytes(kind: TallyingKind): nat {
    if kind.TallyCharacters? then 1 else |kind.search|
  }

  lemma {:induction false} MayCountIsCanMatch(text: seq<Byte>, ts: seq<Tallying>, cells: seq<Cell>, k: nat, p: nat)
    requires k < |cells| && p < |ts| && cells[k].pos == End(cells[..k])
    ensures MayCount(text, ts, cells, k, p) <==> CanMatch(text, TallyingRules(text, ts), cells[..k], p)
  {
    var rules := TallyingRules(text, ts);
    EligibleMeans(rules, cells[..k], p);
    assert rules[p] == TallyingRule(text, ts[p]);
    assert forall j :: 0 <= j < k ==> (LookedAt(rules[p].region, cells[j], p) <==> Tried(rules, cells[j], p));
    EveryStillEligible(rules, cells, k, p);
  }

  /** Cell `k` of a tallying scan belongs to the first phrase that may count it, and to none exactly when none may. */
  lemma {:induction false} TallyingTakes(text: seq<Byte>, ts: seq<Tallying>, cells: seq<Cell>, k: nat)
    requires cells == TallyingCells(text, ts) && k < |cells|
    ensures match cells[k].rule
      case Some(w) =>
        && w < |ts| && MayCount(text, ts, cells, k, w)
        && (forall q :: 0 <= q < w ==> !MayCount(text, ts, cells, k, q))
        && cells[k].len == CountedBytes(ts[w].kind)
      case None =>
        && (forall q :: 0 <= q < |ts| ==> !MayCount(text, ts, cells, k, q))
        && cells[k].len == 1
  {
    var rules := TallyingRules(text, ts);
    ScanIsGreedy(text, rules, []);
    assert GreedyAt(text, rules, cells, k);
    forall q: nat | q < |ts| ensures MayCount(text, ts, cells, k, q) <==> CanMatch(text, rules, cells[..k], q) {
      MayCountIsCanMatch(text, ts, cells, k, q);
    }
    if cells[k].rule.Some? {
      assert rules[cells[k].rule.value] == TallyingRule(text, ts[cells[k].rule.value]);
    }
  }

  // ----- What is counted -----

  /** The places of the scan that phrase `w` took. */
  ghost function PlacesOf(cells: seq<Cell>, w: nat): set<nat> {
    set k: nat | k < |cells| && cells[k].rule == Some(w)
  }

  /** A phrase counts each of its places once. */
  lemma {:induction false} CountsPlaces(cells: seq<Cell>, w: nat)
    ensures MatchesOf(cells, w) == |PlacesOf(cells, w)|
  {
    if cells != [] {
      var last, init := |cells| - 1, cells[..|cells|-1];
      CountsPlaces(init, w);
      if cells[last].rule == Some(w) {
        assert PlacesOf(cells, w) == PlacesOf(init, w) + {last};
      } else {
        assert PlacesOf(cells, w) == PlacesOf(init, w);
      }
    }
  }

  /** Each counter grows by the places of the phrases that count into it. */
  ghost function PlacesInto(cells: seq<Cell>, ts: seq<Tallying>, name: string): set<nat> {
    set k: nat | k < |cells| && cells[k].rule.Some? && cells[k].rule.value < |ts| && ts[cells[k].rule.value].counter == name
  }

  lemma {:induction false} TallyCountsPlaces(cells: seq<Cell>, ts: seq<Tallying>, name: string)
    ensures Tally(cells, ts, name) == |PlacesInto(cells, ts, name)|
  {
    if cells != [] {
      var last, init := |cells| - 1, cells[..|cells|-1];
      TallyCountsPlaces(init, ts, name);
      if last in PlacesInto(cells, ts, name) {
        assert PlacesInto(cells, ts, name) == PlacesInto(init, ts, name) + {last};
      } else {
        assert PlacesInto(cells, ts, name) == PlacesInto(init, ts, name);
      }
    }
  }
}
