/**
  What an INSPECT series over a sequence of bytes means: the regions that BEFORE and AFTER
  markers cut out, the list of cells one left-to-right scan visits, and the bytes a REPLACING
  series leaves behind.
*/
module InspectScan {
  import opened Options

  newtype Byte = n: int | 0 <= n < 256

  // ----- Regions -----

  datatype Marker = Marker(isBefore: bool, value: seq<Byte>)

  datatype Region = Region(start: nat, end: nat)

  /** `m` stands in the text at `j`, within the first `end` bytes. */
  predicate OccursAt(text: seq<Byte>, m: seq<Byte>, j: nat, end: nat)
    requires end <= |text|
  {
    j + |m| <= end && text[j..j+|m|] == m
  }

  /** The first place from `i` on where `m` stands before `end`; `end` when there is none. */
  function FindMarker(text: seq<Byte>, m: seq<Byte>, i: nat, end: nat): (found: nat)
    requires i <= end <= |text|
    ensures i <= found <= end
    ensures forall j: nat :: i <= j < found ==> !OccursAt(text, m, j, end)
    ensures found < end && m != [] ==> OccursAt(text, m, found, end)
    decreases end - i
  {
    if i + |m| > end then end
    else if OccursAt(text, m, i, end) then i
    else if i == end then end
    else FindMarker(text, m, i + 1, end)
  }

  /** One marker applied to a region. */
  function Narrow(text: seq<Byte>, r: Region, m: Marker): (cut: Region)
    requires r.start <= r.end <= |text|
    ensures r.start <= cut.start <= cut.end <= r.end
  {
    if |m.value| == 0 || |m.value| > r.end - r.start then
      if m.isBefore then r else Region(r.end, r.end)
    else
      var found := FindMarker(text, m.value, r.start, r.end);
      if found == r.end then (if m.isBefore then r else Region(r.end, r.end))
      else if m.isBefore then Region(r.start, found)
      else Region(found + |m.value|, r.end)
  }

  function NarrowAll(text: seq<Byte>, r: Region, ms: seq<Marker>): (cut: Region)
    requires r.start <= r.end <= |text|
    ensures r.start <= cut.start <= cut.end <= r.end
    decreases |ms|
  {
    if ms == [] then r else NarrowAll(text, Narrow(text, r, ms[0]), ms[1..])
  }

  /** The markers of one kind, in the order written. */
  function OfKind(ms: seq<Marker>, isBefore: bool): seq<Marker> {
    if ms == [] then []
    else (if ms[0].isBefore == isBefore then [ms[0]] else []) + OfKind(ms[1..], isBefore)
  }

  /** AFTER markers first, then BEFORE markers. */
  function RegionOf(text: seq<Byte>, ms: seq<Marker>): (r: Region)
    ensures r.start <= r.end <= |text|
  {
    NarrowAll(text, Region(0, |text|), OfKind(ms, false) + OfKind(ms, true))
  }

  /** `f` is where `m` first stands from `i` on, wholly before `end`. */
  ghost predicate FirstOccurrence(text: seq<Byte>, m: seq<Byte>, i: nat, end: nat, f: nat)
    requires end <= |text|
  {
    i <= f && OccursAt(text, m, f, end) && forall j: nat :: i <= j < f ==> !OccursAt(text, m, j, end)
  }

  ghost predicate Absent(text: seq<Byte>, m: seq<Byte>, i: nat, end: nat)
    requires end <= |text|
  {
    forall j: nat :: i <= j ==> !OccursAt(text, m, j, end)
  }

  /** A single AFTER or BEFORE marker cuts the region just past, or at, its first occurrence in the region. */
  lemma {:induction false} MarkerCuts(text: seq<Byte>, r: Region, m: Marker)
    requires r.start <= r.end <= |text|
    ensures m.value == [] || Absent(text, m.value, r.start, r.end) ==>
      Narrow(text, r, m) == if m.isBefore then r else Region(r.end, r.end)
    ensures forall f: nat :: m.value != [] && FirstOccurrence(text, m.value, r.start, r.end, f) ==>
      Narrow(text, r, m) == if m.isBefore then Region(r.start, f) else Region(f + |m.value|, r.end)
  {
    if m.value != [] && |m.value| <= r.end - r.start {
      var found := FindMarker(text, m.value, r.start, r.end);
      forall f: nat | FirstOccurrence(text, m.value, r.start, r.end, f)
        ensures found == f
      {
      }
      if found < r.end {
        assert OccursAt(text, m.value, found, r.end);
      }
    }
  }

  // ----- The scan -----

  datatype Mode = AnyByte | Every | LeadingOnly | FirstOnly | Never

  /** A phrase reduced to what decides where it matches. */
  datatype Rule = Rule(mode: Mode, search: seq<Byte>, region: Region)

  /** One step of the scan: the bytes a phrase matched, or one byte that no phrase matched. */
  datatype Cell = Cell(pos: nat, len: nat, rule: Option<nat>)

  function End(cells: seq<Cell>): nat {
    if cells == [] then 0 else cells[|cells|-1].pos + cells[|cells|-1].len
  }

  predicate InRegion(r: Rule, x: nat) {
    r.region.start <= x < r.region.end
  }

  /** The text at `x` is a match for the rule, wholly inside its region. */
  predicate Matches(text: seq<Byte>, r: Rule, x: nat) {
    && r.region.end <= |text|
    && InRegion(r, x)
    && match r.mode
       case AnyByte => true
       case Never => false
       case _ => r.search != [] && OccursAt(text, r.search, x, r.region.end)
  }

  function MatchLength(r: Rule): nat {
    if r.mode == AnyByte then 1 else |r.search|
  }

  /** Phrase `p` was compared at this cell: in its region, and no earlier phrase had matched. */
  predicate Tried(rules: seq<Rule>, c: Cell, p: nat)
    requires p < |rules|
  {
    InRegion(rules[p], c.pos) && (c.rule.Some? ==> p <= c.rule.value)
  }

  predicate StillEligible(rules: seq<Rule>, c: Cell, p: nat)
    requires p < |rules|
  {
    match rules[p].mode
    case LeadingOnly => Tried(rules, c, p) ==> c.rule == Some(p)
    case FirstOnly => c.rule != Some(p)
    case _ => true
  }

  /** LEADING matches until a comparison of it fails; FIRST matches until it has matched. */
  predicate Eligible(rules: seq<Rule>, history: seq<Cell>, p: nat)
    requires p < |rules|
  {
    history == [] || (Eligible(rules, history[..|history|-1], p) && StillEligible(rules, history[|history|-1], p))
  }

  predicate CanMatch(text: seq<Byte>, rules: seq<Rule>, history: seq<Cell>, p: nat)
    requires p < |rules|
  {
    Matches(text, rules[p], End(history)) && Eligible(rules, history, p)
  }

  /** The first phrase from `p` on that can match where the history ends. */
  function Winner(text: seq<Byte>, rules: seq<Rule>, history: seq<Cell>, p: nat): (w: Option<nat>)
    requires p <= |rules|
    ensures w.Some? ==> p <= w.value < |rules| && CanMatch(text, rules, history, w.value)
    ensures forall q :: p <= q < (if w.Some? then w.value else |rules|) ==> !CanMatch(text, rules, history, q)
    decreases |rules| - p
  {
    if p == |rules| then None
    else if CanMatch(text, rules, history, p) then Some(p)
    else Winner(text, rules, history, p + 1)
  }

  function NextCell(text: seq<Byte>, rules: seq<Rule>, history: seq<Cell>): (c: Cell)
    ensures c.pos == End(history) && c.len > 0
    ensures End(history) < |text| ==> c.pos + c.len <= |text|
  {
    match Winner(text, rules, history, 0)
    case Some(w) => Cell(End(history), MatchLength(rules[w]), Some(w))
    case None => Cell(End(history), 1, None)
  }

  /** The cells of the whole scan, continuing from a history. */
  function Scan(text: seq<Byte>, rules: seq<Rule>, history: seq<Cell>): seq<Cell>
    requires End(history) <= |text|
    decreases |text| - End(history)
  {
    if End(history) == |text| then history
    else Scan(text, rules, history + [NextCell(text, rules, history)])
  }

  lemma {:induction false} ScanNext(text: seq<Byte>, rules: seq<Rule>, h: seq<Cell>)
    requires End(h) < |text|
    ensures var g := h + [NextCell(text, rules, h)]; Scan(text, rules, g) == Scan(text, rules, h) && End(g) == End(h) + NextCell(text, rules, h).len
  {
  }

  // ----- The scan, declaratively -----

  /** Cell `k` starts where the cells before it end, and records the first phrase that can match there, if any. */
  ghost predicate GreedyAt(text: seq<Byte>, rules: seq<Rule>, cells: seq<Cell>, k: nat)
    requires k < |cells|
  {
    var c, history := cells[k], cells[..k];
    && c.pos == End(history) < |text|
    && match c.rule
       case Some(w) =>
         && w < |rules|
         && CanMatch(text, rules, history, w)
         && (forall q :: 0 <= q < w ==> !CanMatch(text, rules, history, q))
         && c.len == MatchLength(rules[w])
       case None =>
         && (forall q :: 0 <= q < |rules| ==> !CanMatch(text, rules, history, q))
         && c.len == 1
  }

  ghost predicate Greedy(text: seq<Byte>, rules: seq<Rule>, cells: seq<Cell>) {
    forall k: nat :: k < |cells| ==> GreedyAt(text, rules, cells, k)
  }

  lemma {:induction false} GreedyExtends(text: seq<Byte>, rules: seq<Rule>, cells: seq<Cell>, c: Cell)
    requires Greedy(text, rules, cells)
    requires GreedyAt(text, rules, cells + [c], |cells|)
    ensures Greedy(text, rules, cells + [c])
  {
    var grown := cells + [c];
    forall k: nat | k < |grown| ensures GreedyAt(text, rules, grown, k) {
      if k < |cells| {
        assert GreedyAt(text, rules, cells, k);
        assert grown[..k] == cells[..k];
      }
    }
  }

  /** The scan is greedy and covers the text. */
  lemma {:induction false} ScanIsGreedy(text: seq<Byte>, rules: seq<Rule>, history: seq<Cell>)
    requires End(history) <= |text| && Greedy(text, rules, history)
    ensures Greedy(text, rules, Scan(text, rules, history))
    ensures End(Scan(text, rules, history)) == |text|
    decreases |text| - End(history)
  {
    if End(history) < |text| {
      var c := NextCell(text, rules, history);
      assert (history + [c])[..|history|] == history;
      GreedyExtends(text, rules, history, c);
      ScanIsGreedy(text, rules, history + [c]);
    }
  }

  lemma {:induction false} GreedyPrefixesAgree(text: seq<Byte>, rules: seq<Rule>, a: seq<Cell>, b: seq<Cell>, n: nat)
    requires Greedy(text, rules, a) && Greedy(text, rules, b) && n <= |a| && n <= |b|
    ensures a[..n] == b[..n]
  {
    if n > 0 {
      GreedyPrefixesAgree(text, rules, a, b, n - 1);
      assert GreedyAt(text, rules, a, n - 1) && GreedyAt(text, rules, b, n - 1);
      assert a[..n] == a[..n-1] + [a[n-1]] && b[..n] == b[..n-1] + [b[n-1]];
    }
  }

  lemma {:induction false} CoveringScanIsLongest(text: seq<Byte>, rules: seq<Rule>, a: seq<Cell>, b: seq<Cell>)
    requires Greedy(text, rules, a) && Greedy(text, rules, b) && End(a) == |text|
    ensures |b| <= |a|
  {
    if |a| < |b| {
      assert GreedyAt(text, rules, b, |a|);
      assert a[..|a|] == a;
      GreedyPrefixesAgree(text, rules, a, b, |a|);
    }
  }

  /** There is only one greedy list of cells that covers the text: the scan. */
  lemma {:induction false} OnlyOneScan(text: seq<Byte>, rules: seq<Rule>, cells: seq<Cell>)
    ensures cells == Scan(text, rules, []) <==> Greedy(text, rules, cells) && End(cells) == |text|
  {
    ScanIsGreedy(text, rules, []);
    var scan := Scan(text, rules, []);
    if Greedy(text, rules, cells) && End(cells) == |text| {
      CoveringScanIsLongest(text, rules, cells, scan);
      CoveringScanIsLongest(text, rules, scan, cells);
      GreedyPrefixesAgree(text, rules, cells, scan, |scan|);
      assert cells[..|cells|] == cells && scan[..|scan|] == scan;
    }
  }

  /** Eligibility in terms of the whole history. */
  lemma {:induction false} EligibleMeans(rules: seq<Rule>, history: seq<Cell>, p: nat)
    requires p < |rules|
    ensures Eligible(rules, history, p) <==> forall k :: 0 <= k < |history| ==> StillEligible(rules, history[k], p)
  {
    if history != [] {
      EligibleMeans(rules, history[..|history|-1], p);
    }
  }

  /**
    A cell matched by phrase `w` lies inside the phrase's region, holds its search string, comes
    after no other match of it when it is FIRST, and after no failed comparison when it is LEADING.
  */
  lemma {:induction false} MatchedCell(text: seq<Byte>, rules: seq<Rule>, cells: seq<Cell>, k: nat, w: nat)
    requires Greedy(text, rules, cells) && k < |cells| && cells[k].rule == Some(w)
    ensures w < |rules| && cells[k].pos + cells[k].len <= |text|
    ensures rules[w].region.start <= cells[k].pos && cells[k].pos + cells[k].len <= rules[w].region.end
    ensures rules[w].mode != AnyByte ==> text[cells[k].pos..cells[k].pos + cells[k].len] == rules[w].search
    ensures rules[w].mode == FirstOnly ==> forall j :: 0 <= j < |cells| && j != k ==> cells[j].rule != Some(w)
    ensures rules[w].mode == LeadingOnly ==> forall j :: 0 <= j < k && Tried(rules, cells[j], w) ==> cells[j].rule == Some(w)
    ensures rules[w].mode != Never
  {
    assert GreedyAt(text, rules, cells, k);
    EligibleMeans(rules, cells[..k], w);
    assert forall j :: 0 <= j < k ==> cells[..k][j] == cells[j];
    if rules[w].mode == FirstOnly {
      forall j | k < j < |cells| ensures cells[j].rule != Some(w) {
        assert GreedyAt(text, rules, cells, j);
        EligibleMeans(rules, cells[..j], w);
        assert cells[..j][k] == cells[k];
      }
    }
  }

  lemma {:induction false} CellsAscend(text: seq<Byte>, rules: seq<Rule>, cells: seq<Cell>, j: nat, k: nat)
    requires Greedy(text, rules, cells) && j < k < |cells|
    ensures cells[j].pos + cells[j].len <= cells[k].pos
  {
    assert GreedyAt(text, rules, cells, k);
    if j + 1 < k {
      CellsAscend(text, rules, cells, j, k - 1);
    }
  }

  // ----- What REPLACING leaves -----

  /** The replacement bytes over the first of the old bytes. */
  function Overlay(to: seq<Byte>, old_: seq<Byte>): (r: seq<Byte>)
    ensures |r| == |old_|
    ensures forall i :: 0 <= i < |old_| ==> r[i] == if i < |to| then to[i] else old_[i]
  {
    if |to| >= |old_| then to[..|old_|] else to + old_[|to|..]
  }

  /** The bytes a cell holds after replacing. */
  function CellBytes(text: seq<Byte>, tos: seq<seq<Byte>>, c: Cell): (r: seq<Byte>)
    ensures c.pos + c.len <= |text| ==> |r| == c.len
  {
    if c.pos + c.len > |text| then []
    else if c.rule.Some? && c.rule.value < |tos| then Overlay(tos[c.rule.value], text[c.pos..c.pos + c.len])
    else text[c.pos..c.pos + c.len]
  }

  /** The bytes the cells cover, after replacing. */
  function Rewritten(text: seq<Byte>, tos: seq<seq<Byte>>, cells: seq<Cell>): seq<Byte>
  {
    if cells == [] then []
    else Rewritten(text, tos, cells[..|cells|-1]) + CellBytes(text, tos, cells[|cells|-1])
  }

  lemma {:induction false} GreedyInit(text: seq<Byte>, rules: seq<Rule>, cells: seq<Cell>, n: nat)
    requires Greedy(text, rules, cells) && n <= |cells|
    ensures Greedy(text, rules, cells[..n])
  {
    forall k: nat | k < n ensures GreedyAt(text, rules, cells[..n], k) {
      assert GreedyAt(text, rules, cells, k);
      assert cells[..n][..k] == cells[..k];
    }
  }

  lemma {:induction false} GreedyCellFits(text: seq<Byte>, rules: seq<Rule>, cells: seq<Cell>, k: nat)
    requires Greedy(text, rules, cells) && k < |cells|
    ensures cells[k].pos == End(cells[..k]) && cells[k].pos + cells[k].len <= |text|
  {
    assert GreedyAt(text, rules, cells, k);
  }

  lemma {:induction false} RewrittenLength(text: seq<Byte>, rules: seq<Rule>, tos: seq<seq<Byte>>, cells: seq<Cell>)
    requires Greedy(text, rules, cells)
    ensures |Rewritten(text, tos, cells)| == End(cells)
  {
    if cells != [] {
      var last := |cells| - 1;
      GreedyCellFits(text, rules, cells, last);
      GreedyInit(text, rules, cells, last);
      RewrittenLength(text, rules, tos, cells[..last]);
    }
  }

  /** Byte `o` of a cell after replacing: the replacement where it reaches, the original bytes elsewhere. */
  function ByteAfter(text: seq<Byte>, tos: seq<seq<Byte>>, c: Cell, o: nat): Byte
    requires o < c.len && c.pos + c.len <= |text|
  {
    if c.rule.Some? && c.rule.value < |tos| && o < |tos[c.rule.value]| then tos[c.rule.value][o]
    else text[c.pos + o]
  }

  lemma {:induction false} RewrittenPrefix(text: seq<Byte>, tos: seq<seq<Byte>>, cells: seq<Cell>, n: nat)
    requires n <= |cells|
    ensures Rewritten(text, tos, cells[..n]) <= Rewritten(text, tos, cells)
  {
    if n < |cells| {
      var init := cells[..|cells|-1];
      assert init[..n] == cells[..n];
      RewrittenPrefix(text, tos, init, n);
      assert Rewritten(text, tos, init) <= Rewritten(text, tos, cells);
    } else {
      assert cells[..n] == cells;
    }
  }

  lemma {:induction false} IndexAfterPrefix(a: seq<Byte>, b: seq<Byte>, whole: seq<Byte>, o: nat)
    requires a + b <= whole && o < |b|
    ensures |a| + o < |whole| && whole[|a| + o] == b[o]
  {
    assert (a + b)[|a| + o] == b[o];
  }

  lemma {:induction false} CellByteAfter(text: seq<Byte>, tos: seq<seq<Byte>>, c: Cell, o: nat)
    requires o < c.len && c.pos + c.len <= |text|
    ensures o < |CellBytes(text, tos, c)| && CellBytes(text, tos, c)[o] == ByteAfter(text, tos, c, o)
  {
  }

  /** Replacing rewrites each matched cell with its phrase's replacement and leaves every other byte as it was. */
  lemma {:induction false} RewrittenAt(text: seq<Byte>, rules: seq<Rule>, tos: seq<seq<Byte>>, cells: seq<Cell>, k: nat, o: nat)
    requires Greedy(text, rules, cells) && k < |cells| && o < cells[k].len
    ensures cells[k].pos + cells[k].len <= |text|
    ensures cells[k].pos + o < |Rewritten(text, tos, cells)|
    ensures Rewritten(text, tos, cells)[cells[k].pos + o] == ByteAfter(text, tos, cells[k], o)
  {
    GreedyCellFits(text, rules, cells, k);
    GreedyInit(text, rules, cells, k);
    RewrittenLength(text, rules, tos, cells[..k]);
    RewrittenPrefix(text, tos, cells, k + 1);
    RewrittenSnoc(text, tos, cells, k);
    CellByteAfter(text, tos, cells[k], o);
    IndexAfterPrefix(Rewritten(text, tos, cells[..k]), CellBytes(text, tos, cells[k]), Rewritten(text, tos, cells), o);
  }

  lemma {:induction false} RewrittenSnoc(text: seq<Byte>, tos: seq<seq<Byte>>, cells: seq<Cell>, k: nat)
    requires k < |cells|
    ensures Rewritten(text, tos, cells[..k+1]) == Rewritten(text, tos, cells[..k]) + CellBytes(text, tos, cells[k])
  {
    assert cells[..k+1][..k] == cells[..k];
  }

  /** Every position of a covered text lies in exactly one cell. */
  lemma {:induction false} CellOf(text: seq<Byte>, rules: seq<Rule>, cells: seq<Cell>, x: nat) returns (k: nat)
    requires Greedy(text, rules, cells) && x < End(cells)
    ensures k < |cells| && cells[k].pos <= x < cells[k].pos + cells[k].len
    ensures forall j :: 0 <= j < |cells| && cells[j].pos <= x < cells[j].pos + cells[j].len ==> j == k
  {
    var last := |cells| - 1;
    assert GreedyAt(text, rules, cells, last);
    if cells[last].pos <= x {
      k := last;
    } else {
      GreedyInit(text, rules, cells, last);
      k := CellOf(text, rules, cells[..last], x);
    }
    forall j | 0 <= j < |cells| && cells[j].pos <= x < cells[j].pos + cells[j].len ensures j == k {
      if j < k { CellsAscend(text, rules, cells, j, k); }
      if k < j { CellsAscend(text, rules, cells, k, j); }
    }
  }

  /** Byte `x` of a rewritten text, read off the one cell that covers it. */
  lemma {:induction false} RewrittenByte(text: seq<Byte>, rules: seq<Rule>, tos: seq<seq<Byte>>, cells: seq<Cell>, x: nat) returns (k: nat)
    requires Greedy(text, rules, cells) && End(cells) == |text| && x < |text|
    ensures k < |cells| && cells[k].pos <= x < cells[k].pos + cells[k].len <= |text|
    ensures x < |Rewritten(text, tos, cells)|
    ensures Rewritten(text, tos, cells)[x] == ByteAfter(text, tos, cells[k], x - cells[k].pos)
  {
    k := CellOf(text, rules, cells, x);
    RewrittenAt(text, rules, tos, cells, k, x - cells[k].pos);
  }

  // ----- What TALLYING counts -----

  /** How many cells phrase `w` matched. */
  function MatchesOf(cells: seq<Cell>, w: nat): nat {
    if cells == [] then 0
    else MatchesOf(cells[..|cells|-1], w) + if cells[|cells|-1].rule == Some(w) then 1 else 0
  }

  function MatchedBytes(cells: seq<Cell>): nat {
    if cells == [] then 0
    else MatchedBytes(cells[..|cells|-1]) + if cells[|cells|-1].rule.Some? then cells[|cells|-1].len else 0
  }

  function Unmatched(cells: seq<Cell>): nat {
    if cells == [] then 0
    else Unmatched(cells[..|cells|-1]) + if cells[|cells|-1].rule.None? then 1 else 0
  }

  /** Matched lengths and unmatched positions make up the bytes scanned. */
  lemma {:induction false} BytesAreConserved(text: seq<Byte>, rules: seq<Rule>, cells: seq<Cell>)
    requires Greedy(text, rules, cells)
    ensures MatchedBytes(cells) + Unmatched(cells) == End(cells)
  {
    if cells != [] {
      var last := |cells| - 1;
      assert GreedyAt(text, rules, cells, last);
      GreedyInit(text, rules, cells, last);
      BytesAreConserved(text, rules, cells[..last]);
    }
  }

  // ----- Where LEADING matches -----

  /** The cell takes bytes of the phrase's region and is no match of the phrase. */
  predicate Foreign(r: Rule, c: Cell, p: nat) {
    c.rule != Some(p) && c.pos + c.len > r.region.start
  }

  /** The cell is a match that keeps LEADING from following on: of an earlier phrase, or one that reaches into the region. */
  predicate Parts(r: Rule, c: Cell, p: nat) {
    && c.rule.Some? && c.rule.value != p
    && c.pos + c.len > r.region.start
    && (c.rule.value < p || c.pos < r.region.start)
  }

  ghost predicate NoneForeign(r: Rule, cells: seq<Cell>, p: nat) {
    forall j :: 0 <= j < |cells| ==> !Foreign(r, cells[j], p)
  }

  ghost predicate NoneParts(r: Rule, cells: seq<Cell>, p: nat) {
    forall j :: 0 <= j < |cells| ==> !Parts(r, cells[j], p)
  }

  /** How far the matches of a phrase fall short of what has been scanned of its region. */
  ghost predicate RunSoFar(r: Rule, cells: seq<Cell>, p: nat) {
    var m, e := MatchesOf(cells, p), End(cells);
    if e <= r.region.start then m == 0 && NoneForeign(r, cells, p)
    else e - r.region.start >= m * |r.search| && (e - r.region.start == m * |r.search| <==> NoneForeign(r, cells, p))
  }

  lemma {:induction false} RunGrows(r: Rule, cells: seq<Cell>, c: Cell, p: nat)
    requires RunSoFar(r, cells, p) && c.pos == End(cells) && c.len > 0
    requires c.rule == Some(p) ==> c.pos >= r.region.start && c.len == |r.search|
    ensures RunSoFar(r, cells + [c], p)
  {
    var grown, m := cells + [c], MatchesOf(cells, p);
    assert grown[..|cells|] == cells && grown[|cells|] == c;
    assert (m + 1) * |r.search| == m * |r.search| + |r.search|;
    if NoneForeign(r, cells, p) && !Foreign(r, c, p) {
      assert NoneForeign(r, grown, p);
    }
    if NoneForeign(r, grown, p) {
      forall j | 0 <= j < |cells| ensures !Foreign(r, cells[j], p) { assert grown[j] == cells[j]; }
      assert !Foreign(r, grown[|cells|], p);
    }
  }

  lemma {:induction false} RunUpTo(text: seq<Byte>, rules: seq<Rule>, cells: seq<Cell>, p: nat, n: nat)
    requires Greedy(text, rules, cells) && p < |rules| && rules[p].mode != AnyByte && n <= |cells|
    ensures RunSoFar(rules[p], cells[..n], p)
  {
    if n > 0 {
      RunUpTo(text, rules, cells, p, n - 1);
      assert GreedyAt(text, rules, cells, n - 1);
      assert cells[..n] == cells[..n-1] + [cells[n-1]];
      RunGrows(rules[p], cells[..n-1], cells[n-1], p);
    }
  }

  /** Before a match of a LEADING phrase only such matches can take bytes of its region. */
  lemma {:induction false} ForeignIsParting(text: seq<Byte>, rules: seq<Rule>, cells: seq<Cell>, p: nat, k: nat, j: nat)
    requires Greedy(text, rules, cells) && p < |rules| && rules[p].mode == LeadingOnly
    requires j < k < |cells| && cells[k].rule == Some(p)
    ensures Foreign(rules[p], cells[j], p) <==> Parts(rules[p], cells[j], p)
  {
    MatchedCell(text, rules, cells, k, p);
    CellsAscend(text, rules, cells, j, k);
    assert GreedyAt(text, rules, cells, j) && GreedyAt(text, rules, cells, k);
  }

  /**
    The matches of a LEADING phrase run on from the start of its region, each where the one before
    it ends, if and only if no match of an earlier phrase, and none that reaches into the region,
    comes before.
  */
  lemma {:induction false} LeadingRunsOnIff(text: seq<Byte>, rules: seq<Rule>, cells: seq<Cell>, p: nat, k: nat)
    requires Greedy(text, rules, cells) && p < |rules| && rules[p].mode == LeadingOnly
    requires k < |cells| && cells[k].rule == Some(p)
    ensures cells[k].pos == rules[p].region.start + MatchesOf(cells[..k], p) * |rules[p].search|
      <==> NoneParts(rules[p], cells[..k], p)
  {
    RunUpTo(text, rules, cells, p, k);
    MatchedCell(text, rules, cells, k, p);
    assert GreedyAt(text, rules, cells, k);
    forall j: nat | j < k ensures Foreign(rules[p], cells[..k][j], p) <==> Parts(rules[p], cells[..k][j], p) {
      ForeignIsParting(text, rules, cells, p, k, j);
    }
    assert NoneForeign(rules[p], cells[..k], p) <==> NoneParts(rules[p], cells[..k], p);
  }
}
