/**
  Where the flat text comes from, line by line: every line that is kept and is no continuation puts
  its content area into the text, and which offsets point into the line their characters come from.
*/
module LineOrigins {
  import opened SourceReader
  import opened ContentSegments
  import opened LiteralContinuation
  import opened OffsetMap
  import opened KeptLines

  // ----- Kept lines contribute their content area -----

  /** Line `i` is no continuation, and neither is the next line after it that is not left out. */
  ghost predicate StandsAlone(lines: seq<SourceLine>, format: Format, includeDebug: bool, i: nat)
    requires i < |lines|
  {
    && !IsContinuationText(Body(lines[i]), format)
    && forall j :: i < j < |lines| && IsContinuationText(Body(lines[j]), format) && !IsDropped(Body(lines[j]), format, includeDebug) ==>
         exists k :: i < k < j && !IsDropped(Body(lines[k]), format, includeDebug)
  }

  /** The segments after more lines. */
  function SegmentsAfter(segments: seq<Segment>, lines: seq<SourceLine>, includeDebug: bool): seq<Segment>
    requires HasContent(lines)
  {
    if lines == [] then segments
    else
      var before, line := SegmentsAfter(segments, lines[..|lines|-1], includeDebug), lines[|lines|-1];
      if Kept(line, includeDebug) then AddLine(before, line) else before
  }

  lemma {:induction false} SegmentsInParts(a: seq<SourceLine>, b: seq<SourceLine>, includeDebug: bool)
    requires HasContent(a) && HasContent(b)
    ensures HasContent(a + b) && SegmentsOf(a + b, includeDebug) == SegmentsAfter(SegmentsOf(a, includeDebug), b, includeDebug)
  {
    if b == [] {
      assert a + b == a;
    } else {
      var init := b[..|b|-1];
      assert (a + b)[..|a + b| - 1] == a + init;
      SegmentsInParts(a, init, includeDebug);
    }
  }

  /** The first line that is kept, if any, is no continuation. */
  ghost predicate OpensAnew(lines: seq<SourceLine>, includeDebug: bool) {
    forall j :: 0 <= j < |lines| && IsKept(lines[j], includeDebug) && lines[j].IsContinuation() ==>
      exists k :: 0 <= k < j && IsKept(lines[k], includeDebug)
  }

  predicate IsKept(line: SourceLine, includeDebug: bool) {
    line.contentStart <= line.contentEnd <= |line.raw| && Kept(line, includeDebug)
  }

  /** More lines leave a segment alone that is not the last, and the last one too when they do not start by continuing it. */
  lemma {:induction false} LastStays(segments: seq<Segment>, lines: seq<SourceLine>, includeDebug: bool)
    requires segments != [] && HasContent(lines) && OpensAnew(lines, includeDebug)
    ensures var after := SegmentsAfter(segments, lines, includeDebug);
      if (forall k :: 0 <= k < |lines| ==> !IsKept(lines[k], includeDebug)) then after == segments
      else |after| > |segments| && after[|segments|-1] == segments[|segments|-1]
  {
    if lines != [] {
      var init, last := lines[..|lines|-1], |lines| - 1;
      assert lines[last] in lines;
      assert forall k :: 0 <= k < last ==> (IsKept(init[k], includeDebug) <==> IsKept(lines[k], includeDebug));
      OpensAnewInit(lines, init, includeDebug);
      LastStays(segments, init, includeDebug);
      if IsKept(lines[last], includeDebug) && forall k :: 0 <= k < last ==> !IsKept(init[k], includeDebug) {
        assert !lines[last].IsContinuation();
      }
    }
  }

  lemma {:induction false} OpensAnewInit(lines: seq<SourceLine>, init: seq<SourceLine>, includeDebug: bool)
    requires lines != [] && HasContent(lines) && OpensAnew(lines, includeDebug) && init == lines[..|lines|-1]
    ensures HasContent(init) && OpensAnew(init, includeDebug)
  {
    assert forall k :: 0 <= k < |init| ==> (IsKept(init[k], includeDebug) <==> IsKept(lines[k], includeDebug));
  }

  /** The lines after one that stands alone do not start by continuing it. */
  lemma {:induction false} RestOpensAnew(source: string, format: Format, lines: seq<SourceLine>, i: nat, rest: seq<SourceLine>, includeDebug: bool)
    requires LinesOf(source, format, lines) && i < |lines| && StandsAlone(lines, format, includeDebug, i) && rest == lines[i+1..]
    ensures HasContent(rest) && OpensAnew(rest, includeDebug)
  {
    AllHaveContent(source, format, lines);
    assert HasContent(rest);
    forall j | 0 <= j < |rest| && IsKept(rest[j], includeDebug) && rest[j].IsContinuation()
      ensures exists k :: 0 <= k < j && IsKept(rest[k], includeDebug)
    {
      KeptLine(source, format, lines, i + 1 + j, includeDebug);
      var k :| i < k < i + 1 + j && !IsDropped(Body(lines[k]), format, includeDebug);
      KeptLine(source, format, lines, k, includeDebug);
      assert rest[k - i - 1] == lines[k];
    }
  }

  lemma {:induction false} KeptLine(source: string, format: Format, lines: seq<SourceLine>, l: nat, includeDebug: bool)
    requires LinesOf(source, format, lines) && l < |lines|
    ensures IsKept(lines[l], includeDebug) <==> !IsDropped(Body(lines[l]), format, includeDebug)
    ensures lines[l].IsContinuation() <==> IsContinuationText(Body(lines[l]), format)
  {
    LineMeans(source, format, lines, l);
    KeptMeans(source, format, lines, l, includeDebug);
  }

  /** Where the content area of a line starts in the source. */
  function AreaStart(line: SourceLine): nat {
    line.globalOffset + (if line.format.Free? then 0 else if |Body(line)| < 7 then |Body(line)| else 7)
  }

  /**
    A line that is not left out, no continuation and not continued is one segment of the flat text:
    the characters of its content area, from where they stand in the source.
  */
  lemma {:induction false} LineContributes(source: string, format: Format, lines: seq<SourceLine>, i: nat, includeDebug: bool) returns (n: nat)
    requires LinesOf(source, format, lines) && i < |lines|
    requires !IsDropped(Body(lines[i]), format, includeDebug) && StandsAlone(lines, format, includeDebug, i)
    ensures HasContent(lines) && n < |SegmentsOf(lines, includeDebug)|
    ensures SegmentsOf(lines, includeDebug)[n] == Segment(ContentArea(Body(lines[i]), format), AreaStart(lines[i]), [])
  {
    var front, rest := lines[..i+1], lines[i+1..];
    var before := OpensAt(source, format, lines, i, front, includeDebug);
    RestOpensAnew(source, format, lines, i, rest, includeDebug);
    n := |before|;
    assert front + rest == lines;
    OpenedStays(lines, front, rest, includeDebug, before, Segment(ContentArea(Body(lines[i]), format), AreaStart(lines[i]), []));
  }

  lemma {:induction false} OpenedStays(lines: seq<SourceLine>, front: seq<SourceLine>, rest: seq<SourceLine>, includeDebug: bool,
                                       before: seq<Segment>, s: Segment)
    requires HasContent(front) && HasContent(rest) && lines == front + rest
    requires SegmentsOf(front, includeDebug) == before + [s] && OpensAnew(rest, includeDebug)
    ensures HasContent(lines) && |before| < |SegmentsOf(lines, includeDebug)| && SegmentsOf(lines, includeDebug)[|before|] == s
  {
    LastOfFrontStays(lines, front, rest, includeDebug, before + [s]);
  }

  lemma {:induction false} LastOfFrontStays(lines: seq<SourceLine>, front: seq<SourceLine>, rest: seq<SourceLine>, includeDebug: bool, segments: seq<Segment>)
    requires HasContent(front) && HasContent(rest) && lines == front + rest
    requires segments == SegmentsOf(front, includeDebug) && segments != [] && OpensAnew(rest, includeDebug)
    ensures HasContent(lines) && |segments| <= |SegmentsOf(lines, includeDebug)|
    ensures SegmentsOf(lines, includeDebug)[|segments|-1] == segments[|segments|-1]
  {
    LastStays(segments, rest, includeDebug);
    SegmentsInParts(front, rest, includeDebug);
  }

  lemma {:induction false} OpensAt(source: string, format: Format, lines: seq<SourceLine>, i: nat, front: seq<SourceLine>, includeDebug: bool)
    returns (before: seq<Segment>)
    requires LinesOf(source, format, lines) && i < |lines| && front == lines[..i+1]
    requires !IsDropped(Body(lines[i]), format, includeDebug) && !IsContinuationText(Body(lines[i]), format)
    ensures HasContent(front)
    ensures SegmentsOf(front, includeDebug) == before + [Segment(ContentArea(Body(lines[i]), format), AreaStart(lines[i]), [])]
  {
    AllHaveContent(source, format, lines);
    var init := lines[..i];
    assert front == init + [lines[i]] && HasContent(init);
    LineMeans(source, format, lines, i);
    KeptMeans(source, format, lines, i, includeDebug);
    SegmentsSnoc(init, lines[i], includeDebug);
    AreaStartMeans(source, format, lines, i);
    before := SegmentsOf(init, includeDebug);
  }

  lemma {:induction false} AreaStartMeans(source: string, format: Format, lines: seq<SourceLine>, i: nat)
    requires LinesOf(source, format, lines) && i < |lines|
    ensures ContentGlobal(lines[i]) == AreaStart(lines[i])
  {
    assert LineAt(lines, i, format);
  }

  /** The content area of such a line stands in the flat text, on a line of its own. */
  lemma {:induction false} LineInFlatText(source: string, format: Format, lines: seq<SourceLine>, i: nat, includeDebug: bool) returns (at: nat)
    requires LinesOf(source, format, lines) && i < |lines|
    requires !IsDropped(Body(lines[i]), format, includeDebug) && StandsAlone(lines, format, includeDebug, i)
    ensures HasContent(lines)
    ensures var flat, area := FlatText(lines, includeDebug), ContentArea(Body(lines[i]), format);
      && at + |area| <= |flat| && flat[at..at + |area|] == area
      && (at > 0 ==> flat[at-1] == '\n') && (at + |area| < |flat| ==> flat[at + |area|] == '\n')
  {
    var n := LineContributes(source, format, lines, i, includeDebug);
    var segments := SegmentsOf(lines, includeDebug);
    at := StartOf(segments, n);
    JoinedAt(segments, n);
    LineEndsInNewline(segments, n);
  }

  /** Continuation lines before any line to continue are skipped: nothing of them reaches the text. */
  lemma {:induction false} OrphansAreSkipped(source: string, format: Format, lines: seq<SourceLine>, front: seq<SourceLine>, includeDebug: bool)
    requires LinesOf(source, format, lines) && front <= lines
    requires forall l :: 0 <= l < |front| ==>
      IsDropped(Body(lines[l]), format, includeDebug) || IsContinuationText(Body(lines[l]), format)
    ensures HasContent(front) && SegmentsOf(front, includeDebug) == []
  {
    AllHaveContent(source, format, lines);
    if front != [] {
      var init, last := front[..|front|-1], |front| - 1;
      OrphansAreSkipped(source, format, lines, init, includeDebug);
      assert front[last] == lines[last] && HasContent(front);
      KeptLine(source, format, lines, last, includeDebug);
    }
  }

  // ----- The lines a segment is made of -----

  /** The kept lines of each segment: the line that opens it and those merged into it. */
  function GroupsOf(lines: seq<SourceLine>, includeDebug: bool): seq<seq<SourceLine>>
    requires HasContent(lines)
  {
    if lines == [] then []
    else
      var before, line := GroupsOf(lines[..|lines|-1], includeDebug), lines[|lines|-1];
      if Kept(line, includeDebug) then AddToGroups(before, line) else before
  }

  function AddToGroups(groups: seq<seq<SourceLine>>, line: SourceLine): seq<seq<SourceLine>> {
    if !line.IsContinuation() then groups + [[line]]
    else if groups == [] then []
    else groups[..|groups|-1] + [groups[|groups|-1] + [line]]
  }

  function LineEnd(line: SourceLine): nat { line.globalOffset + line.contentEnd }

  /** Where region `k` starts in the text. */
  function RegionStart(s: Segment, k: nat): nat
    requires k <= |s.conts|
  {
    if k == 0 then 0 else s.conts[k-1].start
  }

  /** Each region comes from its line: it starts in the line's content, and was followed by another before the content had ended. */
  ghost predicate ComesFrom(s: Segment, group: seq<SourceLine>) {
    && |group| == |s.conts| + 1
    && (forall k: nat :: k < |group| ==> RegionFrom(s, group, k))
    && End(s) == LineEnd(group[|group|-1])
  }

  ghost predicate RegionFrom(s: Segment, group: seq<SourceLine>, k: nat)
    requires k < |group| == |s.conts| + 1
  {
    && ContentGlobal(group[k]) <= Shift(s, k) + RegionStart(s, k)
    && (k < |s.conts| ==> Shift(s, k) + s.conts[k].start <= LineEnd(group[k]) + 1)
  }

  ghost predicate AllComeFrom(segments: seq<Segment>, groups: seq<seq<SourceLine>>) {
    |segments| == |groups| && forall i :: 0 <= i < |segments| ==> ComesFrom(segments[i], groups[i])
  }

  lemma {:induction false} ContinuedComesFrom(s: Segment, group: seq<SourceLine>, line: SourceLine)
    requires ComesFrom(s, group) && line.contentStart <= line.contentEnd <= |line.raw|
    ensures ComesFrom(Continued(s, line.ContentText(), ContentGlobal(line)), group + [line])
  {
    var cont := line.ContentText();
    var t, grown := Continued(s, cont, ContentGlobal(line)), group + [line];
    FrontAtMostOneLonger(s.text, cont);
    assert t.conts[..|s.conts|] == s.conts;
    forall k: nat | k < |grown| ensures RegionFrom(t, grown, k) {
      if k < |group| {
        assert RegionFrom(s, group, k);
        assert Shift(t, k) == Shift(s, k) && RegionStart(t, k) == RegionStart(s, k);
      }
    }
  }

  lemma {:induction false} AddLineComesFrom(segments: seq<Segment>, groups: seq<seq<SourceLine>>, line: SourceLine)
    requires AllComeFrom(segments, groups) && line.contentStart <= line.contentEnd <= |line.raw|
    ensures AllComeFrom(AddLine(segments, line), AddToGroups(groups, line))
  {
    if !line.IsContinuation() {
      OpensSegment(line);
      AllComeFromSnoc(segments, groups, Segment(line.ContentText(), ContentGlobal(line), []), [line]);
    } else if segments != [] {
      var last := |segments| - 1;
      ContinuedComesFrom(segments[last], groups[last], line);
      AllComeFromSnoc(segments[..last], groups[..last], Continued(segments[last], line.ContentText(), ContentGlobal(line)), groups[last] + [line]);
    }
  }

  lemma {:induction false} AllComeFromSnoc(segments: seq<Segment>, groups: seq<seq<SourceLine>>, s: Segment, group: seq<SourceLine>)
    requires AllComeFrom(segments, groups) && ComesFrom(s, group)
    ensures AllComeFrom(segments + [s], groups + [group])
  {
  }

  lemma {:induction false} SegmentsComeFrom(lines: seq<SourceLine>, includeDebug: bool)
    requires HasContent(lines)
    ensures AllComeFrom(SegmentsOf(lines, includeDebug), GroupsOf(lines, includeDebug))
  {
    if lines != [] {
      var init, line := lines[..|lines|-1], lines[|lines|-1];
      assert line in lines;
      SegmentsComeFrom(init, includeDebug);
      AddLineComesFrom(SegmentsOf(init, includeDebug), GroupsOf(init, includeDebug), line);
    }
  }

  lemma {:induction false} OpensSegment(line: SourceLine)
    requires line.contentStart <= line.contentEnd <= |line.raw|
    ensures ComesFrom(Segment(line.ContentText(), ContentGlobal(line), []), [line])
  {
  }

  // ----- Offsets point into the lines of their regions -----

  /** The offset of position `j` points into the line its region comes from, or just past its content. */
  ghost predicate InOwnLine(s: Segment, group: seq<SourceLine>, j: nat)
    requires |group| == |s.conts| + 1
  {
    ContentGlobal(group[Entered(s, j)]) <= Shift(s, Entered(s, j)) + j <= LineEnd(group[Entered(s, j)])
  }

  /** A region is entered at `j` beyond the content of its line: a merge had cut it, or one before it, away. */
  ghost predicate EnteredTooLate(s: Segment, group: seq<SourceLine>, j: nat)
    requires |group| == |s.conts| + 1
  {
    Entered(s, j) > EnteredBefore(s, j) && Shift(s, Entered(s, j)) + j > LineEnd(group[Entered(s, j)])
  }

  lemma {:induction false} EnteredFromStart(s: Segment, j: nat)
    ensures RegionStart(s, Entered(s, j)) <= j
  {
    if j > 0 { EnteredFromStart(s, j - 1); }
  }

  /** Every offset of a segment points into the line of its region if and only if no region is entered too late. */
  lemma {:induction false} OwnLinesIff(s: Segment, group: seq<SourceLine>)
    requires ComesFrom(s, group)
    ensures (forall j: nat :: j < |s.text| ==> InOwnLine(s, group, j)) <==> (forall j: nat :: j < |s.text| ==> !EnteredTooLate(s, group, j))
  {
    forall j: nat | j < |s.text| ensures InOwnLine(s, group, j) <==> !EnteredTooLate(s, group, j) {
      InOwnLineIff(s, group, j);
    }
    if forall j: nat :: j < |s.text| ==> !EnteredTooLate(s, group, j) {
      forall j: nat | j < |s.text| ensures InOwnLine(s, group, j) {
        assert !EnteredTooLate(s, group, j);
      }
    }
    if forall j: nat :: j < |s.text| ==> InOwnLine(s, group, j) {
      forall j: nat | j < |s.text| ensures !EnteredTooLate(s, group, j) {
        assert InOwnLine(s, group, j);
      }
    }
  }

  lemma {:induction false} InOwnLineIff(s: Segment, group: seq<SourceLine>, j: nat)
    requires ComesFrom(s, group) && j < |s.text|
    ensures InOwnLine(s, group, j) <==> !EnteredTooLate(s, group, j)
  {
    var k := Entered(s, j);
    EnteredFromStart(s, j);
    assert RegionFrom(s, group, k);
  }

  /** Unless a merge cut a region away, no region is entered too late. */
  lemma {:induction false} AscendingIsInTime(s: Segment, group: seq<SourceLine>, j: nat)
    requires ComesFrom(s, group) && Ascending(s) && j < |s.text|
    ensures !EnteredTooLate(s, group, j) && InOwnLine(s, group, j)
  {
    var k := Entered(s, j);
    EnteredInOrder(s, j);
    assert RegionFrom(s, group, k);
  }

  // ----- No offset points into a line that is left out -----

  /** The lines of the groups are kept lines of the source, and only the last line of a group can be its last line. */
  lemma {:induction false} GroupLines(lines: seq<SourceLine>, includeDebug: bool, i: nat, k: nat) returns (l: nat)
    requires HasContent(lines) && i < |GroupsOf(lines, includeDebug)| && k < |GroupsOf(lines, includeDebug)[i]|
    ensures l < |lines| && lines[l] == GroupsOf(lines, includeDebug)[i][k] && lines[l] in lines && Kept(lines[l], includeDebug)
    ensures k + 1 < |GroupsOf(lines, includeDebug)[i]| ==> l + 1 < |lines|
  {
    var init, line := lines[..|lines|-1], lines[|lines|-1];
    assert line in lines && HasContent(init);
    var before, groups := GroupsOf(init, includeDebug), GroupsOf(lines, includeDebug);
    if i < |before| && k < |before[i]| && groups[i][k] == before[i][k] {
      l := GroupLines(init, includeDebug, i, k);
    } else {
      l := |lines| - 1;
    }
  }

  /** The characters of a line in the source. */
  predicate InLine(line: SourceLine, x: nat) {
    line.globalOffset <= x < line.globalOffset + |line.raw|
  }

  lemma {:induction false} OneLineOnly(source: string, format: Format, lines: seq<SourceLine>, i: nat, j: nat, x: nat)
    requires LinesOf(source, format, lines) && i < |lines| && j < |lines| && InLine(lines[i], x) && InLine(lines[j], x)
    ensures i == j
  {
    if i < j { LineBeforeLine(source, format, lines, i, j); }
    if j < i { LineBeforeLine(source, format, lines, j, i); }
  }

  /** The kept line that region `k` of a segment comes from. */
  lemma {:induction false} LineOfRegion(source: string, format: Format, lines: seq<SourceLine>, includeDebug: bool, i: nat, k: nat) returns (l: nat)
    requires LinesOf(source, format, lines) && HasContent(lines) && i < |SegmentsOf(lines, includeDebug)|
    requires k <= |SegmentsOf(lines, includeDebug)[i].conts|
    ensures l < |lines| && !IsDropped(Body(lines[l]), format, includeDebug)
    ensures i < |GroupsOf(lines, includeDebug)| && ComesFrom(SegmentsOf(lines, includeDebug)[i], GroupsOf(lines, includeDebug)[i])
    ensures var group := GroupsOf(lines, includeDebug)[i];
      lines[l] == group[k] && (k + 1 < |group| ==> l + 1 < |lines|)
  {
    SegmentsComeFrom(lines, includeDebug);
    l := GroupLines(lines, includeDebug, i, k);
    KeptMeans(source, format, lines, l, includeDebug);
  }

  /** Where an offset of a segment without cut regions points: into a kept line. */
  lemma {:induction false} OffsetInKeptLine(source: string, format: Format, lines: seq<SourceLine>, includeDebug: bool,
                                            content: string, offsets: seq<nat>, i: nat, j: nat) returns (l: nat)
    requires LinesOf(source, format, lines) && HasContent(lines)
    requires var segments := SegmentsOf(lines, includeDebug);
      Maps(segments, content, offsets) && i < |segments| && Ascending(segments[i]) && j < |segments[i].text|
    ensures l < |lines| && !IsDropped(Body(lines[l]), format, includeDebug)
    ensures StartOf(SegmentsOf(lines, includeDebug), i) + j < |offsets|
    ensures InLine(lines[l], offsets[StartOf(SegmentsOf(lines, includeDebug), i) + j])
  {
    var segments := SegmentsOf(lines, includeDebug);
    var k := Entered(segments[i], j);
    l := LineOfRegion(source, format, lines, includeDebug, i, k);
    AscendingInside(source, format, lines, l, segments[i], GroupsOf(lines, includeDebug)[i], j, k);
    EnteredInOrder(segments[i], j);
    MappedCharacter(segments, content, offsets, i, k, j);
  }

  lemma {:induction false} AscendingInside(source: string, format: Format, lines: seq<SourceLine>, l: nat,
                                           s: Segment, group: seq<SourceLine>, j: nat, k: nat)
    requires LinesOf(source, format, lines) && l < |lines| && ComesFrom(s, group) && j < |s.text| && k == Entered(s, j)
    requires lines[l] == group[k] && (k + 1 < |group| ==> l + 1 < |lines|) && Ascending(s)
    ensures 0 <= Shift(s, k) + j && InLine(lines[l], Shift(s, k) + j)
  {
    AscendingIsInTime(s, group, j);
    InsideTheLine(source, format, lines, l, s, group, j, k);
  }

  lemma {:induction false} InsideTheLine(source: string, format: Format, lines: seq<SourceLine>, l: nat,
                                         s: Segment, group: seq<SourceLine>, j: nat, k: nat)
    requires LinesOf(source, format, lines) && l < |lines| && ComesFrom(s, group) && j < |s.text| && k == Entered(s, j)
    requires lines[l] == group[k] && (k + 1 < |group| ==> l + 1 < |lines|) && InOwnLine(s, group, j)
    ensures 0 <= Shift(s, k) + j && InLine(lines[l], Shift(s, k) + j)
  {
    assert LineAt(lines, l, format);
    if l + 1 < |lines| { AfterContent(source, format, lines, l); }
  }

  /**
    Unless a merge cut an earlier region away, no offset of the flat text points into a line that is
    left out: neither those of characters, nor those of the newlines between segments.
  */
  lemma {:induction false} NoOffsetInDroppedLine(source: string, format: Format, lines: seq<SourceLine>, includeDebug: bool,
                                                 content: string, offsets: seq<nat>, p: nat, d: nat)
    requires LinesOf(source, format, lines) && HasContent(lines)
    requires Maps(SegmentsOf(lines, includeDebug), content, offsets) && p < |content|
    requires d < |lines| && IsDropped(Body(lines[d]), format, includeDebug)
    requires forall i :: 0 <= i < |SegmentsOf(lines, includeDebug)| ==> Ascending(SegmentsOf(lines, includeDebug)[i])
    ensures !InLine(lines[d], offsets[p])
  {
    var segments := SegmentsOf(lines, includeDebug);
    var i := SegmentOf(segments, p);
    var l;
    if StartOf(segments, i) <= p {
      l := OffsetInKeptLine(source, format, lines, includeDebug, content, offsets, i, p - StartOf(segments, i));
    } else {
      l := SeparatorInKeptLine(source, format, lines, includeDebug, content, offsets, i);
    }
    if InLine(lines[d], offsets[p]) { OneLineOnly(source, format, lines, d, l, offsets[p]); }
  }

  lemma {:induction false} SeparatorInKeptLine(source: string, format: Format, lines: seq<SourceLine>, includeDebug: bool,
                                               content: string, offsets: seq<nat>, i: nat) returns (l: nat)
    requires LinesOf(source, format, lines) && HasContent(lines)
    requires Maps(SegmentsOf(lines, includeDebug), content, offsets) && 0 < i < |SegmentsOf(lines, includeDebug)|
    ensures l < |lines| && !IsDropped(Body(lines[l]), format, includeDebug)
    ensures StartOf(SegmentsOf(lines, includeDebug), i) - 1 < |offsets|
    ensures InLine(lines[l], offsets[StartOf(SegmentsOf(lines, includeDebug), i) - 1])
  {
    l := SeparatorPointsAtLineEnd(source, format, lines, includeDebug, content, offsets, i);
    LineIsNotLast(source, format, lines, includeDebug, i, l);
    AfterContent(source, format, lines, l);
    KeptMeans(source, format, lines, l, includeDebug);
  }
}
