/**
  The flat text of all segments and the source offset of each of its characters. The offsets are
  strictly increasing whatever was merged, which is what keeps token spans in order.
*/
module OffsetMap {
  import opened SourceReader
  import opened ContentSegments

  // ----- What merging keeps -----

  /** How far region `k` of a segment is shifted: source offset less position; region 0 is the first line. */
  function Shift(s: Segment, k: nat): int
    requires k <= |s.conts|
  {
    if k == 0 then s.globalOffset else s.conts[k-1].global - s.conts[k-1].start
  }

  /** Where the segment's last line ends in the source. */
  function End(s: Segment): int {
    Shift(s, |s.conts|) + |s.text|
  }

  /** Later regions are shifted at least as far, and the last one starts inside the text. */
  ghost predicate Sound(s: Segment) {
    && (forall j: nat, k: nat :: j <= k <= |s.conts| ==> Shift(s, j) <= Shift(s, k))
    && (s.conts != [] ==> s.conts[|s.conts|-1].start <= |s.text|)
  }

  /** Segments are sound and stand one after the other in the source, with something between them. */
  ghost predicate InOrder(segments: seq<Segment>) {
    && (forall i :: 0 <= i < |segments| ==> Sound(segments[i]))
    && (forall i, j :: 0 <= i < j < |segments| ==> End(segments[i]) < segments[j].globalOffset)
  }

  ghost predicate EndsBefore(segments: seq<Segment>, x: nat) {
    forall i :: 0 <= i < |segments| ==> End(segments[i]) < x
  }

  /** Merging never lengthens the previous text by more than one character. */
  lemma {:induction false} FrontAtMostOneLonger(text: string, cont: string)
    ensures |Front(text, cont)| <= |text| + 1
  {
  }

  /** A merge keeps a segment sound, even when it cuts the text back into an earlier region. */
  lemma {:induction false} ContinuedIsSound(s: Segment, cont: string, contGlobal: nat)
    requires Sound(s) && End(s) < contGlobal
    ensures Sound(Continued(s, cont, contGlobal))
    ensures End(Continued(s, cont, contGlobal)) == contGlobal + |cont|
  {
    FrontAtMostOneLonger(s.text, cont);
    var t, last := Continued(s, cont, contGlobal), |s.conts|;
    assert Shift(t, last + 1) >= Shift(s, last);
    forall j: nat, k: nat | j <= k <= |t.conts| ensures Shift(t, j) <= Shift(t, k) {
      assert j <= last ==> Shift(t, j) == Shift(s, j) <= Shift(s, last);
      assert k <= last ==> Shift(t, k) == Shift(s, k);
    }
  }

  /** Each line's content ends before the next line. */
  ghost predicate LinesInOrder(lines: seq<SourceLine>) {
    && HasContent(lines)
    && forall i, j :: 0 <= i < j < |lines| ==> lines[i].globalOffset + lines[i].contentEnd < lines[j].globalOffset
  }

  ghost predicate LinesBefore(lines: seq<SourceLine>, x: nat) {
    forall line :: line in lines ==> line.globalOffset + line.contentEnd < x
  }

  lemma {:induction false} AppendInOrder(segments: seq<Segment>, s: Segment, x: nat)
    requires InOrder(segments) && EndsBefore(segments, s.globalOffset)
    requires Sound(s) && End(s) < x
    ensures InOrder(segments + [s]) && EndsBefore(segments + [s], x)
  {
    assert s.globalOffset <= End(s) by { assert Shift(s, 0) <= Shift(s, |s.conts|); }
  }

  lemma {:induction false} InitInOrder(segments: seq<Segment>)
    requires InOrder(segments) && segments != []
    ensures var init, last := segments[..|segments|-1], segments[|segments|-1];
      InOrder(init) && EndsBefore(init, last.globalOffset) && Sound(last)
  {
  }

  lemma {:induction false} AddLineInOrder(segments: seq<Segment>, line: SourceLine, x: nat)
    requires InOrder(segments) && EndsBefore(segments, line.globalOffset)
    requires line.contentStart <= line.contentEnd <= |line.raw| && line.globalOffset + line.contentEnd < x
    ensures InOrder(AddLine(segments, line)) && EndsBefore(AddLine(segments, line), x)
  {
    if !line.IsContinuation() {
      AppendInOrder(segments, Segment(line.ContentText(), ContentGlobal(line), []), x);
    } else if segments != [] {
      var init, last := segments[..|segments|-1], segments[|segments|-1];
      InitInOrder(segments);
      ContinuedIsSound(last, line.ContentText(), ContentGlobal(line));
      AppendInOrder(init, Continued(last, line.ContentText(), ContentGlobal(line)), x);
    }
  }

  /** The segments of lines that stand one after the other do so too. */
  lemma {:induction false} SegmentsInOrder(lines: seq<SourceLine>, includeDebug: bool, x: nat)
    requires LinesInOrder(lines) && LinesBefore(lines, x)
    ensures InOrder(SegmentsOf(lines, includeDebug)) && EndsBefore(SegmentsOf(lines, includeDebug), x)
  {
    if lines != [] {
      var init, line := lines[..|lines|-1], lines[|lines|-1];
      SegmentsInOrder(init, includeDebug, line.globalOffset);
      assert line in lines;
      if Kept(line, includeDebug) {
        AddLineInOrder(SegmentsOf(init, includeDebug), line, x);
      }
    }
  }

  // ----- The offsets of one segment -----

  predicate Increasing(offsets: seq<nat>) {
    forall i, j :: 0 <= i < j < |offsets| ==> offsets[i] < offsets[j]
  }

  /** Position `j` lies in region `k`. */
  predicate InRegion(s: Segment, k: nat, j: nat) {
    && k <= |s.conts|
    && (k > 0 ==> s.conts[k-1].start <= j)
    && (k < |s.conts| ==> j < s.conts[k].start)
  }

  /** Each region starts after the one before it: no merge cut an earlier region away. */
  predicate Ascending(s: Segment) {
    forall j, k :: 0 <= j < k < |s.conts| ==> s.conts[j].start < s.conts[k].start
  }

  lemma {:induction false} OneRegion(s: Segment, k: nat, l: nat, j: nat)
    requires Ascending(s) && InRegion(s, k, j) && InRegion(s, l, j)
    ensures k == l
  {
  }

  /** The offsets of one segment's own characters: within the segment's stretch of the source, and what their regions give. */
  ghost predicate OwnOffsets(s: Segment, offsets: seq<nat>) {
    && |offsets| == |s.text| && Increasing(offsets)
    && (forall j :: 0 <= j < |offsets| ==> s.globalOffset + j <= offsets[j] < End(s))
    && FollowsRegions(s, offsets)
  }

  /** The region in force at position `j`: at each position at most one region is entered, in order. */
  function Entered(s: Segment, j: nat): (k: nat)
    ensures k <= |s.conts|
    decreases j, 1
  {
    var before := EnteredBefore(s, j);
    if before < |s.conts| && s.conts[before].start <= j then before + 1 else before
  }

  function EnteredBefore(s: Segment, j: nat): (k: nat)
    ensures k <= |s.conts|
    decreases j, 0
  {
    if j == 0 then 0 else Entered(s, j - 1)
  }

  /** Unless a region was cut away, the region in force is the one the position lies in. */
  lemma {:induction false} EnteredIsRegion(s: Segment, k: nat, j: nat)
    requires Ascending(s) && InRegion(s, k, j)
    ensures Entered(s, j) == k
  {
    EnteredInOrder(s, j);
    OneRegion(s, Entered(s, j), k, j);
  }

  lemma {:induction false} EnteredInOrder(s: Segment, j: nat)
    requires Ascending(s)
    ensures InRegion(s, Entered(s, j), j)
  {
    if j > 0 {
      EnteredInOrder(s, j - 1);
      var before := Entered(s, j - 1);
      assert before + 1 < |s.conts| ==> s.conts[before].start < s.conts[before + 1].start;
    } else if |s.conts| > 1 {
      assert s.conts[0].start < s.conts[1].start;
    }
  }

  /** Each offset is what the region in force at its position gives. */
  ghost predicate FollowsRegions(s: Segment, offsets: seq<nat>) {
    forall j: nat :: j < |offsets| ==> offsets[j] == Shift(s, Entered(s, j)) + j
  }

  /** The inner loop of `Lexer::new`: at each position at most one region is entered. */
  method SegmentOffsets(s: Segment) returns (offsets: seq<nat>)
    requires Sound(s)
    ensures OwnOffsets(s, offsets)
  {
    offsets := [];
    var next, base, start := 0, s.globalOffset, 0;
    ghost var shift: int := s.globalOffset;
    for j := 0 to |s.text|
      invariant start <= j && shift == base - start && AtOffset(s, next, shift, offsets, j)
    {
      OffsetTurn(s, next, shift, offsets, j);
      if next < |s.conts| && j >= s.conts[next].start {
        start, base := s.conts[next].start, s.conts[next].global;
        next, shift := next + 1, s.conts[next].global - s.conts[next].start;
      }
      var offset := base + (j - start);
      assert offset == shift + j;
      offsets := offsets + [offset];
    }
    AllOffsets(s, next, shift, offsets);
  }

  /** The offsets before position `j`, with the region that is entered there last. */
  ghost predicate AtOffset(s: Segment, next: nat, shift: int, offsets: seq<nat>, j: nat) {
    && next == EnteredBefore(s, j) && shift == Shift(s, next)
    && |offsets| == j && Increasing(offsets)
    && (forall k :: 0 <= k < j ==> s.globalOffset + k <= offsets[k] <= shift + k)
    && FollowsRegions(s, offsets)
  }

  /** The same once the region that starts at `j`, if any, is entered. */
  ghost predicate InOffset(s: Segment, next: nat, shift: int, offsets: seq<nat>, j: nat) {
    && next == Entered(s, j) && shift == Shift(s, next) && s.globalOffset <= shift
    && |offsets| == j && Increasing(offsets)
    && (forall k :: 0 <= k < j ==> s.globalOffset + k <= offsets[k] <= shift + k)
    && FollowsRegions(s, offsets)
  }

  lemma {:induction false} EntersRegion(s: Segment, next: nat, shift: int, offsets: seq<nat>, j: nat)
    requires Sound(s) && AtOffset(s, next, shift, offsets, j)
    ensures if next < |s.conts| && j >= s.conts[next].start
      then InOffset(s, next + 1, s.conts[next].global - s.conts[next].start, offsets, j)
      else InOffset(s, next, shift, offsets, j)
  {
    assert Shift(s, 0) <= Shift(s, next);
    if next < |s.conts| { assert Shift(s, next) <= Shift(s, next + 1); }
  }

  lemma {:induction false} OffsetNext(s: Segment, next: nat, shift: int, offsets: seq<nat>, j: nat)
    requires InOffset(s, next, shift, offsets, j)
    ensures AtOffset(s, next, shift, offsets + [shift + j], j + 1)
  {
  }

  /** One turn of the loop: a region may be entered, and one more offset is known. */
  lemma {:induction false} OffsetTurn(s: Segment, next: nat, shift: int, offsets: seq<nat>, j: nat)
    requires Sound(s) && AtOffset(s, next, shift, offsets, j)
    ensures if next < |s.conts| && j >= s.conts[next].start
      then
        var entered := s.conts[next].global - s.conts[next].start;
        entered + j >= 0 && AtOffset(s, next + 1, entered, offsets + [entered + j], j + 1)
      else shift + j >= 0 && AtOffset(s, next, shift, offsets + [shift + j], j + 1)
  {
    EntersRegion(s, next, shift, offsets, j);
    if next < |s.conts| && j >= s.conts[next].start {
      OffsetNext(s, next + 1, s.conts[next].global - s.conts[next].start, offsets, j);
    } else {
      OffsetNext(s, next, shift, offsets, j);
    }
  }

  lemma {:induction false} AllOffsets(s: Segment, next: nat, shift: int, offsets: seq<nat>)
    requires Sound(s) && AtOffset(s, next, shift, offsets, |s.text|)
    ensures OwnOffsets(s, offsets)
  {
    assert Shift(s, next) <= Shift(s, |s.conts|);
  }

  // ----- The flat text -----

  /** The segments' texts with a newline between them. */
  function Joined(segments: seq<Segment>): string {
    if segments == [] then []
    else if |segments| == 1 then segments[0].text
    else Joined(segments[..|segments|-1]) + "\n" + segments[|segments|-1].text
  }

  /** Where segment `i` starts in the flat text. */
  function StartOf(segments: seq<Segment>, i: nat): nat
    requires i < |segments|
  {
    if i == 0 then 0 else |Joined(segments[..i])| + 1
  }

  /** The offsets of segment `i`, and of the newline before it, are the ones its regions give. */
  ghost predicate MappedAt(segments: seq<Segment>, offsets: seq<nat>, i: nat)
    requires i < |segments|
  {
    var s, from := segments[i], StartOf(segments, i);
    && from + |s.text| <= |offsets|
    && (i > 0 ==> offsets[from - 1] == End(segments[i-1]))
    && FollowsRegions(s, offsets[from..from + |s.text|])
  }

  /** One offset per character, strictly increasing, each what its segment says. */
  ghost predicate Maps(segments: seq<Segment>, content: string, offsets: seq<nat>) {
    && content == Joined(segments) && |offsets| == |content| && Increasing(offsets)
    && (forall i: nat :: i < |segments| ==> MappedAt(segments, offsets, i))
  }

  ghost predicate Below(offsets: seq<nat>, x: int) {
    forall k :: 0 <= k < |offsets| ==> offsets[k] < x
  }

  lemma {:induction false} IncreasingAppend(a: seq<nat>, b: seq<nat>, x: int)
    requires Increasing(a) && Increasing(b) && Below(a, x) && forall k :: 0 <= k < |b| ==> x <= b[k]
    ensures Increasing(a + b)
  {
  }

  lemma {:induction false} StartOfInit(segments: seq<Segment>, n: nat, i: nat)
    requires i < n <= |segments|
    ensures StartOf(segments[..n], i) == StartOf(segments, i)
  {
    assert segments[..n][..i] == segments[..i];
  }

  /** Appending leaves the earlier segments mapped. */
  lemma {:induction false} StillMapped(segments: seq<Segment>, offsets: seq<nat>, more: seq<nat>, n: nat, i: nat)
    requires i < n < |segments| && MappedAt(segments[..n], offsets, i)
    ensures MappedAt(segments[..n+1], offsets + more, i)
  {
    StartOfInit(segments, n, i);
    StartOfInit(segments, n + 1, i);
    var from, to := StartOf(segments, i), StartOf(segments, i) + |segments[i].text|;
    assert (offsets + more)[from..to] == offsets[from..to];
  }

  /** The new segment `n` is mapped once its newline and offsets are appended. */
  lemma {:induction false} NowMapped(segments: seq<Segment>, offsets: seq<nat>, own: seq<nat>, n: nat, upTo: seq<Segment>, grown: seq<nat>)
    requires n < |segments| && upTo == segments[..n+1] && grown == offsets + own && |offsets| == StartOf(segments, n) && OwnOffsets(segments[n], own)
    requires n > 0 ==> offsets[|offsets|-1] == End(segments[n-1])
    ensures MappedAt(upTo, grown, n)
  {
    StartOfInit(segments, n + 1, n);
    assert grown[|offsets|..|offsets| + |own|] == own;
  }

  lemma {:induction false} JoinedNext(segments: seq<Segment>, n: nat)
    requires n < |segments|
    ensures Joined(segments[..n+1]) == if n == 0 then segments[0].text else Joined(segments[..n]) + "\n" + segments[n].text
  {
    assert segments[..n+1][..n] == segments[..n];
  }

  /** The offset of the newline before segment `n`: where the segment before ends. */
  function Separator(segments: seq<Segment>, n: nat): seq<int>
    requires n < |segments|
  {
    if n == 0 then [] else [End(segments[n-1])]
  }

  lemma {:induction false} SeparatedIncreasing(segments: seq<Segment>, offsets: seq<nat>, n: nat) returns (separated: seq<nat>)
    requires InOrder(segments) && n < |segments| && Increasing(offsets)
    requires if n == 0 then offsets == [] else Below(offsets, End(segments[n-1]))
    ensures separated == offsets + Separator(segments, n)
    ensures Increasing(separated) && Below(separated, segments[n].globalOffset)
  {
    separated := offsets;
    if n > 0 {
      var end := End(segments[n-1]);
      assert 0 <= Shift(segments[n-1], 0) <= end;
      IncreasingAppend(offsets, [end], end);
      separated := offsets + [end];
    }
  }

  /** The first `n` segments are flattened, and the next offset can only be larger. */
  ghost predicate MappedUpTo(segments: seq<Segment>, n: nat, content: string, offsets: seq<nat>)
    requires n <= |segments|
  {
    && Maps(segments[..n], content, offsets)
    && (if n == 0 then offsets == [] else Below(offsets, End(segments[n-1])))
  }

  lemma {:induction false} GrownIncreasing(segments: seq<Segment>, n: nat, offsets: seq<nat>, own: seq<nat>) returns (grown: seq<nat>)
    requires InOrder(segments) && n < |segments| && Increasing(offsets) && OwnOffsets(segments[n], own)
    requires if n == 0 then offsets == [] else Below(offsets, End(segments[n-1]))
    ensures grown == offsets + Separator(segments, n) + own
    ensures Increasing(grown) && Below(grown, End(segments[n]))
  {
    var separated := SeparatedIncreasing(segments, offsets, n);
    grown := separated + own;
    IncreasingAppend(separated, own, segments[n].globalOffset);
    BelowEnd(segments[n], separated, own);
  }

  lemma {:induction false} GrownMapped(segments: seq<Segment>, n: nat, content: string, offsets: seq<nat>, own: seq<nat>, separated: seq<nat>,
                                       upTo: seq<Segment>, grown: seq<nat>)
    requires n < |segments| && Maps(segments[..n], content, offsets) && OwnOffsets(segments[n], own)
    requires separated == offsets + Separator(segments, n) && upTo == segments[..n+1] && grown == separated + own
    ensures forall i: nat :: i <= n ==> MappedAt(upTo, grown, i)
  {
    LengthsAgree(segments, n, content, offsets, own);
    assert offsets <= grown;
    forall i: nat | i <= n ensures MappedAt(upTo, grown, i) {
      if i < n {
        EarlierMapped(segments, content, offsets, n, upTo, grown, i);
      } else {
        NowMapped(segments, separated, own, n, upTo, grown);
      }
    }
  }

  /** Appending one segment, and a newline before it, keeps the map right. */
  lemma {:induction false} OneMoreSegment(segments: seq<Segment>, n: nat, content: string, offsets: seq<nat>, own: seq<nat>) returns (grown: seq<nat>)
    requires InOrder(segments) && n < |segments| && MappedUpTo(segments, n, content, offsets)
    requires OwnOffsets(segments[n], own)
    ensures grown == offsets + Separator(segments, n) + own
    ensures MappedUpTo(segments, n + 1, Joined(segments[..n+1]), grown)
  {
    grown := GrownIncreasing(segments, n, offsets, own);
    LengthsAgree(segments, n, content, offsets, own);
    GrownMapped(segments, n, content, offsets, own, offsets + Separator(segments, n), segments[..n+1], grown);
    MapsOneMore(segments[..n+1], grown, n);
  }

  lemma {:induction false} LengthsAgree(segments: seq<Segment>, n: nat, content: string, offsets: seq<nat>, own: seq<nat>)
    requires n < |segments| && Maps(segments[..n], content, offsets) && |own| == |segments[n].text|
    ensures |offsets + Separator(segments, n)| == StartOf(segments, n)
    ensures |offsets + Separator(segments, n) + own| == |Joined(segments[..n+1])|
  {
    JoinedNext(segments, n);
  }

  lemma {:induction false} MapsOneMore(upTo: seq<Segment>, offsets: seq<nat>, n: nat)
    requires |upTo| == n + 1 && |offsets| == |Joined(upTo)| && Increasing(offsets)
    requires forall i: nat :: i <= n ==> MappedAt(upTo, offsets, i)
    ensures Maps(upTo, Joined(upTo), offsets)
  {
  }

  lemma {:induction false} EarlierMapped(segments: seq<Segment>, content: string, offsets: seq<nat>, n: nat,
                                         upTo: seq<Segment>, grown: seq<nat>, i: nat)
    requires i < n < |segments| && Maps(segments[..n], content, offsets) && upTo == segments[..n+1] && offsets <= grown
    ensures MappedAt(upTo, grown, i)
  {
    assert MappedAt(segments[..n], offsets, i);
    StillMapped(segments, offsets, grown[|offsets|..], n, i);
    assert offsets + grown[|offsets|..] == grown;
  }

  lemma {:induction false} BelowEnd(s: Segment, separated: seq<nat>, own: seq<nat>)
    requires Sound(s) && Below(separated, s.globalOffset) && OwnOffsets(s, own)
    ensures Below(separated + own, End(s))
  {
    assert Shift(s, 0) <= Shift(s, |s.conts|);
  }

  /** The body of the outer loop: the separator and its offset, then the segment and its offsets. */
  method AppendSegment(segments: seq<Segment>, n: nat, before: string, offsetsBefore: seq<nat>) returns (content: string, offsets: seq<nat>)
    requires InOrder(segments) && n < |segments| && MappedUpTo(segments, n, before, offsetsBefore)
    ensures MappedUpTo(segments, n + 1, content, offsets)
  {
    var own := SegmentOffsets(segments[n]);
    ghost var grown := OneMoreSegment(segments, n, before, offsetsBefore, own);
    JoinedNext(segments, n);
    content, offsets := before, offsetsBefore;
    if n > 0 {
      var prevEnd := LastEnd(segments[n-1]);
      content, offsets := content + "\n", offsets + [prevEnd];
    }
    content, offsets := content + segments[n].text, offsets + own;
    assert offsets == grown;
  }

  /** Where the segment before a newline ends. */
  method LastEnd(prev: Segment) returns (prevEnd: nat)
    requires Sound(prev)
    ensures prevEnd == End(prev)
  {
    if prev.conts != [] {
      var last := prev.conts[|prev.conts|-1];
      prevEnd := last.global + (|prev.text| - last.start);
    } else {
      prevEnd := prev.globalOffset + |prev.text|;
    }
  }

  /** The outer loop of `Lexer::new`. */
  method Flatten(segments: seq<Segment>) returns (content: string, offsets: seq<nat>)
    requires InOrder(segments)
    ensures Maps(segments, content, offsets)
    ensures segments != [] ==> Below(offsets, End(segments[|segments|-1]))
  {
    content, offsets := "", [];
    for n := 0 to |segments|
      invariant MappedUpTo(segments, n, content, offsets)
    {
      content, offsets := AppendSegment(segments, n, content, offsets);
    }
    assert segments[..|segments|] == segments;
  }

  // ----- From source text to flat text -----

  lemma {:induction false} SourceLinesInOrder(source: string, format: Format, lines: seq<SourceLine>)
    requires LinesOf(source, format, lines)
    ensures LinesInOrder(lines) && LinesBefore(lines, |source| + 1)
  {
    forall line | line in lines
      ensures line.contentStart <= line.contentEnd <= |line.raw| && line.globalOffset + line.contentEnd <= |source|
    {
      var i :| 0 <= i < |lines| && lines[i] == line;
      assert LineAt(lines, i, format);
      RawInSource(source, format, lines, i);
    }
    forall i, j | 0 <= i < j < |lines| ensures lines[i].globalOffset + lines[i].contentEnd < lines[j].globalOffset {
      ContentBeforeNextLine(source, format, lines, i, j);
    }
  }

  /** `Lexer::new`: the flat text with one strictly increasing source offset per character. */
  method LoadSource(source: string, format: Format, includeDebug: bool)
    returns (content: string, offsets: seq<nat>, ghost lines: seq<SourceLine>)
    ensures LinesOf(source, format, lines) && HasContent(lines)
    ensures Maps(SegmentsOf(lines, includeDebug), content, offsets)
    ensures |offsets| == |content| && Increasing(offsets) && Below(offsets, |source|)
  {
    var ls := Parse(source, format);
    lines := ls;
    SourceLinesInOrder(source, format, ls);
    SegmentsInOrder(ls, includeDebug, |source| + 1);
    var segments := BuildSegments(ls, includeDebug);
    content, offsets := Flatten(segments);
  }

  // ----- What the offsets point at -----

  /** Position `j` of region `k` holds the source character at its offset, or a space that a merge put before the next region. */
  ghost predicate GenuineAt(source: string, s: Segment, k: nat, j: nat)
    requires InRegion(s, k, j) && j < |s.text|
  {
    var at := Shift(s, k) + j;
    || (0 <= at < |source| && s.text[j] == source[at])
    || (k < |s.conts| && j + 1 == s.conts[k].start && s.text[j] == ' ')
  }

  /** No region was cut away, and every character is the source's own but for such spaces. */
  ghost predicate Genuine(source: string, s: Segment) {
    Ascending(s) ==> forall k: nat, j: nat :: j < |s.text| && InRegion(s, k, j) ==> GenuineAt(source, s, k, j)
  }

  /** `text` stands in the source at `at`. */
  ghost predicate StandsAt(source: string, at: nat, text: string) {
    at + |text| <= |source| && source[at..at + |text|] == text
  }

  lemma {:induction false} PartStandsInSource(source: string, at: nat, raw: string, a: nat, b: nat)
    requires StandsAt(source, at, raw) && a <= b <= |raw|
    ensures StandsAt(source, at + a, raw[a..b])
  {
    forall k | 0 <= k < b - a ensures source[at + a..at + b][k] == raw[a..b][k] {
      assert source[at..at + |raw|][a + k] == source[at + a + k];
    }
  }

  lemma {:induction false} ContentStandsInSource(source: string, format: Format, lines: seq<SourceLine>, i: nat)
    requires LinesOf(source, format, lines) && i < |lines|
    ensures lines[i].contentStart <= lines[i].contentEnd <= |lines[i].raw|
    ensures StandsAt(source, ContentGlobal(lines[i]), lines[i].ContentText())
  {
    var line := lines[i];
    assert line.contentStart <= line.contentEnd <= |line.raw| by { assert LineAt(lines, i, format); }
    RawInSource(source, format, lines, i);
    PartStandsInSource(source, line.globalOffset, line.raw, line.contentStart, line.contentEnd);
  }

  lemma {:induction false} LineIsGenuine(source: string, text: string, at: nat)
    requires StandsAt(source, at, text)
    ensures Genuine(source, Segment(text, at, []))
  {
    var s := Segment(text, at, []);
    forall k: nat, j: nat | j < |s.text| && InRegion(s, k, j) ensures GenuineAt(source, s, k, j) {
      assert source[at..at + |text|][j] == source[at + j];
    }
  }

  /** What a merge leaves in front is the text before it, cut back, possibly with a space at the end. */
  lemma {:induction false} FrontIsCutBack(text: string, cont: string)
    ensures var f := Front(text, cont); f <= text || (f != [] && f[|f|-1] == ' ' && f[..|f|-1] <= text)
  {
    var n := TrimmedEnd(text);
    assert n > 0 ==> text[..n] == text[..n-1] + [text[n-1]];
    assert (text[..n] + " ")[..n] == text[..n];
  }

  /** A character that stays in front of a merge. */
  lemma {:induction false} FrontIsGenuine(source: string, s: Segment, cont: string, contGlobal: nat, k: nat, j: nat)
    requires Genuine(source, s) && Ascending(Continued(s, cont, contGlobal))
    requires var t := Continued(s, cont, contGlobal); j < |Front(s.text, cont)| && InRegion(t, k, j)
    ensures GenuineAt(source, Continued(s, cont, contGlobal), k, j)
  {
    var t, f := Continued(s, cont, contGlobal), Front(s.text, cont);
    FrontIsCutBack(s.text, cont);
    StillAscending(s, t);
    assert t.text == f + cont[Skipped(cont)..] && t.conts[|s.conts|].start == |f|;
    if f <= s.text || j < |f| - 1 {
      KeptIsGenuine(source, s, t, k, j);
    } else {
      LastOfFront(s, cont, contGlobal, k);
    }
  }

  lemma {:induction false} StillAscending(s: Segment, t: Segment)
    requires |t.conts| == |s.conts| + 1 && t.conts[..|s.conts|] == s.conts && Ascending(t)
    ensures Ascending(s)
  {
    forall j, k | 0 <= j < k < |s.conts| ensures s.conts[j].start < s.conts[k].start {
      assert t.conts[..|s.conts|][j] == t.conts[j] && t.conts[..|s.conts|][k] == t.conts[k];
    }
  }

  /** A character that a merge keeps stays where it was. */
  lemma {:induction false} KeptIsGenuine(source: string, s: Segment, t: Segment, k: nat, j: nat)
    requires Genuine(source, s) && Ascending(s)
    requires |t.conts| == |s.conts| + 1 && t.conts[..|s.conts|] == s.conts && t.globalOffset == s.globalOffset
    requires j < |s.text| && j < |t.text| && t.text[j] == s.text[j]
    requires InRegion(t, k, j) && j < t.conts[|s.conts|].start
    ensures GenuineAt(source, t, k, j)
  {
    assert k <= |s.conts|;
    SameRegion(s, t, k, j);
    assert GenuineAt(source, s, k, j);
  }

  lemma {:induction false} SameRegion(s: Segment, t: Segment, k: nat, j: nat)
    requires |t.conts| == |s.conts| + 1 && t.conts[..|s.conts|] == s.conts && t.globalOffset == s.globalOffset
    requires k <= |s.conts| && InRegion(t, k, j)
    ensures InRegion(s, k, j) && Shift(s, k) == Shift(t, k)
    ensures k < |s.conts| ==> t.conts[k] == s.conts[k]
  {
    assert k > 0 ==> t.conts[..|s.conts|][k-1] == t.conts[k-1];
    assert k < |s.conts| ==> t.conts[..|s.conts|][k] == t.conts[k];
  }

  /** The last character in front of a merge belongs to the region just before the new one. */
  lemma {:induction false} LastOfFront(s: Segment, cont: string, contGlobal: nat, k: nat)
    requires Ascending(Continued(s, cont, contGlobal)) && Front(s.text, cont) != []
    requires InRegion(Continued(s, cont, contGlobal), k, |Front(s.text, cont)| - 1)
    ensures k == |s.conts|
  {
    var t := Continued(s, cont, contGlobal);
    assert t.conts[|s.conts|].start == |Front(s.text, cont)|;
    OneRegion(t, k, |s.conts|, |Front(s.text, cont)| - 1);
  }

  /** A character that a merge appends: it lies in the last region. */
  lemma {:induction false} AppendedIsGenuine(source: string, t: Segment, front: string, tail: string, at: nat, k: nat, j: nat)
    requires t.text == front + tail && t.conts != [] && t.conts[|t.conts|-1] == Region(|front|, at)
    requires StandsAt(source, at, tail) && Ascending(t)
    requires |front| <= j < |t.text| && InRegion(t, k, j)
    ensures GenuineAt(source, t, k, j)
  {
    OneRegion(t, k, |t.conts|, j);
    CharacterStands(source, at, tail, j - |front|);
  }

  lemma {:induction false} CharacterStands(source: string, at: nat, text: string, k: nat)
    requires StandsAt(source, at, text) && k < |text|
    ensures at + k < |source| && source[at + k] == text[k]
  {
    assert source[at..at + |text|][k] == source[at + k];
  }

  lemma {:induction false} ContinuedIsGenuine(source: string, s: Segment, cont: string, contGlobal: nat)
    requires Genuine(source, s) && StandsAt(source, contGlobal, cont)
    ensures Genuine(source, Continued(s, cont, contGlobal))
  {
    var t := Continued(s, cont, contGlobal);
    PartStandsInSource(source, contGlobal, cont, Skipped(cont), |cont|);
    assert cont[Skipped(cont)..|cont|] == cont[Skipped(cont)..];
    if Ascending(t) {
      forall k: nat, j: nat | j < |t.text| && InRegion(t, k, j) ensures GenuineAt(source, t, k, j) {
        if j < |Front(s.text, cont)| {
          FrontIsGenuine(source, s, cont, contGlobal, k, j);
        } else {
          AppendedIsGenuine(source, t, Front(s.text, cont), cont[Skipped(cont)..], contGlobal + Skipped(cont), k, j);
        }
      }
    }
  }

  ghost predicate AllGenuine(source: string, segments: seq<Segment>) {
    forall s :: s in segments ==> Genuine(source, s)
  }

  lemma {:induction false} AddLineIsGenuine(source: string, segments: seq<Segment>, line: SourceLine)
    requires AllGenuine(source, segments) && line.contentStart <= line.contentEnd <= |line.raw|
    requires StandsAt(source, ContentGlobal(line), line.ContentText())
    ensures AllGenuine(source, AddLine(segments, line))
  {
    LineIsGenuine(source, line.ContentText(), ContentGlobal(line));
    if line.IsContinuation() && segments != [] {
      ContinuedIsGenuine(source, segments[|segments|-1], line.ContentText(), ContentGlobal(line));
    }
  }

  lemma {:induction false} SegmentsAreGenuine(source: string, format: Format, all: seq<SourceLine>, n: nat, includeDebug: bool)
    requires LinesOf(source, format, all) && n <= |all| && HasContent(all[..n])
    ensures AllGenuine(source, SegmentsOf(all[..n], includeDebug))
  {
    if n > 0 {
      assert all[..n][..n-1] == all[..n-1];
      SegmentsAreGenuine(source, format, all, n - 1, includeDebug);
      ContentStandsInSource(source, format, all, n - 1);
      AddLineIsGenuine(source, SegmentsOf(all[..n-1], includeDebug), all[n-1]);
    }
  }

  /**
    In every format: a character of a segment none of whose regions was cut away is the source
    character at its offset, unless it is a space just before a continuation.
  */
  lemma {:induction false} OffsetsPointAtSource(source: string, format: Format, lines: seq<SourceLine>, includeDebug: bool,
                                                content: string, offsets: seq<nat>, i: nat, k: nat, j: nat)
    requires LinesOf(source, format, lines) && HasContent(lines)
    requires var segments := SegmentsOf(lines, includeDebug);
      Maps(segments, content, offsets) && i < |segments| && Ascending(segments[i]) && j < |segments[i].text| && InRegion(segments[i], k, j)
    ensures var s, p := SegmentsOf(lines, includeDebug)[i], StartOf(SegmentsOf(lines, includeDebug), i) + j;
      && p < |content| && content[p] == s.text[j]
      && ((offsets[p] < |source| && content[p] == source[offsets[p]])
          || (k < |s.conts| && j + 1 == s.conts[k].start && content[p] == ' '))
  {
    var segments := SegmentsOf(lines, includeDebug);
    assert lines[..|lines|] == lines;
    SegmentsAreGenuine(source, format, lines, |lines|, includeDebug);
    MappedCharacter(segments, content, offsets, i, k, j);
    assert segments[i] in segments && GenuineAt(source, segments[i], k, j);
  }

  /** The character and the offset at position `j` of a segment. */
  lemma {:induction false} MappedCharacter(segments: seq<Segment>, content: string, offsets: seq<nat>, i: nat, k: nat, j: nat)
    requires Maps(segments, content, offsets) && i < |segments| && Ascending(segments[i]) && j < |segments[i].text| && InRegion(segments[i], k, j)
    ensures var s, p := segments[i], StartOf(segments, i) + j;
      p < |content| && content[p] == s.text[j] && offsets[p] == Shift(s, k) + j
  {
    JoinedAt(segments, i);
    assert MappedAt(segments, offsets, i);
    EnteredIsRegion(segments[i], k, j);
    var s, from := segments[i], StartOf(segments, i);
    assert content[from..from + |s.text|][j] == content[from + j];
    assert offsets[from..from + |s.text|][j] == offsets[from + j];
  }

  lemma {:induction false} JoinedAt(segments: seq<Segment>, i: nat)
    requires i < |segments|
    ensures StartOf(segments, i) + |segments[i].text| <= |Joined(segments)|
    ensures Joined(segments)[StartOf(segments, i)..StartOf(segments, i) + |segments[i].text|] == segments[i].text
    ensures i > 0 ==> Joined(segments)[StartOf(segments, i) - 1] == '\n'
  {
    var last := |segments| - 1;
    JoinedNext(segments, last);
    assert segments[..last+1] == segments;
    if i < last {
      JoinedAt(segments[..last], i);
      StartOfInit(segments, last, i);
      PartOfFront(Joined(segments[..last]), Joined(segments), StartOf(segments, i), StartOf(segments, i) + |segments[i].text|);
    }
  }

  /** A part of the front of a text. */
  lemma {:induction false} PartOfFront(front: string, text: string, a: nat, b: nat)
    requires front <= text && a <= b <= |front|
    ensures text[a..b] == front[a..b]
    ensures a > 0 ==> text[a-1] == front[a-1]
  {
    assert text[..|front|][a..b] == text[a..b];
  }

  // ----- The newlines between segments -----

  /** A newline, or the end of the text, stands after a segment. */
  lemma {:induction false} LineEndsInNewline(segments: seq<Segment>, i: nat)
    requires i < |segments|
    ensures var end := StartOf(segments, i) + |segments[i].text|;
      end < |Joined(segments)| ==> Joined(segments)[end] == '\n'
  {
    JoinedNext(segments, i);
    if i + 1 < |segments| {
      JoinedAt(segments, i + 1);
    } else {
      assert segments[..i+1] == segments;
    }
  }

  /** Some kept line ends where the segment does. */
  ghost predicate EndsWithLine(s: Segment, lines: seq<SourceLine>, includeDebug: bool, l: nat)
    requires HasContent(lines)
  {
    l < |lines| && lines[l] in lines && Kept(lines[l], includeDebug) && End(s) == lines[l].globalOffset + lines[l].contentEnd
  }

  lemma {:induction false} EndOfAdded(segments: seq<Segment>, line: SourceLine, i: nat)
    requires line.contentStart <= line.contentEnd <= |line.raw|
    requires i < |AddLine(segments, line)|
    ensures if i + 1 == |AddLine(segments, line)| then End(AddLine(segments, line)[i]) == line.globalOffset + line.contentEnd
      else i < |segments| && AddLine(segments, line)[i] == segments[i]
  {
  }

  /** Every segment ends where a kept line ends: its last one. */
  lemma {:induction false} SegmentEndsWithLine(lines: seq<SourceLine>, includeDebug: bool, i: nat) returns (l: nat)
    requires HasContent(lines) && i < |SegmentsOf(lines, includeDebug)|
    ensures EndsWithLine(SegmentsOf(lines, includeDebug)[i], lines, includeDebug, l)
  {
    var init, last := lines[..|lines|-1], lines[|lines|-1];
    assert HasContent(init) && last in lines;
    if Kept(last, includeDebug) {
      EndOfAdded(SegmentsOf(init, includeDebug), last, i);
      if i + 1 == |SegmentsOf(lines, includeDebug)| { return |lines| - 1; }
    }
    l := SegmentEndsWithLine(init, includeDebug, i);
  }

  /** The character after a line's content is its newline exactly when the content reaches that far. */
  lemma {:induction false} AfterContent(source: string, format: Format, lines: seq<SourceLine>, l: nat)
    requires LinesOf(source, format, lines) && l + 1 < |lines|
    ensures lines[l].contentEnd < |lines[l].raw| && lines[l].globalOffset + lines[l].contentEnd < |source|
    ensures source[lines[l].globalOffset + lines[l].contentEnd] == '\n' <==> lines[l].contentEnd + 1 == |lines[l].raw|
  {
    var line := lines[l];
    assert LineAt(lines, l, format) && EndsWithNewline(line.raw);
    RawInSource(source, format, lines, l);
    assert source[line.globalOffset..line.globalOffset + |line.raw|][line.contentEnd] == source[line.globalOffset + line.contentEnd];
    OnlyNewline(line.raw, line.contentEnd);
  }

  lemma {:induction false} OnlyNewline(raw: string, k: nat)
    requires EndsWithNewline(raw) && '\n' !in raw[..|raw|-1] && k < |raw|
    ensures raw[k] == '\n' <==> k + 1 == |raw|
  {
    if k + 1 < |raw| { assert raw[..|raw|-1][k] == raw[k]; }
  }

  /**
    In every format: the newline before segment `i` points at where the segment before ends, which is
    the end of a kept line's content, and it is a newline of the source if and only if that line has
    nothing after its content, such as text beyond column 72.
  */
  lemma {:induction false} SeparatorPointsAtLineEnd(source: string, format: Format, lines: seq<SourceLine>, includeDebug: bool,
                                                    content: string, offsets: seq<nat>, i: nat) returns (l: nat)
    requires LinesOf(source, format, lines) && HasContent(lines)
    requires Maps(SegmentsOf(lines, includeDebug), content, offsets) && 0 < i < |SegmentsOf(lines, includeDebug)|
    ensures EndsWithLine(SegmentsOf(lines, includeDebug)[i-1], lines, includeDebug, l)
    ensures var p := StartOf(SegmentsOf(lines, includeDebug), i) - 1;
      && p < |content| && content[p] == '\n'
      && offsets[p] == lines[l].globalOffset + lines[l].contentEnd < |source|
      && (source[offsets[p]] == '\n' <==> lines[l].contentEnd + 1 == |lines[l].raw|)
  {
    var segments := SegmentsOf(lines, includeDebug);
    l := SegmentEndsWithLine(lines, includeDebug, i - 1);
    assert MappedAt(segments, offsets, i);
    JoinedAt(segments, i);
    LineIsNotLast(source, format, lines, includeDebug, i, l);
    AfterContent(source, format, lines, l);
  }

  lemma {:induction false} LineIsNotLast(source: string, format: Format, lines: seq<SourceLine>, includeDebug: bool, i: nat, l: nat)
    requires LinesOf(source, format, lines) && HasContent(lines) && 0 < i < |SegmentsOf(lines, includeDebug)|
    requires EndsWithLine(SegmentsOf(lines, includeDebug)[i-1], lines, includeDebug, l)
    ensures l + 1 < |lines|
  {
    var segments := SegmentsOf(lines, includeDebug);
    SourceLinesInOrder(source, format, lines);
    SegmentsInOrder(lines, includeDebug, |source| + 1);
    assert Sound(segments[i]) && Shift(segments[i], 0) <= Shift(segments[i], |segments[i].conts|);
    var m := SegmentEndsWithLine(lines, includeDebug, i);
    assert End(segments[i-1]) < End(segments[i]);
  }

  // ----- Free format -----

  /** A free-format segment is one line, which ends at a newline or at the end of the source. */
  ghost predicate WholeLine(source: string, s: Segment) {
    && s.conts == []
    && s.globalOffset + |s.text| <= |source|
    && source[s.globalOffset..s.globalOffset + |s.text|] == s.text
    && (s.globalOffset + |s.text| < |source| ==> source[s.globalOffset + |s.text|] == '\n')
  }

  lemma {:induction false} FreeLineIsWhole(source: string, lines: seq<SourceLine>, i: nat)
    requires LinesOf(source, Free, lines) && i < |lines|
    ensures lines[i].contentStart <= lines[i].contentEnd <= |lines[i].raw| && !lines[i].IsContinuation()
    ensures WholeLine(source, Segment(lines[i].ContentText(), ContentGlobal(lines[i]), []))
  {
    ContentStandsInSource(source, Free, lines, i);
    RawInSource(source, Free, lines, i);
    FreeLineEnds(source, lines, i);
  }

  lemma {:induction false} FreeLineEnds(source: string, lines: seq<SourceLine>, i: nat)
    requires LinesOf(source, Free, lines) && i < |lines|
    ensures var line := lines[i];
      && line.contentStart == 0 && !line.IsContinuation()
      && line.contentEnd == if EndsWithNewline(line.raw) then |line.raw| - 1 else |line.raw|
    ensures var end := lines[i].globalOffset + lines[i].contentEnd; end < |source| ==> source[end] == '\n'
  {
    assert LineAt(lines, i, Free);
    RawInSource(source, Free, lines, i);
    var line := lines[i];
    if EndsWithNewline(line.raw) {
      assert source[line.globalOffset..line.globalOffset + |line.raw|][|line.raw|-1] == '\n';
    } else {
      assert i == |lines| - 1;
      assert lines[..i+1] == lines;
    }
  }

  lemma {:induction false} FreeSegmentsAreWhole(source: string, all: seq<SourceLine>, n: nat, includeDebug: bool)
    requires LinesOf(source, Free, all) && n <= |all| && HasContent(all[..n])
    ensures forall s :: s in SegmentsOf(all[..n], includeDebug) ==> WholeLine(source, s)
  {
    if n > 0 {
      assert all[..n][..n-1] == all[..n-1];
      FreeSegmentsAreWhole(source, all, n - 1, includeDebug);
      FreeLineIsWhole(source, all, n - 1);
    }
  }

  /** Every position of the flat text lies in a segment or is the newline before one. */
  lemma {:induction false} SegmentOf(segments: seq<Segment>, p: nat) returns (i: nat)
    requires p < |Joined(segments)|
    ensures i < |segments| && StartOf(segments, i) - 1 <= p < StartOf(segments, i) + |segments[i].text|
    ensures p < StartOf(segments, i) ==> i > 0
  {
    var last := |segments| - 1;
    JoinedNext(segments, last);
    assert segments[..last+1] == segments;
    if last > 0 && p < |Joined(segments[..last])| {
      i := SegmentOf(segments[..last], p);
      StartOfInit(segments, last, i);
    } else {
      i := last;
    }
  }

  /** In free format every character of the flat text, newlines included, is the source character at its offset. */
  lemma {:induction false} FreeFormatPointsAtSource(source: string, lines: seq<SourceLine>, includeDebug: bool,
                                                    content: string, offsets: seq<nat>, p: nat)
    requires LinesOf(source, Free, lines) && HasContent(lines)
    requires Maps(SegmentsOf(lines, includeDebug), content, offsets) && p < |content|
    ensures offsets[p] < |source| && content[p] == source[offsets[p]]
  {
    var segments := SegmentsOf(lines, includeDebug);
    assert lines[..|lines|] == lines;
    FreeSegmentsAreWhole(source, lines, |lines|, includeDebug);
    var i := SegmentOf(segments, p);
    assert segments[i] in segments;
    var from := StartOf(segments, i);
    if from <= p {
      OffsetsPointAtSource(source, Free, lines, includeDebug, content, offsets, i, 0, p - from);
    } else {
      SourceLinesInOrder(source, Free, lines);
      SegmentsInOrder(lines, includeDebug, |source| + 1);
      SeparatorIsNewline(source, segments, content, offsets, i);
    }
  }

  lemma {:induction false} SeparatorIsNewline(source: string, segments: seq<Segment>, content: string, offsets: seq<nat>, i: nat)
    requires InOrder(segments) && Maps(segments, content, offsets) && 0 < i < |segments|
    requires forall s :: s in segments ==> WholeLine(source, s)
    ensures var p := StartOf(segments, i) - 1;
      p < |content| && offsets[p] < |source| && content[p] == '\n' == source[offsets[p]]
  {
    assert MappedAt(segments, offsets, i);
    assert segments[i] in segments && segments[i-1] in segments;
    JoinedAt(segments, i);
  }
}
