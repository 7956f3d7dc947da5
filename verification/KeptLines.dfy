/**
  Which lines of a source reach the flat text, said of their characters: a comment, a blank line or
  a debug line that is not asked for changes nothing, wherever it stands, and every other line that
  is no continuation contributes its content area.
*/
module KeptLines {
  import opened Characters
  import opened SourceReader
  import opened ContentSegments
  import opened LiteralContinuation
  import opened OffsetMap

  // ----- Lines by their characters -----

  /** Fixed and variable format: column 7 holds none of the indicators of an active line. Free format: the text starts with the comment mark. */
  ghost predicate IsCommentText(body: string, format: Format) {
    if format.Free? then exists k: nat :: MarkAt(body, k)
    else |body| >= 7 && body[6] !in " -DdTt$"
  }

  /** `*>` at `k`, with nothing but white space before it. */
  predicate MarkAt(body: string, k: nat) {
    k + 2 <= |body| && body[k] == '*' && body[k+1] == '>' && forall i :: 0 <= i < k ==> IsTrimmed(body[i])
  }

  predicate IsDebugText(body: string, format: Format) {
    !format.Free? && |body| >= 7 && (body[6] == 'D' || body[6] == 'd')
  }

  predicate IsContinuationText(body: string, format: Format) {
    !format.Free? && |body| >= 7 && body[6] == '-'
  }

  /** Columns 8 to 72 in fixed format, 8 to the end in variable format, all of the line in free format. */
  function ContentArea(body: string, format: Format): string {
    match format
    case Free => body
    case Variable => if |body| <= 7 then "" else body[7..]
    case Fixed => if |body| <= 7 then "" else if |body| <= 72 then body[7..] else body[7..72]
  }

  predicate IsBlankText(body: string, format: Format) {
    forall k :: 0 <= k < |ContentArea(body, format)| ==> IsTrimmed(ContentArea(body, format)[k])
  }

  /** The line is left out. */
  ghost predicate IsDropped(body: string, format: Format, includeDebug: bool) {
    IsCommentText(body, format) || IsBlankText(body, format) || (IsDebugText(body, format) && !includeDebug)
  }

  /** The text of a line without its newline. */
  function Body(line: SourceLine): string {
    if EndsWithNewline(line.raw) then line.raw[..|line.raw|-1] else line.raw
  }

  lemma {:induction false} CommentMark(line: string)
    ensures StartsComment(line) <==> exists k: nat :: MarkAt(line, k)
  {
    if line != [] && IsTrimmed(line[0]) {
      CommentMark(line[1..]);
      if k: nat :| MarkAt(line, k) {
        assert k > 0;
        assert MarkAt(line[1..], k - 1);
      }
      if k: nat :| MarkAt(line[1..], k) {
        MarkFurther(line, k);
      }
    } else {
      if StartsComment(line) { assert MarkAt(line, 0); }
      if k: nat :| MarkAt(line, k) {
        assert k == 0;
      }
    }
  }

  lemma {:induction false} MarkFurther(line: string, k: nat)
    requires line != [] && IsTrimmed(line[0]) && MarkAt(line[1..], k)
    ensures MarkAt(line, k + 1)
  {
    forall i | 0 <= i < k + 1 ensures IsTrimmed(line[i]) {
      if i > 0 { assert line[1..][i - 1] == line[i]; }
    }
  }

  /** What the reader makes of the characters of a line. */
  lemma {:induction false} LayoutMeans(body: string, format: Format)
    ensures var layout := LineLayout(body, format);
      && (layout.0 == '*' || layout.0 == '/' <==> IsCommentText(body, format))
      && (layout.0 == '-' <==> IsContinuationText(body, format))
      && (layout.0 == 'D' || layout.0 == 'd' <==> IsDebugText(body, format))
      && body[layout.1..layout.2] == ContentArea(body, format)
  {
    if format.Free? {
      CommentMark(body);
    }
  }

  lemma {:induction false} LineMeans(source: string, format: Format, lines: seq<SourceLine>, i: nat)
    requires LinesOf(source, format, lines) && i < |lines|
    ensures var line, body := lines[i], Body(lines[i]);
      && line.contentStart <= line.contentEnd <= |line.raw|
      && (line.IsComment() <==> IsCommentText(body, format))
      && (line.IsContinuation() <==> IsContinuationText(body, format))
      && (line.IsDebug() <==> IsDebugText(body, format))
      && line.ContentText() == ContentArea(body, format)
  {
    assert LineAt(lines, i, format);
    LineOfBody(lines[i], Body(lines[i]), format);
  }

  lemma {:induction false} LineOfBody(line: SourceLine, body: string, format: Format)
    requires body == Body(line) && (line.indicator, line.contentStart, line.contentEnd) == LineLayout(body, format)
    ensures line.contentStart <= line.contentEnd <= |line.raw|
    ensures line.IsComment() <==> IsCommentText(body, format)
    ensures line.IsContinuation() <==> IsContinuationText(body, format)
    ensures line.IsDebug() <==> IsDebugText(body, format)
    ensures line.ContentText() == ContentArea(body, format)
  {
    LayoutMeans(body, format);
    assert line.raw[line.contentStart..line.contentEnd] == body[line.contentStart..line.contentEnd];
  }

  /** A line is kept exactly when its characters do not say otherwise. */
  lemma {:induction false} KeptMeans(source: string, format: Format, lines: seq<SourceLine>, i: nat, includeDebug: bool)
    requires LinesOf(source, format, lines) && i < |lines|
    ensures lines[i].contentStart <= lines[i].contentEnd <= |lines[i].raw|
    ensures Kept(lines[i], includeDebug) <==> !IsDropped(Body(lines[i]), format, includeDebug)
  {
    LineMeans(source, format, lines, i);
    var line, area := lines[i], ContentArea(Body(lines[i]), format);
    BlankMeans(line, area);
  }

  lemma {:induction false} BlankMeans(line: SourceLine, area: string)
    requires line.contentStart <= line.contentEnd <= |line.raw| && area == line.ContentText()
    ensures line.IsBlank() <==> forall k :: 0 <= k < |area| ==> IsTrimmed(area[k])
  {
    assert forall k :: 0 <= k < |area| ==> area[k] == line.raw[line.contentStart + k];
    if line.IsBlank() {
      forall k | 0 <= k < |area| ensures IsTrimmed(area[k]) {
        assert IsTrimmed(line.raw[line.contentStart + k]);
      }
    }
    if forall k :: 0 <= k < |area| ==> IsTrimmed(area[k]) {
      forall k | line.contentStart <= k < line.contentEnd ensures IsTrimmed(line.raw[k]) {
        assert IsTrimmed(area[k - line.contentStart]);
      }
    }
  }

  // ----- Splitting a source at a line end -----

  function Moved(line: SourceLine, n: nat, far: nat): SourceLine {
    line.(lineNumber := line.lineNumber + n, globalOffset := line.globalOffset + far)
  }

  /** The lines with other numbers and offsets. */
  function MovedAll(lines: seq<SourceLine>, n: nat, far: nat): (moved: seq<SourceLine>)
    ensures |moved| == |lines| && forall i :: 0 <= i < |lines| ==> moved[i] == Moved(lines[i], n, far)
  {
    seq(|lines|, i requires 0 <= i < |lines| => Moved(lines[i], n, far))
  }

  lemma {:induction false} ConcatMoved(lines: seq<SourceLine>, n: nat, far: nat)
    ensures Concat(MovedAll(lines, n, far)) == Concat(lines)
  {
    if lines != [] {
      assert MovedAll(lines, n, far)[..|lines|-1] == MovedAll(lines[..|lines|-1], n, far);
      ConcatMoved(lines[..|lines|-1], n, far);
    }
  }

  lemma {:induction false} ConcatAppend(a: seq<SourceLine>, b: seq<SourceLine>)
    ensures Concat(a + b) == Concat(a) + Concat(b)
  {
    if b == [] {
      assert a + b == a;
    } else {
      assert (a + b)[..|a + b| - 1] == a + b[..|b|-1];
      ConcatAppend(a, b[..|b|-1]);
    }
  }

  /** A text after which a new line starts. */
  predicate AtLineStart(front: string) { front == [] || EndsWithNewline(front) }

  lemma {:induction false} LastEndsWithNewline(s: string, format: Format, a: seq<SourceLine>)
    requires LinesOf(s, format, a) && AtLineStart(s)
    ensures forall i :: 0 <= i < |a| ==> EndsWithNewline(a[i].raw)
  {
    if a != [] {
      var last := a[|a|-1];
      assert s == Concat(a[..|a|-1]) + last.raw;
      assert s[|s|-1] == last.raw[|last.raw|-1];
    }
  }

  lemma {:induction false} MovedLineAt(s: string, a: seq<SourceLine>, b: seq<SourceLine>, i: nat, format: Format)
    requires i < |b| && LineAt(b, i, format) && Concat(a) == s
    ensures LineAt(a + MovedAll(b, |a|, |s|), |a| + i, format)
  {
    var joined := a + MovedAll(b, |a|, |s|);
    assert joined[..|a| + i] == a + MovedAll(b[..i], |a|, |s|);
    ConcatAppend(a, MovedAll(b[..i], |a|, |s|));
    ConcatMoved(b[..i], |a|, |s|);
  }

  lemma {:induction false} FrontLineAt(a: seq<SourceLine>, b: seq<SourceLine>, i: nat, format: Format)
    requires i < |a| && LineAt(a, i, format)
    ensures LineAt(a + b, i, format)
  {
    assert (a + b)[..i] == a[..i];
  }

  lemma {:induction false} JoinedLineAt(s: string, t: string, format: Format, a: seq<SourceLine>, b: seq<SourceLine>, joined: seq<SourceLine>, i: nat)
    requires LinesOf(s, format, a) && LinesOf(t, format, b) && joined == a + MovedAll(b, |a|, |s|) && i < |joined|
    ensures LineAt(joined, i, format) && joined[i].raw != []
  {
    if i < |a| {
      FrontLineAt(a, MovedAll(b, |a|, |s|), i, format);
    } else {
      MovedLineAt(s, a, b, i - |a|, format);
    }
  }

  lemma {:induction false} JoinedNewline(s: string, t: string, format: Format, a: seq<SourceLine>, b: seq<SourceLine>, joined: seq<SourceLine>, i: nat)
    requires LinesOf(s, format, a) && LinesOf(t, format, b) && AtLineStart(s)
    requires joined == a + MovedAll(b, |a|, |s|) && i + 1 < |joined|
    ensures EndsWithNewline(joined[i].raw)
  {
    LastEndsWithNewline(s, format, a);
  }

  /** The lines of two texts, one after the other. */
  lemma {:induction false} LinesJoin(s: string, t: string, format: Format, a: seq<SourceLine>, b: seq<SourceLine>)
    requires LinesOf(s, format, a) && LinesOf(t, format, b) && AtLineStart(s)
    ensures LinesOf(s + t, format, a + MovedAll(b, |a|, |s|))
  {
    var joined := a + MovedAll(b, |a|, |s|);
    forall i | 0 <= i < |joined| ensures LineAt(joined, i, format) && joined[i].raw != [] {
      JoinedLineAt(s, t, format, a, b, joined, i);
    }
    forall i | 0 <= i < |joined| - 1 ensures EndsWithNewline(joined[i].raw) {
      JoinedNewline(s, t, format, a, b, joined, i);
    }
    ConcatAppend(a, MovedAll(b, |a|, |s|));
    ConcatMoved(b, |a|, |s|);
  }

  /** Every text has lines. */
  lemma {:induction false} LinesExist(source: string, format: Format) returns (lines: seq<SourceLine>)
    ensures LinesOf(source, format, lines)
    decreases |source|
  {
    if source == [] {
      lines := [];
    } else {
      var start := LastLineStart(source);
      var front, raw := source[..start], source[start..];
      var before := LinesExist(front, format);
      var line := OneLine(raw, format);
      LinesJoin(front, raw, format, before, [line]);
      assert front + raw == source;
      lines := before + MovedAll([line], |before|, |front|);
    }
  }

  /** Where the last line of a text starts. */
  lemma {:induction false} LastLineStart(source: string) returns (start: nat)
    requires source != []
    ensures start < |source| && AtLineStart(source[..start])
    ensures forall k :: start <= k < |source| - 1 ==> source[k] != '\n'
  {
    start := |source| - 1;
    while start > 0 && source[start-1] != '\n'
      invariant start < |source|
      invariant forall k :: start <= k < |source| - 1 ==> source[k] != '\n'
    {
      start := start - 1;
    }
  }

  /** A text without a newline before its end is one line. */
  lemma {:induction false} OneLine(raw: string, format: Format) returns (line: SourceLine)
    requires raw != [] && forall k :: 0 <= k < |raw| - 1 ==> raw[k] != '\n'
    ensures LinesOf(raw, format, [line]) && line.raw == raw
  {
    var body := if EndsWithNewline(raw) then raw[..|raw|-1] else raw;
    line := MakeLine(1, body, EndsWithNewline(raw), 0, format);
    assert EndsWithNewline(raw) ==> raw == body + "\n";
    assert line.raw == raw;
    OneLineIsLines(line, raw, body, format);
  }

  lemma {:induction false} OneLineIsLines(line: SourceLine, raw: string, body: string, format: Format)
    requires line == MakeLine(1, body, EndsWithNewline(raw), 0, format) && line.raw == raw != []
    requires body == (if EndsWithNewline(raw) then raw[..|raw|-1] else raw) && '\n' !in body
    ensures LinesOf(raw, format, [line])
  {
    var lines := [line];
    assert lines[..0] == [];
    assert Concat(lines) == [] + raw == raw;
    assert LineAt(lines, 0, format);
  }

  // ----- The texts of the segments depend on the characters of the lines only -----

  /** One more line, seen from the texts of the segments so far. */
  function AddText(texts: seq<string>, line: SourceLine, includeDebug: bool): seq<string>
    requires line.contentStart <= line.contentEnd <= |line.raw|
  {
    if !Kept(line, includeDebug) then texts
    else if !line.IsContinuation() then texts + [line.ContentText()]
    else if texts == [] then []
    else texts[..|texts|-1] + [MergeOne(texts[|texts|-1], line.ContentText())]
  }

  /** The texts after more lines. */
  function TextsAfter(texts: seq<string>, lines: seq<SourceLine>, includeDebug: bool): seq<string>
    requires HasContent(lines)
  {
    if lines == [] then texts
    else AddText(TextsAfter(texts, lines[..|lines|-1], includeDebug), lines[|lines|-1], includeDebug)
  }

  function TextsOf(segments: seq<Segment>): (texts: seq<string>)
    ensures |texts| == |segments| && forall i :: 0 <= i < |segments| ==> texts[i] == segments[i].text
  {
    seq(|segments|, i requires 0 <= i < |segments| => segments[i].text)
  }

  function JoinedTexts(texts: seq<string>): string {
    if texts == [] then []
    else if |texts| == 1 then texts[0]
    else JoinedTexts(texts[..|texts|-1]) + "\n" + texts[|texts|-1]
  }

  lemma {:induction false} JoinedIsTexts(segments: seq<Segment>)
    ensures Joined(segments) == JoinedTexts(TextsOf(segments))
  {
    if |segments| > 1 {
      assert TextsOf(segments)[..|segments|-1] == TextsOf(segments[..|segments|-1]);
      JoinedIsTexts(segments[..|segments|-1]);
    }
  }

  lemma {:induction false} AddLineText(segments: seq<Segment>, line: SourceLine, includeDebug: bool)
    requires line.contentStart <= line.contentEnd <= |line.raw|
    ensures TextsOf(if Kept(line, includeDebug) then AddLine(segments, line) else segments) == AddText(TextsOf(segments), line, includeDebug)
  {
    if Kept(line, includeDebug) && line.IsContinuation() && segments != [] {
      assert TextsOf(segments)[..|segments|-1] == TextsOf(segments[..|segments|-1]);
    }
  }

  lemma {:induction false} SegmentTexts(lines: seq<SourceLine>, includeDebug: bool)
    requires HasContent(lines)
    ensures TextsOf(SegmentsOf(lines, includeDebug)) == TextsAfter([], lines, includeDebug)
  {
    if lines != [] {
      var init, last := lines[..|lines|-1], lines[|lines|-1];
      assert last in lines;
      SegmentTexts(init, includeDebug);
      AddLineText(SegmentsOf(init, includeDebug), last, includeDebug);
    }
  }

  lemma {:induction false} TextsAppend(texts: seq<string>, a: seq<SourceLine>, b: seq<SourceLine>, includeDebug: bool)
    requires HasContent(a) && HasContent(b)
    ensures HasContent(a + b) && TextsAfter(texts, a + b, includeDebug) == TextsAfter(TextsAfter(texts, a, includeDebug), b, includeDebug)
  {
    if b == [] {
      assert a + b == a;
    } else {
      var init := b[..|b|-1];
      assert (a + b)[..|a + b| - 1] == a + init;
      TextsAppend(texts, a, init, includeDebug);
    }
  }

  lemma {:induction false} TextsMoved(texts: seq<string>, lines: seq<SourceLine>, n: nat, far: nat, includeDebug: bool)
    requires HasContent(lines)
    ensures HasContent(MovedAll(lines, n, far)) && TextsAfter(texts, MovedAll(lines, n, far), includeDebug) == TextsAfter(texts, lines, includeDebug)
  {
    var moved := MovedAll(lines, n, far);
    forall line | line in moved ensures line.contentStart <= line.contentEnd <= |line.raw| {
      var i :| 0 <= i < |moved| && moved[i] == line;
      assert lines[i] in lines;
    }
    if lines != [] {
      var init := lines[..|lines|-1];
      assert moved[..|lines|-1] == MovedAll(init, n, far);
      TextsMoved(texts, init, n, far, includeDebug);
      MovedText(TextsAfter(texts, init, includeDebug), lines[|lines|-1], n, far, includeDebug);
    }
  }

  lemma {:induction false} MovedText(texts: seq<string>, line: SourceLine, n: nat, far: nat, includeDebug: bool)
    requires line.contentStart <= line.contentEnd <= |line.raw|
    ensures AddText(texts, Moved(line, n, far), includeDebug) == AddText(texts, line, includeDebug)
  {
    assert Kept(Moved(line, n, far), includeDebug) <==> Kept(line, includeDebug);
  }

  // ----- A line that is left out changes nothing -----

  lemma {:induction false} AllHaveContent(source: string, format: Format, lines: seq<SourceLine>)
    requires LinesOf(source, format, lines)
    ensures HasContent(lines)
  {
    SourceLinesInOrder(source, format, lines);
  }

  /** The texts of a source in two parts. */
  lemma {:induction false} TextsOfParts(front: string, back: string, format: Format, a: seq<SourceLine>, b: seq<SourceLine>,
                                        lines: seq<SourceLine>, includeDebug: bool)
    requires LinesOf(front, format, a) && LinesOf(back, format, b) && AtLineStart(front) && LinesOf(front + back, format, lines)
    ensures HasContent(a) && HasContent(b) && HasContent(lines)
    ensures TextsAfter([], lines, includeDebug) == TextsAfter(TextsAfter([], a, includeDebug), b, includeDebug)
  {
    AllHaveContent(front, format, a);
    AllHaveContent(back, format, b);
    AllHaveContent(front + back, format, lines);
    LinesJoin(front, back, format, a, b);
    OnlyOneSplitting(front + back, format, lines, a + MovedAll(b, |a|, |front|));
    TextsMoved(TextsAfter([], a, includeDebug), b, |a|, |front|, includeDebug);
    TextsAppend([], a, MovedAll(b, |a|, |front|), includeDebug);
  }

  lemma {:induction false} DroppedText(texts: seq<string>, raw: string, format: Format, c: seq<SourceLine>, includeDebug: bool)
    requires LinesOf(raw, format, c) && |c| == 1 && IsDropped(Body(c[0]), format, includeDebug)
    ensures HasContent(c) && TextsAfter(texts, c, includeDebug) == texts
  {
    AllHaveContent(raw, format, c);
    KeptMeans(raw, format, c, 0, includeDebug);
    assert c[..0] == [];
  }

  /** The flat text of a source's lines. */
  function FlatText(lines: seq<SourceLine>, includeDebug: bool): string
    requires HasContent(lines)
  {
    Joined(SegmentsOf(lines, includeDebug))
  }

  lemma {:induction false} FlatIsTexts(lines: seq<SourceLine>, includeDebug: bool)
    requires HasContent(lines)
    ensures FlatText(lines, includeDebug) == JoinedTexts(TextsAfter([], lines, includeDebug))
  {
    SegmentTexts(lines, includeDebug);
    JoinedIsTexts(SegmentsOf(lines, includeDebug));
  }

  /** A whole line: no newline inside, and one at its end unless the source ends there. */
  predicate IsWholeLine(body: string, raw: string, back: string) {
    '\n' !in body && (raw == body + "\n" || (raw == body && body != [] && back == []))
  }

  /**
    Adding or removing, at any line start, a line that its characters leave out does not change the
    flat text.
  */
  lemma {:induction false} DroppedLineChangesNothing(front: string, body: string, raw: string, back: string, format: Format, includeDebug: bool,
                                                     without: seq<SourceLine>, with_: seq<SourceLine>)
    requires AtLineStart(front) && IsWholeLine(body, raw, back) && IsDropped(body, format, includeDebug)
    requires LinesOf(front + back, format, without) && LinesOf(front + raw + back, format, with_)
    ensures HasContent(without) && HasContent(with_)
    ensures FlatText(with_, includeDebug) == FlatText(without, includeDebug)
  {
    var a := LinesExist(front, format);
    var b := LinesExist(back, format);
    var line := OneLineOf(body, raw, back, format);
    TextsOfParts(front, back, format, a, b, without, includeDebug);
    AllHaveContent(front, format, a);
    AllHaveContent(back, format, b);
    DroppedText([], raw, format, [line], includeDebug);
    TextsOfThree(front, raw, back, format, a, [line], b, with_, includeDebug);
    DroppedText(TextsAfter([], a, includeDebug), raw, format, [line], includeDebug);
    FlatIsTexts(without, includeDebug);
    FlatIsTexts(with_, includeDebug);
  }

  lemma {:induction false} OneLineOf(body: string, raw: string, back: string, format: Format) returns (line: SourceLine)
    requires IsWholeLine(body, raw, back)
    ensures LinesOf(raw, format, [line]) && Body(line) == body
  {
    line := OneLine(raw, format);
    if raw == body + "\n" { assert raw[..|raw|-1] == body; }
  }

  lemma {:induction false} TextsOfThree(front: string, raw: string, back: string, format: Format,
                                        a: seq<SourceLine>, c: seq<SourceLine>, b: seq<SourceLine>, lines: seq<SourceLine>, includeDebug: bool)
    requires LinesOf(front, format, a) && LinesOf(raw, format, c) && LinesOf(back, format, b)
    requires AtLineStart(front) && (AtLineStart(raw) || back == []) && raw != []
    requires LinesOf(front + raw + back, format, lines)
    ensures HasContent(a) && HasContent(c) && HasContent(b) && HasContent(lines)
    ensures TextsAfter([], lines, includeDebug) ==
      TextsAfter(TextsAfter(TextsAfter([], a, includeDebug), c, includeDebug), b, includeDebug)
  {
    var ac := a + MovedAll(c, |a|, |front|);
    LinesJoin(front, raw, format, a, c);
    TextsOfParts(front, raw, format, a, c, ac, includeDebug);
    if back == [] {
      EmptyIffNoLines(back, format, b);
      assert front + raw + back == front + raw;
      OnlyOneSplitting(front + raw, format, lines, ac);
    } else {
      assert AtLineStart(front + raw);
      TextsOfParts(front + raw, back, format, ac, b, lines, includeDebug);
    }
  }
}
