/** The source spans of tokens: the characters of the source that a span covers are the token's own. */
module TokenSpans {
  import opened SourceReader
  import opened ContentSegments
  import opened OffsetMap
  import opened Lexemes
  import opened Lexer
  import opened TokenStream
  import opened TokenMeaning

  lemma {:induction false} LineOffset(segments: seq<Segment>, content: string, offsets: seq<nat>, i: nat, j: nat)
    requires Maps(segments, content, offsets) && i < |segments| && segments[i].conts == [] && j < |segments[i].text|
    ensures StartOf(segments, i) + j < |offsets| == |content|
    ensures offsets[StartOf(segments, i) + j] == segments[i].globalOffset + j
  {
    MappedCharacter(segments, content, offsets, i, 0, j);
  }

  /** The end of a stretch of a segment is where the source goes on after it. */
  lemma {:induction false} EndOffset(segments: seq<Segment>, content: string, offsets: seq<nat>, i: nat, j: nat)
    requires Maps(segments, content, offsets) && i < |segments| && segments[i].conts == [] && 0 < j <= |segments[i].text|
    ensures StartOf(segments, i) + j <= |offsets|
    ensures SourceOffset(offsets, StartOf(segments, i) + j) == segments[i].globalOffset + j
  {
    LineOffset(segments, content, offsets, i, j - 1);
    if j < |segments[i].text| {
      LineOffset(segments, content, offsets, i, j);
    } else {
      JoinedNext(segments, i);
      if i + 1 < |segments| {
        assert MappedAt(segments, offsets, i + 1);
      } else {
        assert segments[..i+1] == segments;
      }
    }
  }

  /** A token that stands in a line into which none was merged: its span covers its own characters. */
  lemma {:induction false} SpanCoversToken(source: string, format: Format, lines: seq<SourceLine>, includeDebug: bool,
                                           content: string, offsets: seq<nat>, i: nat, t: Token)
    requires LinesOf(source, format, lines) && HasContent(lines)
    requires var segments := SegmentsOf(lines, includeDebug);
      && Maps(segments, content, offsets) && i < |segments| && segments[i].conts == []
      && StartOf(segments, i) <= t.start < t.end <= StartOf(segments, i) + |segments[i].text|
    ensures t.end <= |content|
    ensures var span := Span(offsets, t); span.0 <= span.1 <= |source| && source[span.0..span.1] == content[t.start..t.end]
  {
    var segments := SegmentsOf(lines, includeDebug);
    var s, from := segments[i], StartOf(segments, i);
    EndOffset(segments, content, offsets, i, t.end - from);
    LineOffset(segments, content, offsets, i, t.start - from);
    var span := Span(offsets, t);
    assert span == (s.globalOffset + (t.start - from), s.globalOffset + (t.end - from));
    forall j: nat | j < t.end - t.start ensures StandsLike(source, span.0, content, t.start, j) {
      LineOffset(segments, content, offsets, i, t.start - from + j);
      OffsetsPointAtSource(source, format, lines, includeDebug, content, offsets, i, 0, t.start - from + j);
    }
    SameStretch(source, span.0, content, t.start, t.end - t.start);
  }

  ghost predicate StandsLike(source: string, a: nat, content: string, b: nat, j: nat) {
    a + j < |source| && b + j < |content| && source[a + j] == content[b + j]
  }

  lemma {:induction false} SameStretch(source: string, a: nat, content: string, b: nat, n: nat)
    requires n > 0 && forall j: nat :: j < n ==> StandsLike(source, a, content, b, j)
    ensures a + n <= |source| && b + n <= |content| && source[a..a + n] == content[b..b + n]
  {
    assert StandsLike(source, a, content, b, n - 1);
    var there, here := source[a..a + n], content[b..b + n];
    forall j: nat | j < n ensures there[j] == here[j] {
      assert StandsLike(source, a, content, b, j);
    }
  }

  /** In free format the span of every token covers exactly its characters. */
  lemma {:induction false} FreeFormatSpans(source: string, lines: seq<SourceLine>, includeDebug: bool, content: string, offsets: seq<nat>,
                                           keywords: set<string>, st: State, t: Token)
    requires LinesOf(source, Free, lines) && HasContent(lines) && Maps(SegmentsOf(lines, includeDebug), content, offsets)
    requires st.pos <= |content| && Lexeme(content, keywords, st, t) && t.start < t.end
    ensures t.end <= |content|
    ensures var span := Span(offsets, t); span.0 <= span.1 <= |source| && source[span.0..span.1] == content[t.start..t.end]
  {
    LexemeRange(content, keywords, st, t);
    TokenHasNoNewline(content, keywords, st, t);
    FreeFormatStretch(source, lines, includeDebug, content, offsets, t);
  }

  lemma {:induction false} FreeFormatStretch(source: string, lines: seq<SourceLine>, includeDebug: bool, content: string, offsets: seq<nat>, t: Token)
    requires LinesOf(source, Free, lines) && HasContent(lines) && Maps(SegmentsOf(lines, includeDebug), content, offsets)
    requires t.start < t.end <= |content| && NoNewline(content, t.start, t.end)
    ensures var span := Span(offsets, t); span.0 <= span.1 <= |source| && source[span.0..span.1] == content[t.start..t.end]
  {
    var segments := SegmentsOf(lines, includeDebug);
    assert lines[..|lines|] == lines;
    FreeSegmentsAreWhole(source, lines, |lines|, includeDebug);
    var i := SegmentOf(segments, t.start);
    assert segments[i] in segments;
    JoinedAt(segments, i);
    LineEndsInNewline(segments, i);
    StaysInLine(content, t.start, t.end, StartOf(segments, i) + |segments[i].text|);
    SpanCoversToken(source, Free, lines, includeDebug, content, offsets, i, t);
  }

  lemma {:induction false} StaysInLine(content: string, start: nat, end: nat, lineEnd: nat)
    requires NoNewline(content, start, end) && start <= lineEnd && (lineEnd < |content| ==> content[lineEnd] == '\n')
    ensures end <= lineEnd
  {
  }
}
