/**
  From source lines to the flat text the lexer reads: continuation lines are merged into the line
  before them, and every character keeps the source offset it comes from.
*/
module ContentSegments {
  import opened Characters
  import opened SourceReader

  // ----- Quotes -----

  /** `ends_inside_string`: whether a literal is open at the end, which is so when the number of quotes is odd. */
  method EndsInsideString(text: string, quote: char) returns (inString: bool)
    ensures inString == OpenAtEnd(text, quote)
  {
    var pos := 0;
    inString := false;
    while pos < |text|
      invariant pos <= |text|
      invariant inString == OpenAtEnd(text[..pos], quote)
    {
      CountStep(text, pos, quote);
      if text[pos] != quote {
        pos := pos + 1;
      } else if inString {
        if pos + 1 < |text| && text[pos+1] == quote {
          CountStep(text, pos + 1, quote);
          pos := pos + 2;
        } else {
          inString := false;
          pos := pos + 1;
        }
      } else {
        inString := true;
        pos := pos + 1;
      }
    }
    assert text[..pos] == text;
  }

  /** An odd number of quotes. */
  predicate OpenAtEnd(text: string, quote: char) {
    CountOf(text, quote) % 2 == 1
  }

  lemma {:induction false} CountStep(text: string, i: nat, c: char)
    requires i < |text|
    ensures CountOf(text[..i+1], c) == CountOf(text[..i], c) + if text[i] == c then 1 else 0
  {
    assert text[..i+1][..i] == text[..i];
  }

  // ----- Trimming -----

  /** The length of `s` without trailing white space. */
  function TrimmedEnd(s: string): (n: nat)
    ensures n <= |s|
    ensures n > 0 ==> !IsTrimmed(s[n-1])
    ensures forall k :: n <= k < |s| ==> IsTrimmed(s[k])
  {
    if s != [] && IsTrimmed(s[|s|-1]) then TrimmedEnd(s[..|s|-1]) else |s|
  }

  /** The number of leading characters of `s` that are `c`. */
  function LeadingRun(s: string, c: char): (n: nat)
    ensures n <= |s|
    ensures n < |s| ==> s[n] != c
    ensures forall k :: 0 <= k < n ==> s[k] == c
  {
    if s != [] && s[0] == c then 1 + LeadingRun(s[1..], c) else 0
  }

  /** The number of characters `trim_start` removes. */
  function LeadingTrimmed(s: string): (n: nat)
    ensures n <= |s|
    ensures n < |s| ==> !IsTrimmed(s[n])
    ensures forall k :: 0 <= k < n ==> IsTrimmed(s[k])
  {
    if s != [] && IsTrimmed(s[0]) then 1 + LeadingTrimmed(s[1..]) else 0
  }

  // ----- Merging one continuation line -----

  /** A run of the flat text: where it starts in the segment and where that stands in the source. */
  datatype Region = Region(start: nat, global: nat)

  datatype Segment = Segment(text: string, globalOffset: nat, conts: seq<Region>)

  predicate IsQuote(c: char) { c == '"' || c == '\'' }

  /** The continuation line goes on with a literal: its first character other than a space is a quote. */
  predicate ContinuesString(cont: string) {
    var skip := LeadingRun(cont, ' ');
    skip < |cont| && IsQuote(cont[skip])
  }

  /** The previous line ends in a marker quote of an open literal. */
  predicate EndsInMarker(text: string, quote: char) {
    var n := TrimmedEnd(text);
    n > 0 && text[n-1] == quote && OpenAtEnd(text[..n-1], quote)
  }

  /** What stays of the previous text when a literal goes on with `quote` and then `rest`. */
  function StringFront(text: string, quote: char, rest: string): string {
    var n := TrimmedEnd(text);
    if EndsInMarker(text, quote) then
      if LeadingRun(rest, quote) == 1 then text[..n-1] + [quote] else text[..n-1]
    else if n > 0 && OpenAtEnd(text[..n], quote) then text
    else if |text| - n == 1 then text[..n] + " "
    else text[..n]
  }

  /** What stays of the previous text before a word that goes on. */
  function WordFront(text: string, cont: string): string {
    var n, lead := TrimmedEnd(text), LeadingTrimmed(cont);
    if lead == 1 && n > 0 && lead < |cont| then text[..n] + " " else text[..n]
  }

  /** How much of the continuation line is not appended. */
  function Skipped(cont: string): (n: nat)
    ensures n <= |cont|
  {
    if ContinuesString(cont) then LeadingRun(cont, ' ') + 1 else LeadingTrimmed(cont)
  }

  function Front(text: string, cont: string): string {
    if ContinuesString(cont)
    then StringFront(text, cont[LeadingRun(cont, ' ')], cont[Skipped(cont)..])
    else WordFront(text, cont)
  }

  /** One continuation line merged into the segment before it. */
  function Continued(prev: Segment, cont: string, contGlobal: nat): Segment {
    var front, skip := Front(prev.text, cont), Skipped(cont);
    Segment(front + cont[skip..], prev.globalOffset, prev.conts + [Region(|front|, contGlobal + skip)])
  }

  /** The branch of `build_segments` for a continuation line: the last segment is truncated and extended. */
  method MergeContinuation(prev: Segment, cont: string, contGlobal: nat) returns (merged: Segment)
    ensures merged == Continued(prev, cont, contGlobal)
  {
    var text := prev.text;
    var trimmedLength := TrimmedEnd(text);
    var skip := 0;
    while skip < |cont| && cont[skip] == ' '
      invariant skip <= LeadingRun(cont, ' ')
    {
      skip := skip + 1;
    }
    if skip < |cont| && IsQuote(cont[skip]) {
      var quote := cont[skip];
      skip := skip + 1;
      var droppedQuote := false;
      var trailingSpaces := |text| - trimmedLength;
      if trimmedLength > 0 && text[trimmedLength - 1] == quote {
        var open := EndsInsideString(text[..trimmedLength - 1], quote);
        if open {
          text := text[..trimmedLength - 1];
          droppedQuote := true;
        }
      }
      if !droppedQuote {
        var open := EndsInsideString(text[..trimmedLength], quote);
        if !(trimmedLength > 0 && open) {
          text := text[..trimmedLength];
          if trailingSpaces == 1 { text := text + " "; }
        }
      }
      if droppedQuote && LeadingRun(cont[skip..], quote) == 1 {
        text := text + [quote];
      }
    } else {
      text := text[..trimmedLength];
      skip := LeadingTrimmed(cont);
      if skip == 1 && text != [] && skip < |cont| { text := text + " "; }
    }
    merged := Segment(text + cont[skip..], prev.globalOffset, prev.conts + [Region(|text|, contGlobal + skip)]);
  }

  // ----- All lines -----

  /** Comments, blank lines and, unless debugging, debug lines are left out. */
  predicate Kept(line: SourceLine, includeDebug: bool)
    requires line.contentStart <= line.contentEnd <= |line.raw|
  {
    !line.IsComment() && !line.IsBlank() && (includeDebug || !line.IsDebug())
  }

  ghost predicate HasContent(lines: seq<SourceLine>) {
    forall line :: line in lines ==> line.contentStart <= line.contentEnd <= |line.raw|
  }

  function ContentGlobal(line: SourceLine): nat { line.globalOffset + line.contentStart }

  /** One more line: a new segment, or the last one continued; a continuation of nothing is skipped. */
  function AddLine(segments: seq<Segment>, line: SourceLine): seq<Segment>
    requires line.contentStart <= line.contentEnd <= |line.raw|
  {
    if !line.IsContinuation() then segments + [Segment(line.ContentText(), ContentGlobal(line), [])]
    else if segments == [] then []
    else segments[..|segments|-1] + [Continued(segments[|segments|-1], line.ContentText(), ContentGlobal(line))]
  }

  function SegmentsOf(lines: seq<SourceLine>, includeDebug: bool): seq<Segment>
    requires HasContent(lines)
  {
    if lines == [] then []
    else
      var before, line := SegmentsOf(lines[..|lines|-1], includeDebug), lines[|lines|-1];
      if Kept(line, includeDebug) then AddLine(before, line) else before
  }

  method BuildSegments(lines: seq<SourceLine>, includeDebug: bool) returns (segments: seq<Segment>)
    requires HasContent(lines)
    ensures segments == SegmentsOf(lines, includeDebug)
  {
    segments := [];
    for i := 0 to |lines|
      invariant HasContent(lines[..i])
      invariant segments == SegmentsOf(lines[..i], includeDebug)
    {
      var line := lines[i];
      assert lines[..i+1][..i] == lines[..i];
      assert line in lines;
      if Kept(line, includeDebug) {
        if line.IsContinuation() {
          if segments != [] {
            var last := |segments| - 1;
            var merged := MergeContinuation(segments[last], line.ContentText(), ContentGlobal(line));
            segments := segments[..last] + [merged];
          }
        } else {
          segments := segments + [Segment(line.ContentText(), ContentGlobal(line), [])];
        }
      }
    }
    assert lines[..|lines|] == lines;
  }
}
