/** Splitting source text into lines with their fixed, variable or free layout. */
module SourceReader {
  import opened Options
  import opened Characters

  datatype Format = Fixed | Variable | Free

  datatype SourceLine = SourceLine(
    lineNumber: nat, raw: string, indicator: char, contentStart: nat, contentEnd: nat, globalOffset: nat, format: Format)
  {
    function ContentText(): string
      requires contentStart <= contentEnd <= |raw|
    {
      raw[contentStart..contentEnd]
    }

    predicate IsComment() { indicator == '*' || indicator == '/' }

    predicate IsContinuation() { indicator == '-' }

    predicate IsDebug() { indicator == 'D' || indicator == 'd' }

    predicate IsBlank()
      requires contentStart <= contentEnd <= |raw|
    {
      forall k :: contentStart <= k < contentEnd ==> IsTrimmed(raw[k])
    }
  }

  /** The indicators of column 7; T lines are active and U lines are not. */
  function NormalizeFixedIndicator(c: char): Option<char> {
    if c == 'T' || c == 't' then Some(' ')
    else if c == 'U' || c == 'u' then Some('*')
    else if c in " */-Dd$" then Some(c)
    else None
  }

  /** The layout of one line without its newline. */
  function LineLayout(line: string, format: Format): (layout: (char, nat, nat))
    ensures layout.1 <= layout.2 <= |line|
  {
    if format.Free? then (if StartsComment(line) then '*' else ' ', 0, |line|)
    else
      var rawIndicator := if |line| >= 7 then line[6] else ' ';
      var indicator := match NormalizeFixedIndicator(rawIndicator) case Some(c) => c case None => '*';
      var end := if format.Fixed? && |line| > 72 then 72 else |line|;
      (indicator, if |line| < 7 then |line| else 7, end)
  }

  /** The line without leading white space starts with the free-format comment mark. */
  predicate StartsComment(line: string) {
    if line != [] && IsTrimmed(line[0]) then StartsComment(line[1..])
    else |line| >= 2 && line[0] == '*' && line[1] == '>'
  }

  function Concat(lines: seq<SourceLine>): string {
    if lines == [] then [] else Concat(lines[..|lines|-1]) + lines[|lines|-1].raw
  }

  /** Line `i` is what its raw text says: number, offset and layout. */
  ghost predicate LineAt(lines: seq<SourceLine>, i: nat, format: Format)
    requires i < |lines|
  {
    var line := lines[i];
    var body := if EndsWithNewline(line.raw) then line.raw[..|line.raw|-1] else line.raw;
    && line.lineNumber == i + 1
    && line.globalOffset == |Concat(lines[..i])|
    && line.format == format
    && '\n' !in body
    && (line.indicator, line.contentStart, line.contentEnd) == LineLayout(body, format)
  }

  predicate EndsWithNewline(raw: string) { raw != [] && raw[|raw|-1] == '\n' }

  /** The lines are exactly the newline-terminated pieces of the source, the last one possibly without newline. */
  ghost predicate LinesOf(source: string, format: Format, lines: seq<SourceLine>) {
    && Concat(lines) == source
    && (forall i :: 0 <= i < |lines| ==> LineAt(lines, i, format))
    && (forall i :: 0 <= i < |lines| ==> lines[i].raw != [])
    && (forall i :: 0 <= i < |lines| - 1 ==> EndsWithNewline(lines[i].raw))
  }

  /** The end of the piece that starts at `from`. */
  method NextNewline(source: string, from: nat) returns (end: nat)
    requires from <= |source|
    ensures from <= end <= |source| && '\n' !in source[from..end]
    ensures end < |source| ==> source[end] == '\n'
  {
    end := from;
    while end < |source| && source[end] != '\n'
      invariant from <= end <= |source| && '\n' !in source[from..end]
    {
      end := end + 1;
    }
  }

  function MakeLine(number: nat, line: string, hasNewline: bool, offset: nat, format: Format): SourceLine {
    var layout := LineLayout(line, format);
    SourceLine(number, if hasNewline then line + "\n" else line, layout.0, layout.1, layout.2, offset, format)
  }

  /** Every line so far is right, and they make up the source up to `offset`. */
  ghost predicate SplitUpTo(source: string, format: Format, lines: seq<SourceLine>, offset: nat) {
    && offset <= |source| && Concat(lines) == source[..offset]
    && (forall i :: 0 <= i < |lines| ==> LineAt(lines, i, format))
    && (forall i :: 0 <= i < |lines| ==> EndsWithNewline(lines[i].raw))
  }

  lemma {:induction false} OneMoreLine(source: string, format: Format, lines: seq<SourceLine>, from: nat, end: nat, hasNewline: bool)
    requires SplitUpTo(source, format, lines, from) && from <= end <= |source| && '\n' !in source[from..end]
    requires hasNewline <==> end < |source|
    requires hasNewline ==> source[end] == '\n'
    ensures var lines' := lines + [MakeLine(|lines| + 1, source[from..end], hasNewline, from, format)];
      if hasNewline then SplitUpTo(source, format, lines', end + 1) else AllSplit(source, format, lines')
  {
    var body := source[from..end];
    var line := MakeLine(|lines| + 1, body, hasNewline, from, format);
    var lines' := lines + [line];
    assert lines'[..|lines|] == lines;
    assert source[..from] + body == source[..end];
    assert hasNewline ==> source[..end + 1] == source[..end] + "\n";
    assert hasNewline ==> line.raw[..|line.raw|-1] == body;
    forall i | 0 <= i < |lines'| ensures LineAt(lines', i, format) {
      assert lines'[..i] == lines[..i];
      assert i < |lines| ==> LineAt(lines, i, format);
    }
  }

  /** The whole source is split; the last line may be empty. */
  ghost predicate AllSplit(source: string, format: Format, lines: seq<SourceLine>) {
    && lines != [] && Concat(lines) == source
    && (forall i :: 0 <= i < |lines| ==> LineAt(lines, i, format))
    && (forall i :: 0 <= i < |lines| - 1 ==> EndsWithNewline(lines[i].raw))
  }

  lemma {:induction false} NothingDropped(source: string, format: Format, lines: seq<SourceLine>)
    requires AllSplit(source, format, lines) && lines[|lines|-1].raw != []
    ensures LinesOf(source, format, lines)
  {
  }

  /** The empty line after a final newline can go. */
  lemma {:induction false} DropEmptyLine(source: string, format: Format, lines: seq<SourceLine>)
    requires AllSplit(source, format, lines) && lines[|lines|-1].raw == []
    ensures LinesOf(source, format, lines[..|lines|-1])
  {
    var init := lines[..|lines|-1];
    forall i | 0 <= i < |init| ensures LineAt(init, i, format) {
      assert LineAt(lines, i, format);
      assert init[..i] == lines[..i];
    }
  }

  /** The lines so far, and whether there is more to come after `offset`. */
  ghost predicate HalfParsed(source: string, format: Format, lines: seq<SourceLine>, offset: nat, more: bool) {
    if more then SplitUpTo(source, format, lines, offset) else AllSplit(source, format, lines)
  }

  /** One turn of the loop, once the end of the line is found. */
  lemma {:induction false} ParseTurn(source: string, format: Format, lines: seq<SourceLine>, from: nat, end: nat)
    requires HalfParsed(source, format, lines, from, true) && from <= end <= |source| && '\n' !in source[from..end]
    requires end < |source| ==> source[end] == '\n'
    ensures HalfParsed(source, format, lines + [MakeLine(|lines| + 1, source[from..end], end < |source|, from, format)],
      if end < |source| then end + 1 else end, end < |source|)
  {
    OneMoreLine(source, format, lines, from, end, end < |source|);
  }

  /** The loop shared by `parse_fixed`, `parse_variable` and `parse_free`. */
  method Parse(source: string, format: Format) returns (lines: seq<SourceLine>)
    ensures LinesOf(source, format, lines)
  {
    lines := [];
    var globalOffset := 0;
    var more := true;
    while more
      invariant 0 <= globalOffset <= |source|
      invariant HalfParsed(source, format, lines, globalOffset, more)
      decreases more, |source| - globalOffset
    {
      var end := NextNewline(source, globalOffset);
      var line := source[globalOffset..end];
      ParseTurn(source, format, lines, globalOffset, end);
      var hasNewline := globalOffset + |line| < |source|;
      lines := lines + [MakeLine(|lines| + 1, line, hasNewline, globalOffset, format)];
      globalOffset := globalOffset + |line|;
      if hasNewline { globalOffset := globalOffset + 1; }
      more := hasNewline;
    }
    lines := WithoutEmptyLine(source, format, lines);
  }

  /** The pop of an empty line after the final newline. */
  method WithoutEmptyLine(ghost source: string, format: Format, all: seq<SourceLine>) returns (lines: seq<SourceLine>)
    requires AllSplit(source, format, all)
    ensures LinesOf(source, format, lines)
  {
    lines := all;
    if lines[|lines|-1].raw == [] {
      DropEmptyLine(source, format, lines);
      lines := lines[..|lines|-1];
    } else {
      NothingDropped(source, format, lines);
    }
  }

  // ----- Where the lines stand -----

  lemma {:induction false} ConcatPrefix(lines: seq<SourceLine>, n: nat)
    requires n <= |lines|
    ensures Concat(lines[..n]) <= Concat(lines)
  {
    if n < |lines| {
      assert lines[..|lines|-1][..n] == lines[..n];
      ConcatPrefix(lines[..|lines|-1], n);
    } else {
      assert lines[..n] == lines;
    }
  }

  lemma {:induction false} PieceOf(source: string, front: string, piece: string)
    requires front + piece <= source
    ensures |front| + |piece| <= |source| && source[|front|..|front| + |piece|] == piece
  {
    assert (front + piece)[|front|..] == piece;
  }

  lemma {:induction false} ConcatNext(lines: seq<SourceLine>, i: nat)
    requires i < |lines|
    ensures Concat(lines[..i+1]) == Concat(lines[..i]) + lines[i].raw
  {
    assert lines[..i+1][..i] == lines[..i];
  }

  /** Every line stands in the source at its offset. */
  lemma {:induction false} RawInSource(source: string, format: Format, lines: seq<SourceLine>, i: nat)
    requires LinesOf(source, format, lines) && i < |lines|
    ensures lines[i].globalOffset + |lines[i].raw| == |Concat(lines[..i+1])| <= |source|
    ensures source[lines[i].globalOffset..lines[i].globalOffset + |lines[i].raw|] == lines[i].raw
  {
    ConcatNext(lines, i);
    ConcatPrefix(lines, i + 1);
    PieceOf(source, Concat(lines[..i]), lines[i].raw);
    assert LineAt(lines, i, format);
  }

  /** The content of a line ends before the next line starts. */
  lemma {:induction false} ContentBeforeNextLine(source: string, format: Format, lines: seq<SourceLine>, i: nat, j: nat)
    requires LinesOf(source, format, lines) && i < j < |lines|
    ensures lines[i].contentStart <= lines[i].contentEnd <= |lines[i].raw|
    ensures lines[i].globalOffset + lines[i].contentEnd < lines[j].globalOffset
  {
    assert LineAt(lines, i, format) && EndsWithNewline(lines[i].raw);
    LineBeforeLine(source, format, lines, i, j);
  }

  lemma {:induction false} LineBeforeLine(source: string, format: Format, lines: seq<SourceLine>, i: nat, j: nat)
    requires LinesOf(source, format, lines) && i < j < |lines|
    ensures lines[i].globalOffset + |lines[i].raw| <= lines[j].globalOffset
  {
    assert LineAt(lines, j, format);
    RawInSource(source, format, lines, i);
    assert lines[..j][..i+1] == lines[..i+1];
    ConcatPrefix(lines[..j], i + 1);
  }

  /** There is only one way to cut a source into lines. */
  lemma {:induction false} OnlyOneSplitting(source: string, format: Format, a: seq<SourceLine>, b: seq<SourceLine>)
    requires LinesOf(source, format, a) && LinesOf(source, format, b)
    ensures a == b
    decreases |a|
  {
    EmptyIffNoLines(source, format, a);
    EmptyIffNoLines(source, format, b);
    if a != [] {
      var x, y := a[..|a|-1], b[..|b|-1];
      LastLineNoLonger(source, format, a, b);
      LastLineNoLonger(source, format, b, a);
      assert Concat(x) == Concat(y) by {
        assert source[..|source| - |a[|a|-1].raw|] == Concat(x);
        assert source[..|source| - |b[|b|-1].raw|] == Concat(y);
      }
      InitLines(source, format, a);
      InitLines(source, format, b);
      OnlyOneSplitting(Concat(x), format, x, y);
      SameLastLine(source, format, a, b);
      assert a == x + [a[|a|-1]] && b == y + [b[|b|-1]];
    }
  }

  lemma {:induction false} InitLines(source: string, format: Format, lines: seq<SourceLine>)
    requires LinesOf(source, format, lines) && lines != []
    ensures LinesOf(Concat(lines[..|lines|-1]), format, lines[..|lines|-1])
  {
    var init := lines[..|lines|-1];
    forall i | 0 <= i < |init| ensures LineAt(init, i, format) {
      assert LineAt(lines, i, format);
      assert init[..i] == lines[..i];
    }
  }

  lemma {:induction false} EmptyIffNoLines(source: string, format: Format, lines: seq<SourceLine>)
    requires LinesOf(source, format, lines)
    ensures lines == [] <==> source == []
  {
    assert lines != [] ==> Concat(lines) == Concat(lines[..|lines|-1]) + lines[|lines|-1].raw;
  }

  /** A newline stands before the last line, unless that is the first, and none inside it. */
  lemma {:induction false} LastLine(source: string, format: Format, lines: seq<SourceLine>) returns (n: nat)
    requires LinesOf(source, format, lines) && lines != []
    ensures n == |lines[|lines|-1].raw| && 0 < n <= |source|
    ensures n < |source| ==> source[|source| - n - 1] == '\n'
    ensures forall k :: |source| - n <= k < |source| - 1 ==> source[k] != '\n'
  {
    var last := lines[|lines|-1];
    n := |last.raw|;
    var front := Concat(lines[..|lines|-1]);
    assert source == front + last.raw;
    InitEndsWithNewline(source, format, lines);
    assert LineAt(lines, |lines| - 1, format);
    forall k | |source| - n <= k < |source| - 1 ensures source[k] != '\n' {
      assert source[k] == last.raw[k - |front|];
    }
  }

  lemma {:induction false} InitEndsWithNewline(source: string, format: Format, lines: seq<SourceLine>)
    requires LinesOf(source, format, lines) && lines != []
    ensures var front := Concat(lines[..|lines|-1]); front == [] || front[|front|-1] == '\n'
  {
    var init := lines[..|lines|-1];
    assert init != [] ==> EndsWithNewline(init[|init|-1].raw);
  }

  lemma {:induction false} LastLineNoLonger(source: string, format: Format, a: seq<SourceLine>, b: seq<SourceLine>)
    requires LinesOf(source, format, a) && LinesOf(source, format, b) && a != [] && b != []
    ensures |b[|b|-1].raw| <= |a[|a|-1].raw|
  {
    var m := LastLine(source, format, a);
    var n := LastLine(source, format, b);
  }

  lemma {:induction false} SameLastLine(source: string, format: Format, a: seq<SourceLine>, b: seq<SourceLine>)
    requires LinesOf(source, format, a) && LinesOf(source, format, b) && a != [] && b != []
    requires a[..|a|-1] == b[..|b|-1]
    ensures a[|a|-1] == b[|b|-1]
  {
    assert LineAt(a, |a| - 1, format) && LineAt(b, |b| - 1, format);
    var front := Concat(a[..|a|-1]);
    assert source[|front|..] == a[|a|-1].raw && source[|front|..] == b[|b|-1].raw;
  }
}
