/**
  A source in which a merge cuts an earlier region away, and an offset of the flat text points into
  a comment line for it.
*/
module CutRegions {
  import opened Characters
  import opened SourceReader
  import opened ContentSegments
  import opened LiteralContinuation
  import opened OffsetMap
  import opened KeptLines
  import opened LineOrigins

  // ----- Sources of fixed format, line by line -----

  predicate IsFixedBody(body: string) {
    8 <= |body| <= 72 && '\n' !in body && body[6] in " -*"
  }

  predicate AreFixedBodies(bodies: seq<string>) { forall b :: b in bodies ==> IsFixedBody(b) }

  function SourceOf(bodies: seq<string>): string {
    if bodies == [] then "" else SourceOf(bodies[..|bodies|-1]) + (bodies[|bodies|-1] + "\n")
  }

  /** A line as the reader makes it. */
  function FixedLine(number: nat, body: string, globalOffset: nat): SourceLine
    requires IsFixedBody(body)
  {
    SourceLine(number, body + "\n", body[6], 7, |body|, globalOffset, Fixed)
  }

  function FixedLines(bodies: seq<string>): (lines: seq<SourceLine>)
    requires AreFixedBodies(bodies)
    ensures |lines| == |bodies|
  {
    if bodies == [] then []
    else
      assert bodies[|bodies|-1] in bodies;
      var init := bodies[..|bodies|-1];
      FixedLines(init) + [FixedLine(|bodies|, bodies[|bodies|-1], |SourceOf(init)|)]
  }

  lemma {:induction false} OneFixedLine(body: string)
    requires IsFixedBody(body)
    ensures LinesOf(body + "\n", Fixed, [FixedLine(1, body, 0)])
  {
    var raw := body + "\n";
    assert raw[..|raw|-1] == body;
    OneLineIsLines(FixedLine(1, body, 0), raw, body, Fixed);
  }

  lemma {:induction false} FixedLinesAreLines(bodies: seq<string>)
    requires AreFixedBodies(bodies)
    ensures LinesOf(SourceOf(bodies), Fixed, FixedLines(bodies)) && AtLineStart(SourceOf(bodies))
  {
    if bodies != [] {
      var init, body := bodies[..|bodies|-1], bodies[|bodies|-1];
      assert body in bodies;
      FixedLinesAreLines(init);
      OneFixedLine(body);
      var line := FixedLine(1, body, 0);
      LinesJoin(SourceOf(init), body + "\n", Fixed, FixedLines(init), [line]);
      assert MovedAll([line], |FixedLines(init)|, |SourceOf(init)|) == [FixedLine(|bodies|, body, |SourceOf(init)|)];
    }
  }

  lemma {:induction false} FixedLinesSnoc(bodies: seq<string>, body: string)
    requires AreFixedBodies(bodies) && IsFixedBody(body)
    ensures AreFixedBodies(bodies + [body])
    ensures FixedLines(bodies + [body]) == FixedLines(bodies) + [FixedLine(|bodies| + 1, body, |SourceOf(bodies)|)]
    ensures SourceOf(bodies + [body]) == SourceOf(bodies) + (body + "\n")
  {
    assert (bodies + [body])[..|bodies|] == bodies;
  }

  // ----- One more line, from its characters -----

  /** The state after some lines: how long the source is, and the segments. */
  ghost predicate After(bodies: seq<string>, length: nat, segments: seq<Segment>) {
    && AreFixedBodies(bodies)
    && |SourceOf(bodies)| == length
    && HasContent(FixedLines(bodies))
    && SegmentsOf(FixedLines(bodies), false) == segments
  }

  lemma {:induction false} NextLine(bodies: seq<string>, length: nat, segments: seq<Segment>, body: string)
    requires After(bodies, length, segments) && IsFixedBody(body) && body[6] != '*' && !IsTrimmed(body[7])
    ensures var cont := body[7..];
      body[6] == '-' && segments != [] ==>
        After(bodies + [body], length + |body| + 1, segments[..|segments|-1] + [Continued(segments[|segments|-1], cont, length + 7)])
    ensures body[6] == ' ' ==> After(bodies + [body], length + |body| + 1, segments + [Segment(body[7..], length + 7, [])])
  {
    var line := FixedLine(|bodies| + 1, body, length);
    FixedLinesSnoc(bodies, body);
    assert line.ContentText() == body[7..];
    assert !IsTrimmed(line.raw[7]);
    SegmentsSnoc(FixedLines(bodies), line, false);
  }

  lemma {:induction false} NextComment(bodies: seq<string>, length: nat, segments: seq<Segment>, body: string)
    requires After(bodies, length, segments) && IsFixedBody(body) && body[6] == '*'
    ensures After(bodies + [body], length + |body| + 1, segments)
  {
    var lines, line := FixedLines(bodies), FixedLine(|bodies| + 1, body, length);
    FixedLinesSnoc(bodies, body);
    assert (lines + [line])[..|lines|] == lines;
  }

  // ----- The example -----

  /** An open literal with a margin, a continuation that adds nothing to it, a word, a comment and a longer word. */
  function Bodies(): seq<string> {
    ["000000 'A  ", "000000-'", "000000-B", "000000*X", "000000-CDEFGH"]
  }

  lemma {:induction false} QuoteContinued()
    ensures Continued(Segment("'A  ", 7, []), "'", 19) == Segment("'A  ", 7, [Region(4, 20)])
  {
    assert TrimmedEnd("'A  ") == 2;
    assert "'A  "[..2] == "'A" && "'A"[..1] == "'" && "'"[..0] == "";
    assert CountOf("'A", '\'') == 1;
    assert "'"[1..] == "";
  }

  lemma {:induction false} WordContinued(s: Segment, front: string, margin: nat, cont: string, contGlobal: nat)
    requires s.text == front + Spaces(margin) && front != [] && !IsTrimmed(front[|front|-1])
    requires cont != [] && IsLetter(cont[0])
    ensures Continued(s, cont, contGlobal) == Segment(front + cont, s.globalOffset, s.conts + [Region(|front|, contGlobal)])
  {
    assert Spaces(0) + cont == cont;
    ContinuesWord(0, cont);
    TrimmedEndIs(s.text, |front|);
    assert s.text[..|front|] == front;
  }

  /** The literal and the words put together: the second region starts before the first. */
  function CutSegment(): Segment {
    Segment("'ABCDEFGH", 7, [Region(4, 20), Region(2, 28), Region(3, 46)])
  }

  lemma {:induction false} TheSegment()
    ensures After(Bodies(), 53, [CutSegment()])
  {
    var none: seq<string> := [];
    assert After(none, 0, []);
    NextLine(none, 0, [], "000000 'A  ");
    assert "000000 'A  "[7..] == "'A  " && [] + [Segment("'A  ", 7, [])] == [Segment("'A  ", 7, [])];
    ThenTheQuote(none + ["000000 'A  "]);
  }

  lemma {:induction false} ThenTheQuote(bodies: seq<string>)
    requires bodies == ["000000 'A  "] && After(bodies, 12, [Segment("'A  ", 7, [])])
    ensures After(Bodies(), 53, [CutSegment()])
  {
    NextLine(bodies, 12, [Segment("'A  ", 7, [])], "000000-'");
    assert "000000-'"[7..] == "'";
    QuoteContinued();
    assert [Segment("'A  ", 7, [])][..0] + [Segment("'A  ", 7, [Region(4, 20)])] == [Segment("'A  ", 7, [Region(4, 20)])];
    ThenTheWords(bodies + ["000000-'"]);
  }

  lemma {:induction false} ThenTheWords(bodies: seq<string>)
    requires bodies == ["000000 'A  ", "000000-'"] && After(bodies, 21, [Segment("'A  ", 7, [Region(4, 20)])])
    ensures After(Bodies(), 53, [CutSegment()])
  {
    var one := Segment("'A  ", 7, [Region(4, 20)]);
    NextLine(bodies, 21, [one], "000000-B");
    assert "000000-B"[7..] == "B" && [one][..0] == [];
    assert "'A  " == "'A" + Spaces(2) && "'A" + "B" == "'AB";
    WordContinued(one, "'A", 2, "B", 28);
    var two := Segment("'AB", 7, [Region(4, 20), Region(2, 28)]);
    assert [] + [two] == [two] && one.conts + [Region(2, 28)] == two.conts;
    NextComment(bodies + ["000000-B"], 30, [two], "000000*X");
    ThenTheLongWord(bodies + ["000000-B"] + ["000000*X"], two);
  }

  lemma {:induction false} ThenTheLongWord(bodies: seq<string>, two: Segment)
    requires bodies == ["000000 'A  ", "000000-'", "000000-B", "000000*X"] && two == Segment("'AB", 7, [Region(4, 20), Region(2, 28)])
    requires After(bodies, 39, [two])
    ensures After(Bodies(), 53, [CutSegment()])
  {
    LongWordContinued(two);
    NextLine(bodies, 39, [two], "000000-CDEFGH");
    assert "000000-CDEFGH"[7..] == "CDEFGH";
    assert [two][..0] + [CutSegment()] == [CutSegment()];
    assert bodies + ["000000-CDEFGH"] == Bodies();
  }

  lemma {:induction false} LongWordContinued(two: Segment)
    requires two == Segment("'AB", 7, [Region(4, 20), Region(2, 28)])
    ensures Continued(two, "CDEFGH", 46) == CutSegment()
  {
    assert "'AB" == "'AB" + Spaces(0) && "'AB" + "CDEFGH" == "'ABCDEFGH";
    WordContinued(two, "'AB", 0, "CDEFGH", 46);
    assert two.conts + [Region(3, 46)] == CutSegment().conts;
  }

  lemma {:induction false} TheRegionInForce()
    ensures Entered(CutSegment(), 5) == 2
  {
    var s := CutSegment();
    assert Entered(s, 0) == 0;
    assert Entered(s, 1) == 0;
    assert Entered(s, 2) == 0;
    assert Entered(s, 3) == 0;
    assert Entered(s, 4) == 1;
  }

  /** The offset of the letter E, which stands in the last line, points into the comment before that line. */
  lemma {:induction false} OffsetInComment(lines: seq<SourceLine>, content: string, offsets: seq<nat>)
    requires LinesOf(SourceOf(Bodies()), Fixed, lines) && HasContent(lines) && Maps(SegmentsOf(lines, false), content, offsets)
    ensures |lines| == 5 && IsDropped(Body(lines[3]), Fixed, false)
    ensures |content| == |offsets| == 9 && content[5] == 'E' && InLine(lines[3], offsets[5])
  {
    TheSegment();
    FixedLinesAreLines(Bodies());
    OnlyOneSplitting(SourceOf(Bodies()), Fixed, lines, FixedLines(Bodies()));
    TheCommentLine(lines);
    TheRegionInForce();
    assert MappedAt(SegmentsOf(lines, false), offsets, 0);
    assert offsets[0..9][5] == offsets[5];
  }

  lemma {:induction false} TheCommentLine(lines: seq<SourceLine>)
    requires AreFixedBodies(Bodies()) && lines == FixedLines(Bodies())
    ensures lines[3].globalOffset == 30 && lines[3].raw == "000000*X\n" && IsDropped(Body(lines[3]), Fixed, false)
  {
    var bodies := Bodies();
    var front := bodies[..3];
    assert bodies[..4] == front + ["000000*X"] && bodies == bodies[..4] + ["000000-CDEFGH"];
    FixedLinesSnoc(front, "000000*X");
    FixedLinesSnoc(bodies[..4], "000000-CDEFGH");
    ThirtyCharacters(front);
    assert lines[3] == FixedLine(4, "000000*X", 30);
    assert lines[3].raw[..8] == "000000*X";
  }

  lemma {:induction false} ThirtyCharacters(front: seq<string>)
    requires front == ["000000 'A  ", "000000-'", "000000-B"]
    ensures |SourceOf(front)| == 30
  {
    var none: seq<string> := [];
    SourceSnoc(none, "000000 'A  ");
    SourceSnoc(none + ["000000 'A  "], "000000-'");
    SourceSnoc(none + ["000000 'A  "] + ["000000-'"], "000000-B");
    assert none + ["000000 'A  "] + ["000000-'"] + ["000000-B"] == front;
  }

  lemma {:induction false} SourceSnoc(bodies: seq<string>, body: string)
    ensures |SourceOf(bodies + [body])| == |SourceOf(bodies)| + |body| + 1
  {
    assert (bodies + [body])[..|bodies|] == bodies;
  }
}
