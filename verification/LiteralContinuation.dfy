/**
  A quoted literal split over continuation lines, each break marked by a closing quote or left open
  to the margin: merging the lines gives back the literal as if it had never been split.
*/
module LiteralContinuation {
  import opened Options
  import opened Characters
  import opened SourceReader
  import opened ContentSegments

  // ----- Bodies of literals -----

  /** Every quote in the body of a literal is doubled. */
  predicate Paired(body: string, quote: char) {
    if body == [] then true
    else if body[0] != quote then Paired(body[1..], quote)
    else |body| >= 2 && body[1] == quote && Paired(body[2..], quote)
  }

  lemma {:induction false} PairedIsEven(body: string, quote: char)
    requires Paired(body, quote)
    ensures CountOf(body, quote) % 2 == 0
    decreases |body|
  {
    if body != [] {
      var n := if body[0] != quote then 1 else 2;
      PairedIsEven(body[n..], quote);
      assert body == body[..n] + body[n..];
      CountOfAppend(body[..n], body[n..], quote);
      assert body[..1][..0] == [] && body[..n] == if n == 1 then [body[0]] else [body[0], body[1]];
      CountOfSmall(body[..n], quote);
    }
  }

  lemma {:induction false} CountOfSmall(s: string, c: char)
    requires |s| == 1 || (|s| == 2 && s[0] == c && s[1] == c)
    ensures CountOf(s, c) == if |s| == 2 then 2 else if s[0] == c then 1 else 0
  {
    if |s| == 2 {
      assert s[..1] == [c];
      assert CountOf([c], c) == 1;
    } else {
      assert s[..0] == [];
    }
  }

  lemma {:induction false} PairedAppend(a: string, b: string, quote: char)
    requires Paired(a, quote) && Paired(b, quote)
    ensures Paired(a + b, quote)
    decreases |a|
  {
    if a == [] {
      assert a + b == b;
    } else {
      var n := if a[0] != quote then 1 else 2;
      assert (a + b)[n..] == a[n..] + b;
      PairedAppend(a[n..], b, quote);
    }
  }

  // ----- Which literal is open -----

  /** The literal open after the characters of `s`, seen as the lexer sees it: inside one kind the other does not count. */
  function OpenQuote(s: string): Option<char> {
    if s == [] then None
    else
      var c := s[|s|-1];
      match OpenQuote(s[..|s|-1])
      case None => if IsQuote(c) then Some(c) else None
      case Some(q) => if c == q then None else Some(q)
  }

  predicate OutsideLiteral(s: string) { OpenQuote(s).None? }

  /** How many `quote` characters stand inside literals of the other kind. */
  function Held(s: string, quote: char): nat {
    if s == [] then 0
    else
      var init, c := s[..|s|-1], s[|s|-1];
      Held(init, quote) + if c == quote && OpenQuote(init).Some? && OpenQuote(init) != Some(quote) then 1 else 0
  }

  lemma {:induction false} ParityOfQuotes(s: string, quote: char)
    requires IsQuote(quote)
    ensures CountOf(s, quote) % 2 == (Held(s, quote) + if OpenQuote(s) == Some(quote) then 1 else 0) % 2
  {
    if s != [] {
      var init, c := s[..|s|-1], s[|s|-1];
      ParityOfQuotes(init, quote);
      ParityStep(CountOf(init, quote), Held(init, quote), IsOpen(init, quote), IsOpen(s, quote),
        if c == quote then 1 else 0, Held(s, quote) - Held(init, quote));
    }
  }

  function IsOpen(s: string, quote: char): nat { if OpenQuote(s) == Some(quote) then 1 else 0 }

  lemma {:induction false} ParityStep(count: int, held: int, open: int, open': int, counted: int, heldMore: int)
    requires count % 2 == (held + open) % 2 && (counted + heldMore + open + open') % 2 == 0
    ensures (count + counted) % 2 == (held + heldMore + open') % 2
  {
  }

  /** Counting one kind of quote tells whether such a literal is open exactly when literals of the other kind hold an even number. */
  lemma {:induction false} ParityIsRightIff(s: string, quote: char)
    requires IsQuote(quote)
    ensures (OpenAtEnd(s, quote) <==> OpenQuote(s) == Some(quote)) <==> Held(s, quote) % 2 == 0
  {
    ParityOfQuotes(s, quote);
  }

  // ----- Split literals -----

  /** One stretch of the literal: how its line is indented, and how its line ends unless it is the last. */
  datatype Piece = Piece(indent: nat, body: string, marker: bool, margin: nat)

  function Spaces(n: nat): (s: string)
    ensures |s| == n && forall i :: 0 <= i < n ==> s[i] == ' '
  {
    seq(n, _ => ' ')
  }

  /** A marker quote and spaces to the margin, or nothing: then the body itself runs to the margin. */
  function Ending(quote: char, p: Piece): string {
    if p.marker then [quote] + Spaces(p.margin) else ""
  }

  function FirstLine(pre: string, quote: char, p: Piece): string {
    pre + [quote] + p.body + Ending(quote, p)
  }

  function MiddleLine(quote: char, p: Piece): string {
    Spaces(p.indent) + [quote] + (p.body + Ending(quote, p))
  }

  function LastLine(quote: char, p: Piece, post: string): string {
    Spaces(p.indent) + [quote] + (p.body + ([quote] + post))
  }

  function MiddleLines(quote: char, middle: seq<Piece>): seq<string> {
    if middle == [] then [] else MiddleLines(quote, middle[..|middle|-1]) + [MiddleLine(quote, middle[|middle|-1])]
  }

  function Bodies(pieces: seq<Piece>): string {
    if pieces == [] then [] else Bodies(pieces[..|pieces|-1]) + pieces[|pieces|-1].body
  }

  /** The text of a segment after merging one more continuation line. */
  function MergeOne(text: string, cont: string): string {
    Front(text, cont) + cont[Skipped(cont)..]
  }

  function MergedText(text: string, conts: seq<string>): string {
    if conts == [] then text else MergeOne(MergedText(text, conts[..|conts|-1]), conts[|conts|-1])
  }

  // ----- One break -----

  lemma {:induction false} TrimmedEndIs(s: string, n: nat)
    requires n <= |s| && (n > 0 ==> !IsTrimmed(s[n-1])) && forall k :: n <= k < |s| ==> IsTrimmed(s[k])
    ensures TrimmedEnd(s) == n
  {
  }

  /** Trailing white space holds no quote. */
  lemma {:induction false} TrimmedKeepsQuotes(s: string, quote: char)
    requires IsQuote(quote)
    ensures CountOf(s[..TrimmedEnd(s)], quote) == CountOf(s, quote)
  {
    var n := TrimmedEnd(s);
    assert s == s[..n] + s[n..];
    CountOfAppend(s[..n], s[n..], quote);
    CountOfNone(s[n..], quote);
  }

  /**
    A break left open to the margin that is undone although the quotes before it are even: nothing
    the merge takes for margin is lost.
  */
  predicate KeptOpen(text: string, quote: char, rest: string) {
    var n := TrimmedEnd(text);
    if EndsInMarker(text, quote) then n == |text| && LeadingRun(rest, quote) == 1
    else n == |text| || text[n..] == " "
  }

  /** Whether a break after `text` is undone by the merge, when the next line goes on with `rest`. */
  predicate Undone(text: string, quote: char, p: Piece, rest: string) {
    if p.marker then OpenAtEnd(text, quote) && LeadingRun(rest, quote) != 1
    else OpenAtEnd(text, quote) || KeptOpen(text, quote, rest)
  }

  /** Text left open to the margin keeps all of it exactly when its quotes are odd or nothing is taken for margin. */
  lemma {:induction false} OpenFrontIff(text: string, quote: char, rest: string)
    requires IsQuote(quote)
    ensures StringFront(text, quote, rest) == text <==> OpenAtEnd(text, quote) || KeptOpen(text, quote, rest)
  {
    var n := TrimmedEnd(text);
    TrimmedKeepsQuotes(text, quote);
    assert text == text[..n] + text[n..];
    if EndsInMarker(text, quote) {
      CountStep(text, n - 1, quote);
      MarkerFront(text, quote, rest, n);
    }
  }

  /** A text that ends in a marker quote of its own is not open, and stays only if the quote is put back. */
  lemma {:induction false} MarkerFront(text: string, quote: char, rest: string, n: nat)
    requires n == TrimmedEnd(text) && EndsInMarker(text, quote)
    ensures StringFront(text, quote, rest) == text <==> n == |text| && LeadingRun(rest, quote) == 1
  {
    assert text[..n] == text[..n-1] + [quote];
  }

  /** A marker quote and the spaces after it: dropped when the quotes before are odd, else all kept. */
  lemma {:induction false} MarkedFront(text: string, quote: char, margin: nat, rest: string)
    requires IsQuote(quote)
    ensures var whole := text + ([quote] + Spaces(margin));
      StringFront(whole, quote, rest) ==
        if !OpenAtEnd(text, quote) then whole else if LeadingRun(rest, quote) == 1 then text + [quote] else text
  {
    var whole := text + ([quote] + Spaces(margin));
    TrimmedEndIs(whole, |text| + 1);
    assert whole[..|text|] == text;
    assert whole[..|text| + 1] == text + [quote];
    assert (text + [quote])[..|text|] == text;
  }

  lemma {:induction false} LeadingRunIs(s: string, c: char, n: nat)
    requires n <= |s| && (n < |s| ==> s[n] != c) && forall k :: 0 <= k < n ==> s[k] == c
    ensures LeadingRun(s, c) == n
  {
  }

  /** A literal's next line starts with spaces and a quote; the text after them is appended. */
  lemma {:induction false} ContinuesAfterQuote(indent: nat, quote: char, rest: string)
    requires IsQuote(quote)
    ensures var cont := Spaces(indent) + [quote] + rest;
      && LeadingRun(cont, ' ') == indent && ContinuesString(cont) && cont[indent] == quote
      && Skipped(cont) == indent + 1 && cont[indent + 1..] == rest
  {
    LeadingRunIs(Spaces(indent) + [quote] + rest, ' ', indent);
  }

  /** The body that goes on after a marker does not start with a single quote. */
  lemma {:induction false} PairedRun(body: string, quote: char, rest: string)
    requires Paired(body, quote) && body != []
    ensures LeadingRun(body + rest, quote) != 1
  {
  }

  /** One break, in either form and after any text: merging undoes it under exactly this condition. */
  lemma {:induction false} BreakIsUndoneIff(text: string, quote: char, p: Piece, indent: nat, rest: string)
    requires IsQuote(quote)
    ensures (MergeOne(text + Ending(quote, p), Spaces(indent) + [quote] + rest) == text + rest) <==> Undone(text, quote, p, rest)
  {
    ContinuesAfterQuote(indent, quote, rest);
    SameTail(StringFront(text + Ending(quote, p), quote, rest), text, rest);
    if p.marker {
      MarkedFront(text, quote, p.margin, rest);
    } else {
      assert text + Ending(quote, p) == text;
      OpenFrontIff(text, quote, rest);
    }
  }

  lemma {:induction false} SameTail(a: string, b: string, tail: string)
    ensures a + tail == b + tail <==> a == b
  {
    assert (a + tail)[..|a + tail| - |tail|] == a && (b + tail)[..|b + tail| - |tail|] == b;
  }

  /**
    A line that goes on with a quote although no literal is open, by the count of quotes, before it:
    the spaces at the end of the text are dropped, but a single one is kept, and so is the rest.
  */
  lemma {:induction false} NotOpenBreak(text: string, margin: nat, quote: char, indent: nat, rest: string)
    requires IsQuote(quote) && text != [] && !IsTrimmed(text[|text|-1]) && text[|text|-1] != quote && !OpenAtEnd(text, quote)
    ensures MergeOne(text + Spaces(margin), Spaces(indent) + [quote] + rest) == text + (if margin == 1 then " " else "") + rest
  {
    var whole := text + Spaces(margin);
    ContinuesAfterQuote(indent, quote, rest);
    TrimmedEndIs(whole, |text|);
    assert whole[..|text|] == text && whole[|text|-1] == text[|text|-1];
    assert text + "" == text;
  }

  // ----- Words -----

  lemma {:induction false} LeadingTrimmedIs(s: string, n: nat)
    requires n <= |s| && (n < |s| ==> !IsTrimmed(s[n])) && forall k :: 0 <= k < n ==> IsTrimmed(s[k])
    ensures LeadingTrimmed(s) == n
  {
  }

  /** A word's next line: spaces, and then a character that is neither white space nor a quote. */
  lemma {:induction false} ContinuesWord(indent: nat, rest: string)
    requires rest != [] && !IsTrimmed(rest[0]) && !IsQuote(rest[0])
    ensures var cont := Spaces(indent) + rest;
      !ContinuesString(cont) && LeadingTrimmed(cont) == indent == Skipped(cont) && cont[indent..] == rest
  {
    var cont := Spaces(indent) + rest;
    assert cont[indent] == rest[0];
    LeadingRunIs(cont, ' ', indent);
    LeadingTrimmedIs(cont, indent);
  }

  /**
    A word or a sentence broken between lines, with spaces to the margin and before the rest: all of
    them are dropped, but a single space before the rest is kept.
  */
  lemma {:induction false} WordBreak(text: string, margin: nat, indent: nat, rest: string)
    requires text != [] && !IsTrimmed(text[|text|-1])
    requires rest != [] && !IsTrimmed(rest[0]) && !IsQuote(rest[0])
    ensures MergeOne(text + Spaces(margin), Spaces(indent) + rest) == text + (if indent == 1 then " " else "") + rest
    ensures MergeOne(text + Spaces(margin), Spaces(indent) + rest) == text + rest <==> indent != 1
  {
    ContinuesWord(indent, rest);
    TrimmedEndIs(text + Spaces(margin), |text|);
    assert (text + Spaces(margin))[..|text|] == text;
    if indent == 1 {
      assert |text + " " + rest| != |text + rest|;
    } else {
      assert text + "" + rest == text + rest;
    }
  }

  // ----- Any number of breaks -----

  function LastPiece(first: Piece, middle: seq<Piece>): Piece {
    if middle == [] then first else middle[|middle|-1]
  }

  /** Bodies do not split a doubled quote, and after a marker quote the literal goes on. */
  predicate Splits(quote: char, first: Piece, middle: seq<Piece>) {
    if middle == [] then Paired(first.body, quote)
    else
      var init, p := middle[..|middle|-1], middle[|middle|-1];
      Splits(quote, first, init) && Paired(p.body, quote) && (LastPiece(first, init).marker ==> p.body != [])
  }

  /** The literal so far, open. */
  function OpenLiteral(pre: string, quote: char, first: Piece, middle: seq<Piece>): string {
    pre + [quote] + first.body + Bodies(middle)
  }

  lemma {:induction false} BodyKeepsParity(text: string, quote: char, body: string)
    requires Paired(body, quote)
    ensures OpenAtEnd(text + body, quote) <==> OpenAtEnd(text, quote)
  {
    CountOfAppend(text, body, quote);
    PairedIsEven(body, quote);
  }

  lemma {:induction false} OpenLiteralNone(pre: string, quote: char, first: Piece)
    ensures OpenLiteral(pre, quote, first, []) == pre + [quote] + first.body
  {
  }

  lemma {:induction false} OpenLiteralSnoc(pre: string, quote: char, first: Piece, init: seq<Piece>, p: Piece)
    ensures OpenLiteral(pre, quote, first, init + [p]) == OpenLiteral(pre, quote, first, init) + p.body
  {
    assert (init + [p])[..|init|] == init;
    assert Bodies(init + [p]) == Bodies(init) + p.body;
    Associates(pre + [quote] + first.body, Bodies(init), p.body);
  }

  lemma {:induction false} Associates(a: string, b: string, c: string)
    ensures (a + b) + c == a + (b + c)
  {
  }

  /** The quotes of an open literal are odd exactly when those before it are even. */
  lemma {:induction false} OpenLiteralParity(pre: string, quote: char, first: Piece, middle: seq<Piece>)
    requires Splits(quote, first, middle)
    ensures OpenAtEnd(OpenLiteral(pre, quote, first, middle), quote) <==> !OpenAtEnd(pre, quote)
  {
    if middle == [] {
      OpenLiteralNone(pre, quote, first);
      CountOfAppend(pre, [quote], quote);
      CountOfSmall([quote], quote);
      BodyKeepsParity(pre + [quote], quote, first.body);
    } else {
      var init, p := middle[..|middle|-1], middle[|middle|-1];
      assert middle == init + [p];
      OpenLiteralParity(pre, quote, first, init);
      OpenLiteralSnoc(pre, quote, first, init, p);
      BodyKeepsParity(OpenLiteral(pre, quote, first, init), quote, p.body);
    }
  }

  lemma {:induction false} MergedSnoc(text: string, conts: seq<string>, cont: string)
    ensures MergedText(text, conts + [cont]) == MergeOne(MergedText(text, conts), cont)
  {
    assert (conts + [cont])[..|conts|] == conts;
  }

  lemma {:induction false} MiddleLinesSnoc(quote: char, init: seq<Piece>, p: Piece)
    ensures MiddleLines(quote, init + [p]) == MiddleLines(quote, init) + [MiddleLine(quote, p)]
  {
    assert (init + [p])[..|init|] == init;
  }

  lemma {:induction false} FirstLineIsOpen(pre: string, quote: char, first: Piece)
    ensures MergedText(FirstLine(pre, quote, first), MiddleLines(quote, [])) ==
      OpenLiteral(pre, quote, first, []) + Ending(quote, LastPiece(first, []))
  {
    OpenLiteralNone(pre, quote, first);
  }

  lemma {:induction false} SplitsInit(quote: char, first: Piece, init: seq<Piece>, p: Piece)
    requires Splits(quote, first, init + [p])
    ensures Splits(quote, first, init) && Paired(p.body, quote) && (LastPiece(first, init).marker ==> p.body != [])
  {
    assert (init + [p])[..|init|] == init;
  }

  /** Every break before the last of `pieces` is undone; `e` follows the last body. */
  predicate AllUndone(pre: string, quote: char, first: Piece, pieces: seq<Piece>, e: string)
    decreases |pieces|
  {
    pieces != [] ==>
      var init, p := pieces[..|pieces|-1], pieces[|pieces|-1];
      var before := LastPiece(first, init);
      AllUndone(pre, quote, first, init, Ending(quote, before)) && Undone(OpenLiteral(pre, quote, first, init), quote, before, p.body + e)
  }

  /** No break has a marker quote, and none loses anything for margin. */
  predicate AllKept(pre: string, quote: char, first: Piece, pieces: seq<Piece>, e: string)
    decreases |pieces|
  {
    pieces != [] ==>
      var init, p := pieces[..|pieces|-1], pieces[|pieces|-1];
      var before := LastPiece(first, init);
      && AllKept(pre, quote, first, init, Ending(quote, before))
      && !before.marker && KeptOpen(OpenLiteral(pre, quote, first, init), quote, p.body + e)
  }

  lemma {:induction false} AllUndoneIff(pre: string, quote: char, first: Piece, pieces: seq<Piece>, e: string)
    requires IsQuote(quote) && Splits(quote, first, pieces)
    ensures AllUndone(pre, quote, first, pieces, e) <==> !OpenAtEnd(pre, quote) || AllKept(pre, quote, first, pieces, e)
    decreases |pieces|
  {
    if pieces != [] {
      var init, p := pieces[..|pieces|-1], pieces[|pieces|-1];
      var before := LastPiece(first, init);
      AllUndoneIff(pre, quote, first, init, Ending(quote, before));
      OpenLiteralParity(pre, quote, first, init);
      if before.marker { PairedRun(p.body, quote, e); }
    }
  }

  // ----- A break that is not undone stays visible -----

  /** What the merge leaves of `x` and a line ending. */
  function FrontAfter(x: string, quote: char, p: Piece, rest: string): string {
    StringFront(x + Ending(quote, p), quote, rest)
  }

  lemma {:induction false} FrontOfOpen(x: string, quote: char, p: Piece, rest: string)
    requires IsQuote(quote) && OpenAtEnd(x, quote) && (p.marker ==> LeadingRun(rest, quote) != 1)
    ensures FrontAfter(x, quote, p, rest) == x
  {
    if p.marker {
      MarkedFront(x, quote, p.margin, rest);
    } else {
      assert x + Ending(quote, p) == x;
      OpenFrontIff(x, quote, rest);
    }
  }

  /** After an even number of quotes a merge keeps the text, or makes the number odd, or loses a character, or turns the last one into a space. */
  lemma {:induction false} FrontOfEven(x: string, quote: char, p: Piece, rest: string)
    requires IsQuote(quote) && !OpenAtEnd(x, quote)
    ensures var n := FrontAfter(x, quote, p, rest);
      n == x || OpenAtEnd(n, quote) || |n| < |x| || (x != [] && x[|x|-1] != ' ' && n == x[..|x|-1] + " ")
  {
    if p.marker {
      MarkedFront(x, quote, p.margin, rest);
      MarkerMakesOdd(x, quote, p.margin);
    } else {
      assert x + Ending(quote, p) == x;
      OpenFrontOfEven(x, quote, rest);
    }
  }

  lemma {:induction false} OpenFrontOfEven(x: string, quote: char, rest: string)
    requires !OpenAtEnd(x, quote)
    ensures var n := StringFront(x, quote, rest);
      n == x || |n| < |x| || (x != [] && x[|x|-1] != ' ' && n == x[..|x|-1] + " ")
  {
    var n := TrimmedEnd(x);
    assert x[..n] + x[n..] == x;
    assert n > 0 && x[n-1] == quote ==> x[..n-1] + [quote] == x[..n];
  }

  lemma {:induction false} MarkerMakesOdd(x: string, quote: char, margin: nat)
    requires IsQuote(quote) && !OpenAtEnd(x, quote)
    ensures OpenAtEnd(x + ([quote] + Spaces(margin)), quote)
  {
    CountOfAppend(x, [quote] + Spaces(margin), quote);
    CountOfAppend([quote], Spaces(margin), quote);
    CountOfSmall([quote], quote);
    CountOfNone(Spaces(margin), quote);
  }

  predicate SpaceDiffers(x: string, a: string) {
    exists i :: 0 <= i < |x| && i < |a| && x[i] == ' ' && a[i] != ' '
  }

  /** `x` is not `a`, whose quotes are even, in a way that later merges keep. */
  predicate Off(x: string, a: string, quote: char) {
    !OpenAtEnd(a, quote) && (OpenAtEnd(x, quote) || |x| < |a| || (|x| == |a| && SpaceDiffers(x, a)))
  }

  lemma {:induction false} OffAppend(x: string, a: string, quote: char, body: string)
    requires Off(x, a, quote) && Paired(body, quote)
    ensures Off(x + body, a + body, quote) && x + body != a + body
  {
    BodyKeepsParity(x, quote, body);
    BodyKeepsParity(a, quote, body);
    if |x| == |a| && SpaceDiffers(x, a) {
      var i :| 0 <= i < |x| && i < |a| && x[i] == ' ' && a[i] != ' ';
      assert (x + body)[i] == ' ' && (a + body)[i] != ' ';
    }
  }

  /** A break that is not undone. */
  lemma {:induction false} OffStart(a: string, quote: char, p: Piece, rest: string)
    requires IsQuote(quote) && !OpenAtEnd(a, quote) && FrontAfter(a, quote, p, rest) != a
    ensures Off(FrontAfter(a, quote, p, rest), a, quote)
  {
    FrontOfEven(a, quote, p, rest);
    var n := FrontAfter(a, quote, p, rest);
    assert |n| == |a| && n == a[..|a|-1] + " " ==> n[|a|-1] == ' ';
  }

  /** One more break does not repair it. */
  lemma {:induction false} OffStep(x: string, a: string, quote: char, p: Piece, rest: string)
    requires IsQuote(quote) && Off(x, a, quote) && (p.marker ==> LeadingRun(rest, quote) != 1)
    ensures Off(FrontAfter(x, quote, p, rest), a, quote)
  {
    if OpenAtEnd(x, quote) {
      FrontOfOpen(x, quote, p, rest);
    } else {
      FrontOfEven(x, quote, p, rest);
      LastToSpaceStaysOff(x, a);
    }
  }

  lemma {:induction false} LastToSpaceStaysOff(x: string, a: string)
    requires |x| < |a| || (|x| == |a| && SpaceDiffers(x, a))
    ensures x != [] ==> var n := x[..|x|-1] + " "; |n| < |a| || (|n| == |a| && SpaceDiffers(n, a))
  {
    if |x| == |a| {
      var i :| 0 <= i < |x| && i < |a| && x[i] == ' ' && a[i] != ' ';
      assert (x[..|x|-1] + " ")[i] == ' ';
    }
  }

  /** The next line, after text that is the open literal so far or off it. */
  lemma {:induction false} NextPieceLeaves(a: string, x: string, quote: char, before: Piece, p: Piece, e: string) returns (x': string)
    requires IsQuote(quote) && Paired(p.body, quote) && (before.marker ==> p.body != [])
    requires x == a || Off(x, a, quote)
    requires OpenAtEnd(a, quote) ==> x == a
    ensures MergeOne(x + Ending(quote, before), Spaces(p.indent) + [quote] + (p.body + e)) == x' + e
    ensures x' == a + p.body <==> x == a && Undone(a, quote, before, p.body + e)
    ensures x' == a + p.body || Off(x', a + p.body, quote)
  {
    var rest := p.body + e;
    if before.marker { PairedRun(p.body, quote, e); }
    ContinuesAfterQuote(p.indent, quote, rest);
    var n := FrontAfter(x, quote, before, rest);
    x' := n + p.body;
    Associates(n, p.body, e);
    SameTail(n, a, p.body);
    if x == a {
      FrontIsUndone(a, quote, before, p.indent, rest);
      if n != a {
        if OpenAtEnd(a, quote) { FrontOfOpen(a, quote, before, rest); }
        OffStart(a, quote, before, rest);
        OffAppend(n, a, quote, p.body);
      }
    } else {
      OffStep(x, a, quote, before, rest);
      OffAppend(n, a, quote, p.body);
    }
  }

  lemma {:induction false} FrontIsUndone(a: string, quote: char, p: Piece, indent: nat, rest: string)
    requires IsQuote(quote)
    ensures FrontAfter(a, quote, p, rest) == a <==> Undone(a, quote, p, rest)
  {
    BreakIsUndoneIff(a, quote, p, indent, rest);
    ContinuesAfterQuote(indent, quote, rest);
    SameTail(FrontAfter(a, quote, p, rest), a, rest);
  }

  // ----- Any number of breaks, merged -----

  /** The lines so far merge to the open literal if and only if every break was undone, and are off it for good otherwise. */
  lemma {:induction false} MiddleLeaves(pre: string, quote: char, first: Piece, middle: seq<Piece>) returns (x: string)
    requires IsQuote(quote) && Splits(quote, first, middle)
    ensures MergedText(FirstLine(pre, quote, first), MiddleLines(quote, middle)) == x + Ending(quote, LastPiece(first, middle))
    ensures var a := OpenLiteral(pre, quote, first, middle);
      && (x == a <==> AllUndone(pre, quote, first, middle, Ending(quote, LastPiece(first, middle))))
      && (x == a || Off(x, a, quote))
  {
    if middle == [] {
      FirstLineIsOpen(pre, quote, first);
      x := OpenLiteral(pre, quote, first, []);
    } else {
      var init, p := middle[..|middle|-1], middle[|middle|-1];
      assert middle == init + [p];
      var before := MiddleLeaves(pre, quote, first, init);
      MiddleLinesSnoc(quote, init, p);
      MergedSnoc(FirstLine(pre, quote, first), MiddleLines(quote, init), MiddleLine(quote, p));
      OpenLiteralSnoc(pre, quote, first, init, p);
      x := NextPieceLeaves(OpenLiteral(pre, quote, first, init), before, quote, LastPiece(first, init), p, Ending(quote, p));
    }
  }

  /** However a literal is split, and whatever stands before it: its lines merge to the unsplit line if and only if every break is undone. */
  lemma {:induction false} MergesIffAllUndone(pre: string, quote: char, first: Piece, middle: seq<Piece>, last: Piece, post: string)
    requires IsQuote(quote) && Splits(quote, first, middle + [last])
    ensures (MergedText(FirstLine(pre, quote, first), MiddleLines(quote, middle) + [LastLine(quote, last, post)]) ==
        OpenLiteral(pre, quote, first, middle + [last]) + ([quote] + post)) <==>
      AllUndone(pre, quote, first, middle + [last], [quote] + post)
  {
    var pieces, e := middle + [last], [quote] + post;
    assert pieces[..|middle|] == middle;
    SplitsInit(quote, first, middle, last);
    var x := MiddleLeaves(pre, quote, first, middle);
    MergedSnoc(FirstLine(pre, quote, first), MiddleLines(quote, middle), LastLine(quote, last, post));
    OpenLiteralSnoc(pre, quote, first, middle, last);
    var x' := NextPieceLeaves(OpenLiteral(pre, quote, first, middle), x, quote, LastPiece(first, middle), last, e);
    SameTail(x', OpenLiteral(pre, quote, first, pieces), e);
  }

  /** Whether a split is put together again: decided by the quotes that other literals before it hold, and by its breaks. */
  predicate MergesBack(pre: string, quote: char, first: Piece, middle: seq<Piece>, last: Piece, post: string) {
    Held(pre, quote) % 2 == 0 || AllKept(pre, quote, first, middle + [last], [quote] + post)
  }

  /**
    A literal after text in which none is open, split over any number of lines, each break in either
    form: merging its lines gives the line on which it was never split if and only if the literals
    of the other kind before it hold an even number of its quotes, or no break has a marker quote
    and none loses anything for margin.
  */
  lemma {:induction false} SplitLiteralMerges(pre: string, quote: char, first: Piece, middle: seq<Piece>, last: Piece, post: string)
    requires IsQuote(quote) && OutsideLiteral(pre) && Splits(quote, first, middle + [last])
    ensures (MergedText(FirstLine(pre, quote, first), MiddleLines(quote, middle) + [LastLine(quote, last, post)]) ==
        pre + [quote] + first.body + Bodies(middle + [last]) + ([quote] + post)) <==>
      MergesBack(pre, quote, first, middle, last, post)
  {
    MergesIffAllUndone(pre, quote, first, middle, last, post);
    AllUndoneIff(pre, quote, first, middle + [last], [quote] + post);
    ParityOfQuotes(pre, quote);
  }

  /** After an even number of quotes a marker quote is taken for the text's own, and stays. */
  lemma {:induction false} MarkerStays(text: string, quote: char, p: Piece, indent: nat, rest: string)
    requires IsQuote(quote) && p.marker && !OpenAtEnd(text, quote)
    ensures MergeOne(text + Ending(quote, p), Spaces(indent) + [quote] + rest) == text + Ending(quote, p) + rest
  {
    ContinuesAfterQuote(indent, quote, rest);
    MarkedFront(text, quote, p.margin, rest);
  }

  /** A literal that holds one quote of the other kind. */
  const QUOTED_QUOTE: string := "\"'\" "

  lemma {:induction false} QuotedQuoteHoldsOne()
    ensures OutsideLiteral(QUOTED_QUOTE) && Held(QUOTED_QUOTE, '\'') == 1
  {
    var pre := QUOTED_QUOTE;
    assert pre[..3] == "\"'\"" && pre[..3][..2] == "\"'" && pre[..2][..1] == "\"" && pre[..1][..0] == "";
    assert OpenQuote("\"") == Some('"') && OpenQuote("\"'") == Some('"') && OpenQuote("\"'\"") == None;
    assert Held("\"'", '\'') == 1 && Held("\"'\"", '\'') == 1;
  }

  /** After such a literal, 'A' at a marker and then 'B' do not merge to 'AB': the marker and the next opening quote stay. */
  lemma {:induction false} QuoteInEarlierLiteral(first: Piece, last: Piece)
    requires first == Piece(0, "A", true, 0) && last == Piece(0, "B", false, 0)
    ensures Splits('\'', first, [last]) && !MergesBack(QUOTED_QUOTE, '\'', first, [], last, "")
    ensures MergeOne(FirstLine(QUOTED_QUOTE, '\'', first), LastLine('\'', last, "")) == QUOTED_QUOTE + "'A'" + "B'"
  {
    var text := QUOTED_QUOTE + ['\''] + "A";
    QuotedQuoteHoldsOne();
    ParityOfQuotes(QUOTED_QUOTE, '\'');
    OpenLiteralParity(QUOTED_QUOTE, '\'', first, []);
    OpenLiteralNone(QUOTED_QUOTE, '\'', first);
    assert [last][..0] == [];
    MarkerStays(text, '\'', first, 0, "B'");
    assert text + Ending('\'', first) == QUOTED_QUOTE + "'A'";
    assert FirstLine(QUOTED_QUOTE, '\'', first) == text + Ending('\'', first);
    assert LastLine('\'', last, "") == Spaces(0) + ['\''] + "B'";
  }

  /**
    A break at a marker quote is undone exactly when the quotes before it are odd and some of the
    literal is left for the next line: with nothing left the closing quote is doubled instead.
  */
  lemma {:induction false} MarkerNeedsARest(text: string, quote: char, first: Piece, last: Piece, post: string)
    requires IsQuote(quote) && first.marker
    requires Paired(last.body, quote) && (post != [] ==> post[0] != quote)
    ensures (MergeOne(text + Ending(quote, first), LastLine(quote, last, post)) == text + (last.body + ([quote] + post)))
      <==> OpenAtEnd(text, quote) && last.body != []
  {
    var rest := last.body + ([quote] + post);
    BreakIsUndoneIff(text, quote, first, last.indent, rest);
    if last.body != [] {
      PairedRun(last.body, quote, [quote] + post);
    } else {
      NothingLeft(quote, post);
      assert rest == [quote] + post;
    }
  }

  lemma {:induction false} NothingLeft(quote: char, post: string)
    requires post != [] ==> post[0] != quote
    ensures LeadingRun([quote] + post, quote) == 1
  {
  }

  // ----- The lines of a source -----

  function Texts(lines: seq<SourceLine>): seq<string>
    requires forall line :: line in lines ==> line.contentStart <= line.contentEnd <= |line.raw|
  {
    if lines == [] then [] else Texts(lines[..|lines|-1]) + [lines[|lines|-1].ContentText()]
  }

  /** The segments before, and one more with the given text. */
  ghost predicate EndsIn(segments: seq<Segment>, before: seq<Segment>, text: string) {
    segments != [] && segments[..|segments|-1] == before && segments[|segments|-1].text == text
  }

  lemma {:induction false} AddContinuation(segments: seq<Segment>, before: seq<Segment>, text: string, line: SourceLine)
    requires EndsIn(segments, before, text)
    requires line.contentStart <= line.contentEnd <= |line.raw| && line.IsContinuation()
    ensures EndsIn(AddLine(segments, line), before, MergeOne(text, line.ContentText()))
  {
  }

  lemma {:induction false} SegmentsSnoc(lines: seq<SourceLine>, line: SourceLine, includeDebug: bool)
    requires HasContent(lines) && line.contentStart <= line.contentEnd <= |line.raw| && Kept(line, includeDebug)
    ensures HasContent(lines + [line])
    ensures SegmentsOf(lines + [line], includeDebug) == AddLine(SegmentsOf(lines, includeDebug), line)
  {
    assert (lines + [line])[..|lines|] == lines;
  }

  /** The lines make up the segments of `before` and one more, with the merged text of the rest. */
  ghost predicate OneSegment(before: seq<SourceLine>, first: SourceLine, conts: seq<SourceLine>, lines: seq<SourceLine>, includeDebug: bool)
    requires HasContent(before) && HasContent(conts) && first.contentStart <= first.contentEnd <= |first.raw|
  {
    && lines == before + [first] + conts
    && HasContent(lines)
    && EndsIn(SegmentsOf(lines, includeDebug), SegmentsOf(before, includeDebug), MergedText(first.ContentText(), Texts(conts)))
  }

  /** A line and the continuation lines after it become one segment with the merged text. */
  lemma {:induction false} ContinuationLinesMerge(before: seq<SourceLine>, first: SourceLine, conts: seq<SourceLine>, includeDebug: bool)
    requires HasContent(before) && HasContent(conts)
    requires first.contentStart <= first.contentEnd <= |first.raw| && Kept(first, includeDebug) && !first.IsContinuation()
    requires forall line :: line in conts ==> Kept(line, includeDebug) && line.IsContinuation()
    ensures OneSegment(before, first, conts, before + [first] + conts, includeDebug)
  {
    if conts == [] {
      FirstOfSegment(before, first, conts, before + [first] + conts, includeDebug);
    } else {
      var init, last := conts[..|conts|-1], conts[|conts|-1];
      assert last in conts;
      ContinuationLinesMerge(before, first, init, includeDebug);
      OneMoreContinuation(before, first, init, last, conts, before + [first] + init, before + [first] + conts, includeDebug);
    }
  }

  lemma {:induction false} FirstOfSegment(before: seq<SourceLine>, first: SourceLine, none: seq<SourceLine>, lines: seq<SourceLine>, includeDebug: bool)
    requires HasContent(before) && none == [] && lines == before + [first] + none
    requires first.contentStart <= first.contentEnd <= |first.raw| && Kept(first, includeDebug) && !first.IsContinuation()
    ensures OneSegment(before, first, none, lines, includeDebug)
  {
    assert lines == before + [first];
    SegmentsSnoc(before, first, includeDebug);
  }

  lemma {:induction false} OneMoreContinuation(before: seq<SourceLine>, first: SourceLine, init: seq<SourceLine>, last: SourceLine,
                                               conts: seq<SourceLine>, lines: seq<SourceLine>, grown: seq<SourceLine>, includeDebug: bool)
    requires HasContent(before) && HasContent(init) && HasContent(conts) && first.contentStart <= first.contentEnd <= |first.raw|
    requires OneSegment(before, first, init, lines, includeDebug)
    requires conts != [] && init == conts[..|conts|-1] && last == conts[|conts|-1] && grown == before + [first] + conts
    requires last.contentStart <= last.contentEnd <= |last.raw| && Kept(last, includeDebug) && last.IsContinuation()
    ensures OneSegment(before, first, conts, grown, includeDebug)
  {
    assert conts == init + [last] && grown == lines + [last];
    SegmentsSnoc(lines, last, includeDebug);
    TextsSnoc(init, last);
    MergedSnoc(first.ContentText(), Texts(init), last.ContentText());
    AddContinuation(SegmentsOf(lines, includeDebug), SegmentsOf(before, includeDebug), MergedText(first.ContentText(), Texts(init)), last);
  }

  lemma {:induction false} TextsSnoc(init: seq<SourceLine>, last: SourceLine)
    requires HasContent(init) && last.contentStart <= last.contentEnd <= |last.raw|
    ensures HasContent(init + [last]) && Texts(init + [last]) == Texts(init) + [last.ContentText()]
  {
    assert (init + [last])[..|init|] == init;
  }
}
