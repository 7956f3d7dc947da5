/**
  What every token stream of a text has: it is the only one, its tokens stand in order, they cover
  everything but white space and the IS after PIC, and their source spans never go backwards.
*/
module TokenStream {
  import opened Characters
  import opened ContentSegments
  import opened LiteralContinuation
  import opened Lexemes
  import opened Lexer
  import opened OffsetMap

  lemma {:induction false} LastTokenFits(s: string, keywords: set<string>, st: State, ts: seq<Token>, init: seq<Token>, t: Token)
    requires st.pos <= |s| && Tokens(s, keywords, st, ts) && ts != [] && init == ts[..|ts|-1] && t == ts[|ts|-1]
    ensures Tokens(s, keywords, st, init)
    ensures StateAfter(st, init).pos <= |s| && Lexeme(s, keywords, StateAfter(st, init), t)
  {
  }

  lemma {:induction false} InitFits(s: string, keywords: set<string>, st: State, ts: seq<Token>, init: seq<Token>)
    requires st.pos <= |s| && Tokens(s, keywords, st, ts) && ts != [] && init == ts[..|ts|-1]
    ensures Tokens(s, keywords, st, init)
  {
  }

  /** Token `t` of a stream fits where the tokens before it, `before`, end. */
  lemma {:induction false} FitsAfter(s: string, keywords: set<string>, st: State, ts: seq<Token>, before: seq<Token>, t: Token)
    requires st.pos <= |s| && Tokens(s, keywords, st, ts) && |before| < |ts| && before == ts[..|before|] && t == ts[|before|]
    ensures Tokens(s, keywords, st, before)
    ensures StateAfter(st, before).pos <= |s| && Lexeme(s, keywords, StateAfter(st, before), t)
    decreases |ts|
  {
    var init := ts[..|ts|-1];
    if |before| == |init| {
      LastTokenFits(s, keywords, st, ts, before, t);
    } else {
      InitFits(s, keywords, st, ts, init);
      assert before == init[..|before|];
      FitsAfter(s, keywords, st, init, before, t);
    }
  }

  /** Each token of a stream fits where the tokens before it end. */
  lemma {:induction false} TokenFits(s: string, keywords: set<string>, st: State, ts: seq<Token>, i: nat)
    requires st.pos <= |s| && Tokens(s, keywords, st, ts) && i < |ts|
    ensures Tokens(s, keywords, st, ts[..i])
    ensures StateAfter(st, ts[..i]).pos <= |s| && Lexeme(s, keywords, StateAfter(st, ts[..i]), ts[i])
  {
    FitsAfter(s, keywords, st, ts, ts[..i], ts[i]);
  }

  lemma {:induction false} SameNext(s: string, keywords: set<string>, st: State, a: seq<Token>, b: seq<Token>, n: nat)
    requires st.pos <= |s| && Tokens(s, keywords, st, a) && Tokens(s, keywords, st, b) && n < |a| && n < |b|
    requires a[..n] == b[..n]
    ensures a[n] == b[n]
  {
    TokenFits(s, keywords, st, a, n);
    TokenFits(s, keywords, st, b, n);
    LexemeIsUnique(s, keywords, StateAfter(st, a[..n]), a[n], b[n]);
  }

  lemma {:induction false} PrefixGrows(a: seq<Token>, b: seq<Token>, n: nat)
    requires n < |a| && n < |b| && a[..n] == b[..n] && a[n] == b[n]
    ensures a[..n+1] == b[..n+1]
  {
    assert a[..n+1] == a[..n] + [a[n]] && b[..n+1] == b[..n] + [b[n]];
  }

  lemma {:induction false} PrefixesAgree(s: string, keywords: set<string>, st: State, a: seq<Token>, b: seq<Token>, n: nat)
    requires st.pos <= |s| && Tokens(s, keywords, st, a) && Tokens(s, keywords, st, b) && n <= |a| && n <= |b|
    ensures a[..n] == b[..n]
  {
    if n > 0 {
      PrefixesAgree(s, keywords, st, a, b, n - 1);
      SameNext(s, keywords, st, a, b, n - 1);
      PrefixGrows(a, b, n - 1);
    }
  }

  lemma {:induction false} EndIsLast(ts: seq<Token>, i: nat)
    requires EndsTheStream(ts) && i < |ts| && ts[i].kind == Eof
    ensures i == |ts| - 1
  {
  }

  /** A text has only one token stream. */
  lemma {:induction false} OnlyOneTokenization(s: string, keywords: set<string>, st: State, a: seq<Token>, b: seq<Token>)
    requires st.pos <= |s| && Tokenized(s, keywords, st, a) && Tokenized(s, keywords, st, b)
    ensures a == b
  {
    var n := if |a| < |b| then |a| else |b|;
    PrefixesAgree(s, keywords, st, a, b, n);
    assert a[..n][n-1] == b[..n][n-1];
    EndIsLast(a, n - 1);
    EndIsLast(b, n - 1);
  }

  // ----- Order and coverage -----

  function EndOf(st: State, ts: seq<Token>): nat {
    if ts == [] then st.pos else ts[|ts|-1].end
  }

  lemma {:induction false} StateIsAtEnd(st: State, ts: seq<Token>)
    ensures StateAfter(st, ts).pos == EndOf(st, ts)
  {
  }

  lemma {:induction false} TokenInRange(s: string, keywords: set<string>, st: State, ts: seq<Token>, i: nat)
    requires st.pos <= |s| && Tokens(s, keywords, st, ts) && i < |ts|
    ensures EndOf(st, ts[..i]) <= ts[i].start <= ts[i].end <= |s|
  {
    TokenFits(s, keywords, st, ts, i);
    LexemeRange(s, keywords, StateAfter(st, ts[..i]), ts[i]);
    StateIsAtEnd(st, ts[..i]);
  }

  lemma {:induction false} LastGrows(s: string, keywords: set<string>, st: State, ts: seq<Token>, init: seq<Token>)
    requires st.pos <= |s| && Tokens(s, keywords, st, ts) && ts != [] && init == ts[..|ts|-1]
    ensures EndOf(st, init) <= EndOf(st, ts)
  {
    TokenInRange(s, keywords, st, ts, |ts| - 1);
  }

  lemma {:induction false} PrefixEndsBefore(s: string, keywords: set<string>, st: State, ts: seq<Token>, before: seq<Token>)
    requires st.pos <= |s| && Tokens(s, keywords, st, ts) && before <= ts
    ensures st.pos <= EndOf(st, before) <= EndOf(st, ts)
    decreases |ts|
  {
    if ts != [] {
      var init := ts[..|ts|-1];
      InitFits(s, keywords, st, ts, init);
      LastGrows(s, keywords, st, ts, init);
      PrefixEndsBefore(s, keywords, st, init, if before == ts then init else before);
    }
  }

  lemma {:induction false} EndsGrow(s: string, keywords: set<string>, st: State, ts: seq<Token>, i: nat)
    requires st.pos <= |s| && Tokens(s, keywords, st, ts) && i <= |ts|
    ensures st.pos <= EndOf(st, ts[..i]) <= EndOf(st, ts)
  {
    PrefixEndsBefore(s, keywords, st, ts, ts[..i]);
  }

  /** Ranges lie in the text, one after the other. */
  lemma {:induction false} TokensInOrder(s: string, keywords: set<string>, st: State, ts: seq<Token>, i: nat)
    requires st.pos <= |s| && Tokens(s, keywords, st, ts) && i < |ts|
    ensures st.pos <= EndOf(st, ts[..i]) <= ts[i].start <= ts[i].end <= EndOf(st, ts) <= |s|
  {
    TokenInRange(s, keywords, st, ts, i);
    TokenInRange(s, keywords, st, ts, |ts| - 1);
    EndsGrow(s, keywords, st, ts, i);
    EndsGrow(s, keywords, st, ts, i + 1);
    assert ts[..i+1][i] == ts[i];
  }

  /** Tokens do not overlap. */
  lemma {:induction false} TokensAreDisjoint(s: string, keywords: set<string>, st: State, ts: seq<Token>, i: nat, j: nat)
    requires st.pos <= |s| && Tokens(s, keywords, st, ts) && i < j < |ts|
    ensures ts[i].end <= ts[j].start
  {
    TokensInOrder(s, keywords, st, ts, j);
    TokenFits(s, keywords, st, ts, j);
    TokensInOrder(s, keywords, st, ts[..j], i);
  }

  /** Position `k` belongs to the IS that is skipped before token `i`. */
  ghost predicate SkippedIs(s: string, before: State, k: nat)
    requires before.pos <= |s|
  {
    var at := BlanksEnd(s, before.pos);
    before.picture && LoneIs(s, at) && at <= k < at + 2
  }

  /** Before a token there is only white space, apart from an IS after PIC. */
  lemma {:induction false} GapIsBlank(s: string, keywords: set<string>, before: State, t: Token, k: nat)
    requires before.pos <= |s| && Lexeme(s, keywords, before, t) && before.pos <= k < t.start
    ensures k < |s| && (IsWhitespace(s[k]) || SkippedIs(s, before, k))
  {
    var at := BlanksEnd(s, before.pos);
    assert Blank(s, before.pos, at);
    if before.picture && LoneIs(s, at) { assert Blank(s, at + 2, t.start); }
  }

  /** Every character other than white space is in a token, or is the IS after PIC. */
  lemma {:induction false} EveryCharacterIsCovered(s: string, keywords: set<string>, st: State, ts: seq<Token>, k: nat) returns (i: nat)
    requires st.pos <= |s| && Tokens(s, keywords, st, ts) && st.pos <= k < EndOf(st, ts)
    ensures i < |ts| && k < |s| && StateAfter(st, ts[..i]).pos <= |s|
    ensures ts[i].start <= k < ts[i].end || IsWhitespace(s[k]) || SkippedIs(s, StateAfter(st, ts[..i]), k)
  {
    var last := |ts| - 1;
    TokenFits(s, keywords, st, ts, last);
    TokensInOrder(s, keywords, st, ts, last);
    if k < EndOf(st, ts[..last]) {
      i := EveryCharacterIsCovered(s, keywords, st, ts[..last], k);
      assert ts[..last][..i] == ts[..i];
    } else {
      i := last;
      if k < ts[last].start { GapIsBlank(s, keywords, StateAfter(st, ts[..last]), ts[last], k); }
    }
  }

  /** The end token stands at the end of the text, so the stream covers all of it. */
  lemma {:induction false} StreamReachesEnd(s: string, keywords: set<string>, st: State, ts: seq<Token>)
    requires st.pos <= |s| && Tokenized(s, keywords, st, ts)
    ensures EndOf(st, ts) == |s| && ts[|ts|-1] == Token(Eof, |s|, |s|)
    ensures forall i :: 0 <= i < |ts| - 1 && ts[i].start == ts[i].end ==> ts[i].kind == Error && StateAfter(st, ts[..i]).picture
  {
    TokenFits(s, keywords, st, ts, |ts| - 1);
    LexemeRange(s, keywords, StateAfter(st, ts[..|ts|-1]), ts[|ts|-1]);
    forall i | 0 <= i < |ts| - 1 && ts[i].start == ts[i].end
      ensures ts[i].kind == Error && StateAfter(st, ts[..i]).picture
    {
      TokenFits(s, keywords, st, ts, i);
      LexemeRange(s, keywords, StateAfter(st, ts[..i]), ts[i]);
    }
  }

  // ----- Source spans -----

  /** The source offset of a position of the flat text; past the end it is one after the last. */
  function SourceOffset(offsets: seq<nat>, p: nat): nat {
    if p < |offsets| then offsets[p] else if offsets == [] then 0 else offsets[|offsets|-1] + 1
  }

  /** `make_token` and `make_eof`: the span of a token. */
  function Span(offsets: seq<nat>, t: Token): (nat, nat) {
    var start := SourceOffset(offsets, t.start);
    (start, if t.start < |offsets| && 0 < t.end <= |offsets| then SourceOffset(offsets, t.end) else start)
  }

  lemma {:induction false} SourceOffsetMonotone(offsets: seq<nat>, p: nat, q: nat)
    requires Increasing(offsets) && p <= q <= |offsets|
    ensures SourceOffset(offsets, p) <= SourceOffset(offsets, q)
    ensures p < q ==> SourceOffset(offsets, p) < SourceOffset(offsets, q)
  {
  }

  /** A span ends no earlier than it starts, later when its token has characters, and spans never go backwards. */
  lemma {:induction false} SpansNeverGoBack(s: string, keywords: set<string>, st: State, ts: seq<Token>, offsets: seq<nat>, i: nat, j: nat)
    requires st.pos <= |s| && Tokens(s, keywords, st, ts) && i < j < |ts|
    requires |offsets| == |s| && Increasing(offsets)
    ensures Span(offsets, ts[i]).0 <= Span(offsets, ts[i]).1 <= Span(offsets, ts[j]).0 <= Span(offsets, ts[j]).1
    ensures ts[i].start < ts[i].end ==> Span(offsets, ts[i]).0 < Span(offsets, ts[i]).1
  {
    TokensInOrder(s, keywords, st, ts, i);
    TokensInOrder(s, keywords, st, ts, j);
    TokensAreDisjoint(s, keywords, st, ts, i, j);
    SourceOffsetMonotone(offsets, ts[i].start, ts[i].end);
    SourceOffsetMonotone(offsets, ts[i].end, ts[j].start);
    SourceOffsetMonotone(offsets, ts[j].start, ts[j].end);
  }

  // ----- Literals -----

  /** A quoted literal in the text lexes to one string token with exactly its characters. */
  lemma {:induction false} LiteralLexes(pre: string, quote: char, body: string, post: string, keywords: set<string>, st: State, t: Token)
    requires var s := pre + ([quote] + body + [quote]) + post;
      && st.pos <= |s| && !st.picture && TokenStart(s, st) == |pre| && Lexeme(s, keywords, st, t)
    requires IsQuote(quote) && Paired(body, quote) && '\n' !in body && (post != [] ==> post[0] != quote)
    ensures t == Token(StringLiteral, |pre|, |pre| + |body| + 2)
    ensures (pre + ([quote] + body + [quote]) + post)[t.start..t.end] == [quote] + body + [quote]
  {
    var s := pre + ([quote] + body + [quote]) + post;
    var end := |pre| + |body| + 2;
    assert s[|pre|] == quote && s[end-1] == quote;
    assert s[|pre|..end-1] == [quote] + body && s[|pre|+1..end-1] == body;
    assert end < |s| ==> s[end] == post[0];
    assert Closed(s, |pre|, end);
    var u := Token(StringLiteral, |pre|, end);
    assert LiteralToken(s, |pre|, StringLiteral, u);
    LiteralIsUnique(s, |pre|, StringLiteral, t, u);
  }

  lemma {:induction false} SplitBodiesArePaired(quote: char, first: Piece, middle: seq<Piece>)
    requires Splits(quote, first, middle)
    ensures Paired(first.body + Bodies(middle), quote)
  {
    if middle == [] {
      assert first.body + Bodies(middle) == first.body;
    } else {
      var init, p := middle[..|middle|-1], middle[|middle|-1];
      SplitBodiesArePaired(quote, first, init);
      PairedAppend(first.body + Bodies(init), p.body, quote);
      assert first.body + Bodies(middle) == first.body + Bodies(init) + p.body;
    }
  }

  lemma {:induction false} Regrouped(front: string, pre: string, quote: char, first: string, rest: string, post: string, back: string)
    ensures front + (pre + [quote] + first + rest + ([quote] + post)) + back ==
      (front + pre) + ([quote] + (first + rest) + [quote]) + (post + back)
  {
    assert pre + [quote] + first + rest + ([quote] + post) == pre + ([quote] + (first + rest) + [quote]) + post;
  }

  /**
    A literal split over any number of continuation lines, all of whose breaks merging undoes, lexes
    to one string token, the same as if it had never been split: the token's text is the quote, all
    the pieces and the quote.
  */
  lemma {:induction false} SplitLiteralLexesAsOne(front: string, pre: string, quote: char, first: Piece, middle: seq<Piece>, last: Piece,
                                                  post: string, back: string, text: string, keywords: set<string>, st: State, t: Token)
    requires IsQuote(quote) && Splits(quote, first, middle + [last])
    requires AllUndone(pre, quote, first, middle + [last], [quote] + post)
    requires '\n' !in first.body + Bodies(middle + [last]) && (post + back != [] ==> (post + back)[0] != quote)
    requires text == front + MergedText(FirstLine(pre, quote, first), MiddleLines(quote, middle) + [LastLine(quote, last, post)]) + back
    requires st.pos <= |text| && !st.picture && TokenStart(text, st) == |front| + |pre| && Lexeme(text, keywords, st, t)
    ensures t.kind == StringLiteral && t.start <= t.end <= |text|
    ensures text[t.start..t.end] == [quote] + (first.body + Bodies(middle + [last])) + [quote]
  {
    var body := first.body + Bodies(middle + [last]);
    MergesIffAllUndone(pre, quote, first, middle, last, post);
    Regrouped(front, pre, quote, first.body, Bodies(middle + [last]), post, back);
    SplitBodiesArePaired(quote, first, middle + [last]);
    LiteralLexes(front + pre, quote, body, post + back, keywords, st, t);
  }

  lemma {:induction false} QuotedQuoteThenA()
    ensures QUOTED_QUOTE + "'A'" + "B'" == QUOTED_QUOTE + (['\''] + "A" + ['\'']) + "B'"
    ensures |QUOTED_QUOTE| == 4
    ensures (QUOTED_QUOTE + (['\''] + "A" + ['\'']) + "B'")[4] == '\''
  {
    assert "'A'" == ['\''] + "A" + ['\''];
  }

  /** Where a break is not undone the literal can end early: after "'" the split 'AB' lexes to 'A'. */
  lemma {:induction false} LiteralEndsEarly(first: Piece, last: Piece, keywords: set<string>, t: Token)
    requires first == Piece(0, "A", true, 0) && last == Piece(0, "B", false, 0)
    requires var text := MergeOne(FirstLine(QUOTED_QUOTE, '\'', first), LastLine('\'', last, ""));
      Lexeme(text, keywords, State(4, false, false), t)
    ensures t == Token(StringLiteral, 4, 7)
  {
    QuoteInEarlierLiteral(first, last);
    QuotedQuoteThenA();
    assert Paired("A", '\'') by { assert "A"[1..] == ""; }
    LiteralLexes(QUOTED_QUOTE, '\'', "A", "B'", keywords, State(4, false, false), t);
  }
}
