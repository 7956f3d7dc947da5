/** The lexer: a position and two flags over the flat text, advanced token by token. */
module Lexer {
  import opened Options
  import opened Characters
  import opened ContentSegments
  import opened Lexemes

  class Lexer {
    const content: string
    const keywords: set<string>
    var pos: nat
    var tokens: seq<Token>
    var pictureMode: bool
    var atStatementStart: bool

    constructor (content: string, keywords: set<string>)
      ensures this.content == content && this.keywords == keywords
      ensures Now() == State(0, false, true) && tokens == []
    {
      this.content, this.keywords := content, keywords;
      pos, tokens, pictureMode, atStatementStart := 0, [], false, true;
    }

    ghost predicate Valid()
      reads this
    {
      pos <= |content|
    }

    ghost function Now(): State
      reads this
    {
      State(pos, pictureMode, atStatementStart)
    }

    // ----- Skipping -----

    method SkipWhitespace()
      requires Valid()
      modifies `pos
      ensures pos == BlanksEnd(content, old(pos))
    {
      while pos < |content| && IsWhitespace(content[pos])
        invariant pos <= |content| && BlanksEnd(content, pos) == BlanksEnd(content, old(pos))
      {
        pos := pos + 1;
      }
    }

    method SkipHorizontalWhitespace()
      requires Valid()
      modifies `pos
      ensures pos == HorizontalEnd(content, old(pos))
    {
      while pos < |content| && (content[pos] == ' ' || content[pos] == '\t')
        invariant pos <= |content| && HorizontalEnd(content, pos) == HorizontalEnd(content, old(pos))
      {
        pos := pos + 1;
      }
    }

    method SkipDigits()
      requires Valid()
      modifies `pos
      ensures pos == DigitsEnd(content, old(pos))
    {
      while pos < |content| && IsDigit(content[pos])
        invariant pos <= |content| && DigitsEnd(content, pos) == DigitsEnd(content, old(pos))
      {
        pos := pos + 1;
      }
    }

    /** The rest of a word from `pos` on, less the hyphens it ends with. */
    method SkipWord(start: nat)
      requires Valid() && start <= pos && WordCharsEnd(content, start) == WordCharsEnd(content, pos)
      modifies `pos
      ensures pos == WordEnd(content, start)
    {
      while pos < |content| && IsWordChar(content[pos])
        invariant start <= pos <= |content| && WordCharsEnd(content, start) == WordCharsEnd(content, pos)
      {
        pos := pos + 1;
      }
      while pos > start && content[pos - 1] == '-'
        invariant start <= pos <= |content| && WithoutHyphens(content, start, pos) == WordEnd(content, start)
      {
        pos := pos - 1;
      }
    }

    // ----- Single tokens -----

    /** The loop shared by `lex_string_literal` and `lex_prefixed_literal`; `start` is the opening quote. */
    method LexLiteralBody(start: nat, closedKind: Kind) returns (kind: Kind)
      requires Valid() && pos == start + 1 && IsQuote(content[start])
      modifies `pos
      ensures Valid() && (kind == closedKind || kind == Error)
      ensures kind == closedKind && closedKind != Error ==> Closed(content, start, pos)
      ensures kind == Error && closedKind != Error ==> Unclosed(content, start, pos)
    {
      var quote := content[start];
      LiteralStarts(content, start);
      while pos < |content|
        invariant InLiteral(content, start, pos)
      {
        LiteralStep(content, start, pos);
        if content[pos] == '\n' {
          return Error;
        }
        if content[pos] == quote {
          pos := pos + 1;
          if pos < |content| && content[pos] == quote {
            pos := pos + 1;
            continue;
          }
          return closedKind;
        }
        pos := pos + 1;
      }
      kind := Error;
    }

    method LexStringLiteral() returns (t: Token)
      requires Valid() && pos < |content| && IsQuote(content[pos])
      modifies `pos
      ensures Valid() && t.start == old(pos) && t.end == pos
      ensures LiteralToken(content, t.start, StringLiteral, t)
    {
      var start := pos;
      pos := pos + 1;
      var kind := LexLiteralBody(start, StringLiteral);
      t := Token(kind, start, pos);
    }

    method LexPrefixedLiteral() returns (t: Token)
      requires Valid() && pos < |content| && HasPrefix(content, pos)
      modifies `pos
      ensures Valid() && t.start == old(pos) && t.end == pos
      ensures LiteralToken(content, t.start + 1, PrefixedKind(content[t.start]), t)
    {
      var start := pos;
      pos := pos + 2;
      var kind := LexLiteralBody(start + 1, PrefixedKind(content[start]));
      t := Token(kind, start, pos);
    }

    method ShouldTreatAsSign() returns (sign: bool)
      requires Valid() && pos < |content|
      ensures sign == SignHere(content, pos)
    {
      if pos > 0 && (content[pos-1] == ' ' || content[pos-1] == '\t') {
        return true;
      }
      assert SignBefore(content, pos) == SignHere(content, pos);
      var i: nat := pos;
      while i > 0
        invariant i <= pos && SignBefore(content, i) == SignBefore(content, pos)
      {
        i := i - 1;
        var c := content[i];
        if c == ' ' || c == '\t' {
          continue;
        }
        return c == '=' || c == '+' || c == '-' || c == '*' || c == '/' || c == '(' || c == ',' || c == ';';
      }
      return true;
    }

    method TryLexLevelNumber() returns (t: Option<Token>)
      requires Valid() && pos < |content| && IsDigit(content[pos]) && atStatementStart
      modifies `pos, `atStatementStart
      ensures t.Some? <==> LevelHere(content, old(pos))
      ensures t.Some? ==> t.value == Token(LevelNumber, old(pos), pos) && pos == DigitsEnd(content, old(pos)) && !atStatementStart
      ensures t.None? ==> Now() == old(Now())
    {
      var start, end := pos, pos;
      while end < |content| && IsDigit(content[end]) && end - start < 3
        invariant start <= end <= |content| && end - start <= 3
        invariant DigitsEnd(content, end) == DigitsEnd(content, start)
      {
        end := end + 1;
      }
      if end - start > 2 {
        return None;
      }
      if end < |content| && content[end] != ' ' && content[end] != '\t' && content[end] != '.' {
        return None;
      }
      var n := NumberOf(content[start..end]);
      if 1 <= n <= 49 || n == 66 || n == 77 || n == 88 {
        pos := end;
        atStatementStart := false;
        return Some(Token(LevelNumber, start, pos));
      }
      return None;
    }

    method LexNumber() returns (t: Token)
      requires Valid() && pos < |content| && StartsNumber(content, pos)
      modifies `pos, `atStatementStart
      ensures Valid() && t.start == old(pos) && t.end == pos
      ensures NumberToken(content, t) && atStatementStart == (old(atStatementStart) && t.kind != Identifier)
    {
      var start := pos;
      var hasSign := HasSign(content, pos);
      if hasSign { pos := pos + 1; }
      SkipDigits();
      assert pos == IntegerEnd(content, start);
      if !hasSign && pos < |content| && WordFollows(content, start, pos) {
        DigitsAreWord(content, start);
        SkipWord(start);
        atStatementStart := false;
        return Token(Identifier, start, pos);
      }
      if pos + 1 < |content| && content[pos] == '.' && IsDigit(content[pos + 1]) {
        pos := pos + 1;
        SkipDigits();
        return Token(DecimalLiteral, start, pos);
      }
      return Token(IntegerLiteral, start, pos);
    }

    method LexPictureString() returns (t: Token)
      requires Valid() && (pos < |content| ==> !IsWhitespace(content[pos]))
      modifies `pos
      ensures Valid() && t.start == old(pos) && t.end == pos
      ensures if t.start == |content| then t.kind == Eof && t.end == |content| else PictureLexeme(content, t)
    {
      SkipHorizontalWhitespace();
      if pos >= |content| {
        return Token(Eof, pos, pos);
      }
      var start := pos;
      while pos < |content|
        invariant start <= pos <= |content| && PictureEnd(content, pos) == PictureEnd(content, start)
      {
        var c := content[pos];
        if IsWhitespace(c) { break; }
        if c == '.' && (pos + 1 >= |content| || IsWhitespace(content[pos + 1])) { break; }
        pos := pos + 1;
      }
      return Token(if pos == start then Error else PictureString, start, pos);
    }

    /** The kind and length of an operator, none when `c` starts none. */
    method MatchOperator(c: char, next: Option<char>) returns (op: Option<(Kind, nat)>)
      ensures op == OperatorFrom(c, next)
    {
      match c {
        case '(' => return Some((LeftParen, 1));
        case ')' => return Some((RightParen, 1));
        case '+' => return Some((Plus, 1));
        case '-' => return Some((Minus, 1));
        case '*' => return Some(if next == Some('*') then (DoubleStar, 2) else (Star, 1));
        case '/' => return Some((Slash, 1));
        case '=' => return Some(if next == Some('>') then (EqualGreater, 2) else (Equals, 1));
        case '>' => return Some(if next == Some('=') then (GreaterEqual, 2) else (GreaterThan, 1));
        case '<' => return Some(
          if next == Some('=') then (LessEqual, 2) else if next == Some('>') then (NotEqual, 2) else (LessThan, 1));
        case '.' => return Some((Period, 1));
        case ',' => return Some((Comma, 1));
        case ';' => return Some((Semicolon, 1));
        case ':' => return Some(if next == Some(':') then (DoubleColon, 2) else (Colon, 1));
        case _ => return None;
      }
    }

    /** An operator or period; a period before a digit starts a number instead. */
    method TryLexOperator() returns (t: Option<Token>)
      requires Valid() && pos < |content| && !IsDigit(content[pos]) && (HasSign(content, pos) ==> !StartsNumber(content, pos))
      modifies `pos, `atStatementStart
      ensures Valid()
      ensures t.Some? ==> t.value.start == old(pos) && t.value.end == pos
      ensures t.Some? ==> atStatementStart == After(old(Now()), t.value).statement
      ensures t.Some? && StartsNumber(content, old(pos)) ==> NumberToken(content, t.value)
      ensures t.Some? && !StartsNumber(content, old(pos)) ==>
        OperatorAt(content, old(pos)) == Some((t.value.kind, t.value.end - t.value.start))
      ensures t.None? ==> OperatorAt(content, old(pos)).None? && !StartsNumber(content, old(pos)) && Now() == old(Now())
    {
      var start, c := pos, content[pos];
      var next := if pos + 1 < |content| then Some(content[pos + 1]) else None;
      if c == '.' && next.Some? && IsDigit(next.value) {
        var number := LexNumber();
        return Some(number);
      }
      var op := MatchOperator(c, next);
      if op.None? {
        return None;
      }
      pos := pos + op.value.1;
      if op.value.0 == Period { atStatementStart := true; }
      return Some(Token(op.value.0, start, pos));
    }

    method LexWord() returns (t: Token)
      requires Valid() && pos < |content| && IsLetter(content[pos])
      modifies `pos, `pictureMode, `atStatementStart
      ensures Valid() && t.start == old(pos) && t.end == pos == WordEnd(content, old(pos))
      ensures t.kind == WordKind(content[t.start..t.end], keywords)
      ensures !atStatementStart && pictureMode == (old(pictureMode) || t.kind == Pic)
    {
      var start := pos;
      SkipWord(start);
      var kind := WordKind(content[start..pos], keywords);
      atStatementStart := false;
      if kind == Pic { pictureMode := true; }
      return Token(kind, start, pos);
    }

    // ----- The token stream -----

    method RemainingIsLoneIs() returns (is_: bool)
      requires Valid()
      ensures is_ == LoneIs(content, pos)
    {
      is_ := pos + 2 <= |content| && Upper(content[pos..pos + 2]) == "IS"
        && (pos + 2 >= |content| || IsWhitespace(content[pos + 2]));
    }

    /** After PIC: an optional IS, then the picture. */
    method LexPicture() returns (t: Token)
      requires Valid() && pos < |content| && !IsWhitespace(content[pos]) && pictureMode
      modifies `pos, `pictureMode
      ensures Valid() && t.end == pos && !pictureMode
      ensures t.start == if LoneIs(content, old(pos)) then BlanksEnd(content, old(pos) + 2) else old(pos)
      ensures if t.start == |content| then t.kind == Eof && t.end == |content| else PictureLexeme(content, t)
    {
      pictureMode := false;
      SkipWhitespace();
      var is_ := RemainingIsLoneIs();
      if is_ {
        pos := pos + 2;
        SkipWhitespace();
      }
      t := LexPictureString();
    }

    /** An operator, a word, a number that starts with a period, or an unknown character. */
    method LexSymbol() returns (t: Token)
      requires Valid() && pos < |content| && !IsDigit(content[pos]) && (HasSign(content, pos) ==> !StartsNumber(content, pos))
      requires !pictureMode
      modifies `pos, `pictureMode, `atStatementStart
      ensures Valid() && t.start == old(pos) && Now() == After(old(Now()), t)
      ensures if StartsNumber(content, t.start) then NumberToken(content, t) else SymbolLexeme(content, keywords, t)
    {
      var operator := TryLexOperator();
      if operator.Some? { return operator.value; }
      if IsLetter(content[pos]) {
        t := LexWord();
        return;
      }
      var start := pos;
      pos := pos + 1;
      t := Token(Error, start, pos);
    }

    method LexUnquoted() returns (t: Token)
      requires Valid() && pos < |content| && !pictureMode
      modifies `pos, `pictureMode, `atStatementStart
      ensures Valid() && t.start == old(pos) && UnquotedLexeme(content, keywords, old(atStatementStart), t)
      ensures Now() == After(old(Now()), t)
    {
      var c := content[pos];
      if IsDigit(c) {
        if atStatementStart {
          var level := TryLexLevelNumber();
          if level.Some? { return level.value; }
        }
        t := LexNumber();
        return;
      }
      NoLevelWithoutDigit(content, pos);
      if (c == '+' || c == '-') && pos + 1 < |content| {
        var sign := ShouldTreatAsSign();
        if IsDigit(content[pos + 1]) && sign {
          t := LexNumber();
          return;
        }
      }
      t := LexSymbol();
    }

    method LexPlain() returns (t: Token)
      requires Valid() && pos < |content| && !pictureMode
      modifies `pos, `pictureMode, `atStatementStart
      ensures Valid() && t.start == old(pos) && PlainLexeme(content, keywords, old(atStatementStart), t)
      ensures Now() == After(old(Now()), t)
    {
      var c := content[pos];
      if (c == 'X' || c == 'x' || c == 'B' || c == 'b' || c == 'N' || c == 'n') && pos + 1 < |content| {
        if IsQuote(content[pos + 1]) {
          t := LexPrefixedLiteral();
          return;
        }
      }
      if IsQuote(c) {
        t := LexStringLiteral();
        return;
      }
      t := LexUnquoted();
    }

    /** The next token; each call moves on, or ends the stream, or leaves picture mode. */
    method NextToken() returns (t: Token)
      requires Valid()
      modifies `pos, `pictureMode, `atStatementStart
      ensures Valid() && Lexeme(content, keywords, old(Now()), t)
      ensures if t.kind == Eof then pos == |content| else Now() == After(old(Now()), t)
      ensures t.kind != Eof ==> pos > old(pos) || (old(pictureMode) && !pictureMode)
    {
      ghost var st := Now();
      SkipWhitespace();
      if pos >= |content| {
        t := Token(Eof, pos, pos);
      } else if pictureMode {
        t := LexPicture();
      } else {
        t := LexPlain();
      }
      LexemeRange(content, keywords, st, t);
    }

    /** The next token goes to the end of the list. */
    method PushToken(ghost st: State) returns (isEof: bool)
      requires Valid() && st.pos <= |content| && Tokens(content, keywords, st, tokens)
      requires NoEnd(tokens) && Now() == StateAfter(st, tokens)
      modifies this
      ensures Valid() && Tokens(content, keywords, st, tokens)
      ensures if isEof then pos == |content| && EndsTheStream(tokens) else NoEnd(tokens) && Now() == StateAfter(st, tokens)
      ensures !isEof ==> pos > old(pos) || (pos == old(pos) && old(pictureMode) && !pictureMode)
    {
      var t := NextToken();
      TokensSnoc(content, keywords, st, tokens, t);
      tokens := tokens + [t];
      isEof := t.kind == Eof;
    }

    /** All tokens up to the end of the text. */
    method LexAll() returns (result: seq<Token>)
      requires Valid() && tokens == []
      modifies this
      ensures Tokenized(content, keywords, old(Now()), result)
      ensures tokens == [] && pos == |content|
    {
      ghost var st := Now();
      var isEof := false;
      while !isEof
        invariant Valid() && Tokens(content, keywords, st, tokens)
        invariant if isEof then pos == |content| && EndsTheStream(tokens) else NoEnd(tokens) && Now() == StateAfter(st, tokens)
        decreases !isEof, |content| - pos, pictureMode
      {
        isEof := PushToken(st);
      }
      result := tokens;
      tokens := [];
    }
  }

  // ----- Token streams -----

  function StateAfter(st: State, ts: seq<Token>): State {
    if ts == [] then st else After(StateAfter(st, ts[..|ts|-1]), ts[|ts|-1])
  }

  /** Every token is the one that fits after those before it. */
  ghost predicate Tokens(s: string, keywords: set<string>, st: State, ts: seq<Token>)
    requires st.pos <= |s|
  {
    if ts == [] then true
    else
      var before := StateAfter(st, ts[..|ts|-1]);
      Tokens(s, keywords, st, ts[..|ts|-1]) && before.pos <= |s| && Lexeme(s, keywords, before, ts[|ts|-1])
  }

  ghost predicate NoEnd(ts: seq<Token>) {
    forall i :: 0 <= i < |ts| ==> ts[i].kind != Eof
  }

  ghost predicate EndsTheStream(ts: seq<Token>) {
    ts != [] && ts[|ts|-1].kind == Eof && forall i :: 0 <= i < |ts| - 1 ==> ts[i].kind != Eof
  }

  /** A whole token stream: it ends with the only end token. */
  ghost predicate Tokenized(s: string, keywords: set<string>, st: State, ts: seq<Token>)
    requires st.pos <= |s|
  {
    Tokens(s, keywords, st, ts) && EndsTheStream(ts)
  }

  lemma {:induction false} TokensSnoc(s: string, keywords: set<string>, st: State, ts: seq<Token>, t: Token)
    requires st.pos <= |s| && Tokens(s, keywords, st, ts)
    requires var before := StateAfter(st, ts); before.pos <= |s| && Lexeme(s, keywords, before, t)
    ensures Tokens(s, keywords, st, ts + [t]) && StateAfter(st, ts + [t]) == After(StateAfter(st, ts), t)
    ensures NoEnd(ts) ==> if t.kind == Eof then EndsTheStream(ts + [t]) else NoEnd(ts + [t])
  {
    assert (ts + [t])[..|ts|] == ts;
  }

  lemma {:induction false} NoLevelWithoutDigit(s: string, i: nat)
    requires i < |s| && !IsDigit(s[i])
    ensures !LevelHere(s, i)
  {
  }

  /** Digits are word characters, so a word that starts with them can be looked for after them. */
  lemma {:induction false} DigitsAreWord(s: string, i: nat)
    requires i <= |s|
    ensures WordCharsEnd(s, i) == WordCharsEnd(s, DigitsEnd(s, i))
    decreases |s| - i
  {
    if i < |s| && IsDigit(s[i]) { DigitsAreWord(s, i + 1); }
  }
}
