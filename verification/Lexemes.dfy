/**
  What the tokens of a text are: where each one starts, which kind it has and where it ends, said
  through longest runs, longest operators and paired quotes rather than through a scanner.
*/
module Lexemes {
  import opened Options
  import opened Characters
  import opened ContentSegments
  import opened LiteralContinuation

  datatype Kind =
    | Eof | Error
    | StringLiteral | HexLiteral | BooleanLiteral | NationalLiteral
    | LevelNumber | IntegerLiteral | DecimalLiteral | PictureString
    | Identifier | Pic | Keyword
    | LeftParen | RightParen | Plus | Minus | Star | DoubleStar | Slash
    | Equals | EqualGreater | GreaterThan | GreaterEqual | LessThan | LessEqual | NotEqual
    | Period | Comma | Semicolon | Colon | DoubleColon

  /** A token and the range of the flat text it covers, from which its text and span are made. */
  datatype Token = Token(kind: Kind, start: nat, end: nat)

  // ----- Longest runs -----

  function BlanksEnd(s: string, i: nat): (j: nat)
    requires i <= |s|
    ensures i <= j <= |s| && Blank(s, i, j)
    ensures j < |s| ==> !IsWhitespace(s[j])
    decreases |s| - i
  {
    if i < |s| && IsWhitespace(s[i]) then BlanksEnd(s, i + 1) else i
  }

  function HorizontalEnd(s: string, i: nat): (j: nat)
    requires i <= |s|
    ensures i <= j <= |s|
    decreases |s| - i
  {
    if i < |s| && (s[i] == ' ' || s[i] == '\t') then HorizontalEnd(s, i + 1) else i
  }

  function DigitsEnd(s: string, i: nat): (j: nat)
    requires i <= |s|
    ensures i <= j <= |s|
    decreases |s| - i
  {
    if i < |s| && IsDigit(s[i]) then DigitsEnd(s, i + 1) else i
  }

  function WordCharsEnd(s: string, i: nat): (j: nat)
    requires i <= |s|
    ensures i <= j <= |s|
    decreases |s| - i
  {
    if i < |s| && IsWordChar(s[i]) then WordCharsEnd(s, i + 1) else i
  }

  /** `j` without the hyphens before it, but not before `i`. */
  function WithoutHyphens(s: string, i: nat, j: nat): (k: nat)
    requires i <= j <= |s|
    ensures i <= k <= j
    decreases j
  {
    if j > i && s[j-1] == '-' then WithoutHyphens(s, i, j - 1) else j
  }

  /** A COBOL word: the longest run of letters, digits and hyphens, less the hyphens at its end. */
  function WordEnd(s: string, i: nat): (j: nat)
    requires i <= |s|
    ensures i <= j <= |s|
  {
    WithoutHyphens(s, i, WordCharsEnd(s, i))
  }

  /** A picture ends at white space, or at a period that ends a sentence. */
  function PictureEnd(s: string, i: nat): (j: nat)
    requires i <= |s|
    ensures i <= j <= |s|
    decreases |s| - i
  {
    if i == |s| || IsWhitespace(s[i]) || (s[i] == '.' && (i + 1 == |s| || IsWhitespace(s[i+1]))) then i
    else PictureEnd(s, i + 1)
  }

  // ----- Literals -----

  /** Inside a literal opened at `i`: no newline yet, and every quote so far is doubled. */
  predicate InLiteral(s: string, i: nat, j: nat) {
    i < j <= |s| && Paired(s[i+1..j], s[i]) && '\n' !in s[i..j]
  }

  /** A literal from its opening quote to its closing one, on one line, with inner quotes doubled. */
  predicate Closed(s: string, i: nat, j: nat) {
    && 0 < j <= |s| && InLiteral(s, i, j - 1) && s[j-1] == s[i]
    && (j < |s| ==> s[j] != s[i])
  }

  /** A literal that its line, or the text, ends in the middle of. */
  predicate Unclosed(s: string, i: nat, j: nat) {
    InLiteral(s, i, j) && (j < |s| ==> s[j] == '\n')
  }

  lemma {:induction false} NoNewlineInside(s: string, i: nat, j: nat)
    requires i <= j <= |s| && '\n' !in s[i..j]
    ensures forall k :: i <= k < j ==> s[k] != '\n'
  {
    forall k | i <= k < j ensures s[k] != '\n' {
      assert s[i..j][k - i] == s[k];
    }
  }

  lemma {:induction false} LiteralGrows(s: string, i: nat, j: nat)
    requires InLiteral(s, i, j) && j < |s| && s[j] != s[i] && s[j] != '\n'
    ensures InLiteral(s, i, j + 1)
  {
    assert s[i+1..j+1] == s[i+1..j] + [s[j]] && s[i..j+1] == s[i..j] + [s[j]];
    assert [s[j]][1..] == [];
    PairedAppend(s[i+1..j], [s[j]], s[i]);
  }

  lemma {:induction false} LiteralDoubles(s: string, i: nat, j: nat)
    requires InLiteral(s, i, j) && j + 1 < |s| && s[j] == s[j+1] == s[i]
    ensures InLiteral(s, i, j + 2)
  {
    var q := s[i];
    assert s[i+1..j+2] == s[i+1..j] + [q, q];
    PairedQuotes(q);
    PairedAppend(s[i+1..j], [q, q], q);
    NoNewlineInside(s, i, j);
    var grown := s[i..j+2];
    forall k | 0 <= k < |grown| ensures grown[k] != '\n' { assert grown[k] == s[i + k]; }
  }

  lemma {:induction false} PairedQuotes(q: char)
    ensures Paired([q, q], q)
  {
    assert [q, q][2..] == [];
  }

  lemma {:induction false} LiteralStarts(s: string, i: nat)
    requires i < |s| && IsQuote(s[i])
    ensures InLiteral(s, i, i + 1)
  {
    assert s[i+1..i+1] == [] && s[i..i+1] == [s[i]];
  }

  /** What the next character makes of a literal. */
  lemma {:induction false} LiteralStep(s: string, i: nat, j: nat)
    requires InLiteral(s, i, j) && j < |s|
    ensures if s[j] == '\n' then Unclosed(s, i, j)
      else if s[j] != s[i] then InLiteral(s, i, j + 1)
      else if j + 1 < |s| && s[j+1] == s[i] then InLiteral(s, i, j + 2)
      else Closed(s, i, j + 1)
  {
    if s[j] != '\n' && s[j] != s[i] {
      LiteralGrows(s, i, j);
    } else if s[j] != '\n' && j + 1 < |s| && s[j+1] == s[i] {
      LiteralDoubles(s, i, j);
    }
  }

  predicate LiteralToken(s: string, quoteAt: nat, closedKind: Kind, t: Token) {
    if t.kind == closedKind then Closed(s, quoteAt, t.end)
    else t.kind == Error && Unclosed(s, quoteAt, t.end)
  }

  predicate HasPrefix(s: string, i: nat)
    requires i < |s|
  {
    s[i] in "XxBbNn" && i + 1 < |s| && IsQuote(s[i+1])
  }

  function PrefixedKind(c: char): Kind {
    if ToUpper(c) == 'X' then HexLiteral else if ToUpper(c) == 'B' then BooleanLiteral else NationalLiteral
  }

  // ----- Numbers -----

  function NumberOf(s: string): nat {
    if s == [] then 0 else NumberOf(s[..|s|-1]) * 10 + (if IsDigit(s[|s|-1]) then s[|s|-1] as nat - '0' as nat else 0)
  }

  /** One or two digits that make a level number, with a space, tab, period or the end after them. */
  predicate LevelHere(s: string, i: nat)
    requires i <= |s|
  {
    var end := DigitsEnd(s, i);
    && 1 <= end - i <= 2
    && (end < |s| ==> s[end] in " \t.")
    && var n := NumberOf(s[i..end]); 1 <= n <= 49 || n == 66 || n == 77 || n == 88
  }

  /** A plus or minus is a sign at the start of the text, after a space or tab, and after some operators. */
  predicate SignHere(s: string, i: nat)
    requires i < |s|
  {
    i == 0 || s[i-1] in " \t=+-*/(,;"
  }

  /** The same looking back over spaces and tabs first. */
  predicate SignBefore(s: string, i: nat)
    requires i <= |s|
  {
    i == 0 || (if s[i-1] == ' ' || s[i-1] == '\t' then SignBefore(s, i - 1) else s[i-1] in "=+-*/(,;")
  }

  predicate HasSign(s: string, i: nat)
    requires i < |s|
  {
    s[i] == '+' || s[i] == '-'
  }

  predicate DigitAt(s: string, i: nat) { i < |s| && IsDigit(s[i]) }

  predicate StartsNumber(s: string, i: nat)
    requires i < |s|
  {
    IsDigit(s[i]) || (DigitAt(s, i + 1) && ((HasSign(s, i) && SignHere(s, i)) || s[i] == '.'))
  }

  /** Where the integer part of a number ends. */
  function IntegerEnd(s: string, i: nat): (d: nat)
    requires i < |s|
    ensures i <= d <= |s|
  {
    DigitsEnd(s, if HasSign(s, i) then i + 1 else i)
  }

  /** Unsigned digits that go on with a letter, or a hyphen and a letter or digit, are a word. */
  predicate WordFollows(s: string, i: nat, d: nat)
    requires i < |s| && d <= |s|
  {
    && !HasSign(s, i) && d < |s|
    && (IsLetter(s[d]) || (s[d] == '-' && d + 1 < |s| && (IsLetter(s[d+1]) || IsDigit(s[d+1]))))
  }

  predicate NumberToken(s: string, t: Token)
    requires t.start < |s|
  {
    var d := IntegerEnd(s, t.start);
    if WordFollows(s, t.start, d) then t.kind == Identifier && t.end == WordEnd(s, t.start)
    else if DigitAt(s, d + 1) && s[d] == '.' then t.kind == DecimalLiteral && t.end == DigitsEnd(s, d + 1)
    else t.kind == IntegerLiteral && t.end == d
  }

  // ----- Operators and words -----

  /** The longest operator that starts with `c`, followed by `next`, and its length. */
  function OperatorFrom(c: char, next: Option<char>): Option<(Kind, nat)> {
    if c == '*' && next == Some('*') then Some((DoubleStar, 2))
    else if c == '=' && next == Some('>') then Some((EqualGreater, 2))
    else if c == '>' && next == Some('=') then Some((GreaterEqual, 2))
    else if c == '<' && next == Some('=') then Some((LessEqual, 2))
    else if c == '<' && next == Some('>') then Some((NotEqual, 2))
    else if c == ':' && next == Some(':') then Some((DoubleColon, 2))
    else match c
      case '(' => Some((LeftParen, 1))
      case ')' => Some((RightParen, 1))
      case '+' => Some((Plus, 1))
      case '-' => Some((Minus, 1))
      case '*' => Some((Star, 1))
      case '/' => Some((Slash, 1))
      case '=' => Some((Equals, 1))
      case '>' => Some((GreaterThan, 1))
      case '<' => Some((LessThan, 1))
      case '.' => Some((Period, 1))
      case ',' => Some((Comma, 1))
      case ';' => Some((Semicolon, 1))
      case ':' => Some((Colon, 1))
      case _ => None
  }

  function OperatorAt(s: string, i: nat): (op: Option<(Kind, nat)>)
    requires i < |s|
    ensures op.Some? ==> i + op.value.1 <= |s|
  {
    OperatorFrom(s[i], if i + 1 < |s| then Some(s[i+1]) else None)
  }

  function WordKind(word: string, keywords: set<string>): Kind {
    if Upper(word) == "PIC" || Upper(word) == "PICTURE" then Pic
    else if Upper(word) in keywords then Keyword
    else Identifier
  }

  // ----- Tokens -----

  predicate PictureLexeme(s: string, t: Token)
    requires t.start < |s|
  {
    t.end == PictureEnd(s, t.start) && t.kind == if t.end == t.start then Error else PictureString
  }

  predicate PlainLexeme(s: string, keywords: set<string>, statement: bool, t: Token)
    requires t.start < |s|
  {
    var i := t.start;
    if HasPrefix(s, i) then LiteralToken(s, i + 1, PrefixedKind(s[i]), t)
    else if IsQuote(s[i]) then LiteralToken(s, i, StringLiteral, t)
    else UnquotedLexeme(s, keywords, statement, t)
  }

  predicate UnquotedLexeme(s: string, keywords: set<string>, statement: bool, t: Token)
    requires t.start < |s|
  {
    if statement && LevelHere(s, t.start) then t.kind == LevelNumber && t.end == DigitsEnd(s, t.start)
    else if StartsNumber(s, t.start) then NumberToken(s, t)
    else SymbolLexeme(s, keywords, t)
  }

  predicate SymbolLexeme(s: string, keywords: set<string>, t: Token)
    requires t.start < |s|
  {
    var i := t.start;
    match OperatorAt(s, i)
    case Some(op) => t.kind == op.0 && t.end == i + op.1
    case None =>
      if IsLetter(s[i]) then t.end == WordEnd(s, i) && t.kind == WordKind(s[i..t.end], keywords)
      else t.kind == Error && t.end == i + 1
  }

  /** What the lexer remembers between tokens. */
  datatype State = State(pos: nat, picture: bool, statement: bool)

  /** After PIC an IS that stands alone is skipped. */
  predicate LoneIs(s: string, i: nat) {
    i + 2 <= |s| && Upper(s[i..i+2]) == "IS" && (i + 2 < |s| ==> IsWhitespace(s[i+2]))
  }

  function TokenStart(s: string, st: State): (i: nat)
    requires st.pos <= |s|
    ensures st.pos <= i <= |s|
    ensures i < |s| ==> !IsWhitespace(s[i])
  {
    var i := BlanksEnd(s, st.pos);
    if st.picture && LoneIs(s, i) then BlanksEnd(s, i + 2) else i
  }

  /** `t` is the next token in a state. */
  predicate Lexeme(s: string, keywords: set<string>, st: State, t: Token)
    requires st.pos <= |s|
  {
    && t.start == TokenStart(s, st)
    && if t.start == |s| then t.kind == Eof && t.end == |s|
       else if st.picture then PictureLexeme(s, t)
       else PlainLexeme(s, keywords, st.statement, t)
  }

  function After(st: State, t: Token): State {
    State(t.end, t.kind == Pic,
      match t.kind
      case Period => true
      case LevelNumber => false
      case Identifier => false
      case Pic => false
      case Keyword => false
      case _ => st.statement)
  }

  /** A token's range is in the text, and empty only at the end of the text or for a missing picture. */
  lemma {:induction false} LexemeRange(s: string, keywords: set<string>, st: State, t: Token)
    requires st.pos <= |s| && Lexeme(s, keywords, st, t)
    ensures st.pos <= t.start <= t.end <= |s|
    ensures t.start == t.end ==> t.kind == Eof || (t.kind == Error && st.picture)
    ensures t.kind == Eof <==> t.start == |s|
  {
    if t.start < |s| && !st.picture {
      PlainLexemeRange(s, keywords, st.statement, t);
    }
  }

  lemma {:induction false} PlainLexemeRange(s: string, keywords: set<string>, statement: bool, t: Token)
    requires t.start < |s| && PlainLexeme(s, keywords, statement, t)
    ensures t.start < t.end <= |s| && t.kind != Eof
  {
    var i := t.start;
    if HasPrefix(s, i) || IsQuote(s[i]) {
    } else if statement && LevelHere(s, i) {
    } else if StartsNumber(s, i) {
      NumberRange(s, t);
    } else if OperatorAt(s, i).None? && IsLetter(s[i]) {
      WordRange(s, i);
    }
  }

  lemma {:induction false} WordRange(s: string, i: nat)
    requires i < |s| && IsWordChar(s[i]) && s[i] != '-'
    ensures i < WordEnd(s, i)
  {
    KeepsFirst(s, i, WordCharsEnd(s, i));
  }

  lemma {:induction false} KeepsFirst(s: string, i: nat, j: nat)
    requires i < j <= |s| && s[i] != '-'
    ensures i < WithoutHyphens(s, i, j)
    decreases j
  {
    if s[j-1] == '-' { KeepsFirst(s, i, j - 1); }
  }

  lemma {:induction false} NumberRange(s: string, t: Token)
    requires t.start < |s| && StartsNumber(s, t.start) && NumberToken(s, t)
    ensures t.start < t.end <= |s| && t.kind != Eof
  {
    var i := t.start;
    if IsDigit(s[i]) { WordRange(s, i); }
  }

  // ----- Only one token fits -----

  lemma {:induction false} PairedCancel(a: string, b: string, quote: char)
    requires Paired(a, quote) && Paired(a + b, quote)
    ensures Paired(b, quote)
    decreases |a|
  {
    if a == [] {
      assert a + b == b;
    } else {
      var n := if a[0] != quote then 1 else 2;
      assert (a + b)[n..] == a[n..] + b;
      PairedCancel(a[n..], b, quote);
    }
  }

  /** A closed literal cannot go on. */
  lemma {:induction false} ClosedEndsHere(s: string, i: nat, j: nat, k: nat)
    requires Closed(s, i, j) && j <= k <= |s|
    ensures !Paired(s[i+1..k], s[i])
  {
    var body, rest := s[i+1..j-1], s[j-1..k];
    assert s[i+1..k] == body + rest;
    assert rest[0] == s[i] && (|rest| > 1 ==> rest[1] == s[j]);
    if Paired(body + rest, s[i]) { PairedCancel(body, rest, s[i]); }
  }

  lemma {:induction false} LiteralIsUnique(s: string, quoteAt: nat, kind: Kind, t: Token, u: Token)
    requires kind != Error && t.start == u.start
    requires LiteralToken(s, quoteAt, kind, t) && LiteralToken(s, quoteAt, kind, u)
    ensures t == u
  {
    if t.kind == kind && u.kind == kind {
      if t.end < u.end { ClosedEndsHere(s, quoteAt, t.end, u.end - 1); }
      if u.end < t.end { ClosedEndsHere(s, quoteAt, u.end, t.end - 1); }
    } else if t.kind == kind {
      ClosedBeforeUnclosed(s, quoteAt, t.end, u.end);
    } else if u.kind == kind {
      ClosedBeforeUnclosed(s, quoteAt, u.end, t.end);
    } else {
      UnclosedIsUnique(s, quoteAt, t.end, u.end);
    }
  }

  lemma {:induction false} ClosedBeforeUnclosed(s: string, i: nat, j: nat, k: nat)
    requires Closed(s, i, j)
    ensures !Unclosed(s, i, k)
  {
    if InLiteral(s, i, k) { NoNewlineInside(s, i, k); }
    NoNewlineInside(s, i, j - 1);
    if j <= k <= |s| { ClosedEndsHere(s, i, j, k); }
  }

  lemma {:induction false} UnclosedIsUnique(s: string, i: nat, j: nat, k: nat)
    requires Unclosed(s, i, j) && Unclosed(s, i, k)
    ensures j == k
  {
    NoNewlineInside(s, i, j);
    NoNewlineInside(s, i, k);
  }

  lemma {:induction false} PlainLexemeIsUnique(s: string, keywords: set<string>, statement: bool, t: Token, u: Token)
    requires t.start == u.start < |s| && PlainLexeme(s, keywords, statement, t) && PlainLexeme(s, keywords, statement, u)
    ensures t == u
  {
    var i := t.start;
    if HasPrefix(s, i) {
      LiteralIsUnique(s, i + 1, PrefixedKind(s[i]), t, u);
    } else if IsQuote(s[i]) {
      LiteralIsUnique(s, i, StringLiteral, t, u);
    }
  }

  /** In every state at most one token fits. */
  lemma {:induction false} LexemeIsUnique(s: string, keywords: set<string>, st: State, t: Token, u: Token)
    requires st.pos <= |s| && Lexeme(s, keywords, st, t) && Lexeme(s, keywords, st, u)
    ensures t == u
  {
    if t.start < |s| && !st.picture {
      PlainLexemeIsUnique(s, keywords, st.statement, t, u);
    }
  }
}
