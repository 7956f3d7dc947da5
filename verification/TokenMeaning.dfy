/**
  What the kind of a token says about its characters, and the other way round: operators by their
  spelling, literals by their prefix, words and numbers by their characters, level numbers and
  pictures by the tokens before them.
*/
module TokenMeaning {
  import opened Options
  import opened Characters
  import opened ContentSegments
  import opened Lexemes
  import opened Lexer
  import opened TokenStream

  // ----- Operators -----

  /** How an operator is written; other kinds have no fixed spelling. */
  function Spelling(k: Kind): Option<string> {
    match k
    case LeftParen => Some("(")
    case RightParen => Some(")")
    case Plus => Some("+")
    case Minus => Some("-")
    case Star => Some("*")
    case DoubleStar => Some("**")
    case Slash => Some("/")
    case Equals => Some("=")
    case EqualGreater => Some("=>")
    case GreaterThan => Some(">")
    case GreaterEqual => Some(">=")
    case LessThan => Some("<")
    case LessEqual => Some("<=")
    case NotEqual => Some("<>")
    case Period => Some(".")
    case Comma => Some(",")
    case Semicolon => Some(";")
    case Colon => Some(":")
    case DoubleColon => Some("::")
    case _ => None
  }

  predicate IsOperator(k: Kind) { Spelling(k).Some? }

  /** No two operators are written alike. */
  lemma {:induction false} SpellingsDiffer(k: Kind, l: Kind)
    requires IsOperator(k) && IsOperator(l) && Spelling(k) == Spelling(l)
    ensures k == l
  {
    var w := Spelling(k).value;
    assert |w| == 1 || |w| == 2;
    assert w[0] == Spelling(l).value[0];
    if |w| == 2 { assert w[1] == Spelling(l).value[1]; }
  }

  /** The operator is written at `i`. */
  predicate WrittenAt(s: string, i: nat, k: Kind) {
    IsOperator(k) && i + |Spelling(k).value| <= |s| && s[i..i + |Spelling(k).value|] == Spelling(k).value
  }

  lemma {:induction false} WrittenMeans(s: string, i: nat, k: Kind)
    requires i < |s| && IsOperator(k)
    ensures WrittenAt(s, i, k) <==>
      && s[i] == Spelling(k).value[0]
      && (|Spelling(k).value| == 2 ==> i + 1 < |s| && s[i+1] == Spelling(k).value[1])
  {
    var w := Spelling(k).value;
    assert |w| == 1 || |w| == 2;
    if |w| == 1 {
      assert s[i..i+1] == [s[i]];
    } else if i + 1 < |s| {
      assert s[i..i+2] == [s[i], s[i+1]];
    }
  }

  /** The longest operator written at `i`. */
  predicate LongestAt(s: string, i: nat, k: Kind) {
    WrittenAt(s, i, k) && forall l :: WrittenAt(s, i, l) ==> |Spelling(l).value| <= |Spelling(k).value|
  }

  lemma {:induction false} LongestIsUnique(s: string, i: nat, k: Kind, l: Kind)
    requires LongestAt(s, i, k) && LongestAt(s, i, l)
    ensures k == l
  {
    SpellingsDiffer(k, l);
  }

  lemma {:induction false} OperatorAtIsLongest(s: string, i: nat)
    requires i < |s|
    ensures match OperatorAt(s, i)
      case Some(op) => LongestAt(s, i, op.0) && op.1 == |Spelling(op.0).value|
      case None => forall k :: !WrittenAt(s, i, k)
  {
    forall k | IsOperator(k)
      ensures WrittenAt(s, i, k) <==>
        && s[i] == Spelling(k).value[0]
        && (|Spelling(k).value| == 2 ==> i + 1 < |s| && s[i+1] == Spelling(k).value[1])
    {
      WrittenMeans(s, i, k);
    }
  }

  /** Characters that operators start with start no word, literal or level number. */
  lemma {:induction false} OperatorsStandAlone(s: string, i: nat, k: Kind)
    requires i < |s| && WrittenAt(s, i, k)
    ensures !HasPrefix(s, i) && !IsQuote(s[i]) && !IsDigit(s[i]) && !LevelHere(s, i)
  {
    WrittenMeans(s, i, k);
  }

  lemma {:induction false} LiteralKind(s: string, quoteAt: nat, closedKind: Kind, t: Token)
    requires LiteralToken(s, quoteAt, closedKind, t)
    ensures t.kind == closedKind || t.kind == Error
  {
  }

  /** A token of an operator kind is the longest operator written where it stands. */
  lemma {:induction false} OperatorIsWritten(s: string, keywords: set<string>, st: State, t: Token)
    requires st.pos <= |s| && Lexeme(s, keywords, st, t) && IsOperator(t.kind)
    ensures t.end <= |s| && t.start <= t.end && s[t.start..t.end] == Spelling(t.kind).value
    ensures LongestAt(s, t.start, t.kind)
  {
    LexemeRange(s, keywords, st, t);
    OperatorAtIsLongest(s, t.start);
  }

  /** An operator written where a token starts is read, the longest one, unless it starts a number or stands for a picture. */
  lemma {:induction false} WrittenIsRead(s: string, keywords: set<string>, st: State, t: Token, k: Kind)
    requires st.pos <= |s| && !st.picture && Lexeme(s, keywords, st, t)
    requires LongestAt(s, t.start, k) && !StartsNumber(s, t.start)
    ensures t.kind == k && t.end == t.start + |Spelling(k).value|
  {
    WrittenFits(s, t.start, k);
    OperatorsStandAlone(s, t.start, k);
    OperatorAtIsLongest(s, t.start);
    LongestIsUnique(s, t.start, OperatorAt(s, t.start).value.0, k);
  }

  lemma {:induction false} WrittenFits(s: string, i: nat, k: Kind)
    requires WrittenAt(s, i, k)
    ensures i < |s|
  {
    assert |Spelling(k).value| == 1 || |Spelling(k).value| == 2;
  }

  // ----- Literals -----

  /** The character before the quote that a kind of literal asks for, in either case. */
  function PrefixOf(k: Kind): string {
    match k
    case HexLiteral => "Xx"
    case BooleanLiteral => "Bb"
    case NationalLiteral => "Nn"
    case _ => ""
  }

  /** A closed literal is of a prefixed kind exactly when that prefix stands before its quote, and plain when it starts with the quote. */
  lemma {:induction false} LiteralKinds(s: string, keywords: set<string>, st: State, t: Token, k: Kind)
    requires st.pos <= |s| && !st.picture && Lexeme(s, keywords, st, t) && t.start < |s|
    requires k == HexLiteral || k == BooleanLiteral || k == NationalLiteral
    ensures t.kind == k <==>
      s[t.start] in PrefixOf(k) && t.start + 1 < |s| && IsQuote(s[t.start+1]) && Closed(s, t.start + 1, t.end)
    ensures t.kind == StringLiteral <==> IsQuote(s[t.start]) && Closed(s, t.start, t.end)
  {
    if HasPrefix(s, t.start) {
      PrefixedKinds(s, t, k);
      assert !IsQuote(s[t.start]);
    } else if IsQuote(s[t.start]) {
      if Closed(s, t.start, t.end) { ClosedBeforeUnclosed(s, t.start, t.end, t.end); }
    } else {
      NoLiteral(s, keywords, st.statement, t);
    }
  }

  lemma {:induction false} PrefixedKinds(s: string, t: Token, k: Kind)
    requires t.start < |s| && HasPrefix(s, t.start) && LiteralToken(s, t.start + 1, PrefixedKind(s[t.start]), t)
    requires k == HexLiteral || k == BooleanLiteral || k == NationalLiteral
    ensures t.kind == k <==> s[t.start] in PrefixOf(k) && Closed(s, t.start + 1, t.end)
    ensures t.kind != StringLiteral
  {
    if Closed(s, t.start + 1, t.end) { ClosedBeforeUnclosed(s, t.start + 1, t.end, t.end); }
  }

  lemma {:induction false} NoLiteral(s: string, keywords: set<string>, statement: bool, t: Token)
    requires t.start < |s| && UnquotedLexeme(s, keywords, statement, t)
    ensures t.kind != HexLiteral && t.kind != BooleanLiteral && t.kind != NationalLiteral && t.kind != StringLiteral
  {
    OperatorAtIsLongest(s, t.start);
  }

  // ----- Runs of characters -----

  lemma {:induction false} DigitsRun(s: string, i: nat)
    requires i <= |s|
    ensures forall k :: i <= k < DigitsEnd(s, i) ==> IsDigit(s[k])
    ensures DigitsEnd(s, i) < |s| ==> !IsDigit(s[DigitsEnd(s, i)])
    decreases |s| - i
  {
    if i < |s| && IsDigit(s[i]) { DigitsRun(s, i + 1); }
  }

  lemma {:induction false} WordCharsRun(s: string, i: nat)
    requires i <= |s|
    ensures forall k :: i <= k < WordCharsEnd(s, i) ==> IsWordChar(s[k])
    ensures WordCharsEnd(s, i) < |s| ==> !IsWordChar(s[WordCharsEnd(s, i)])
    decreases |s| - i
  {
    if i < |s| && IsWordChar(s[i]) { WordCharsRun(s, i + 1); }
  }

  lemma {:induction false} HyphensTaken(s: string, i: nat, j: nat)
    requires i <= j <= |s|
    ensures var k := WithoutHyphens(s, i, j);
      && (forall l :: k <= l < j ==> s[l] == '-')
      && (k > i ==> s[k-1] != '-')
    decreases j
  {
    if j > i && s[j-1] == '-' { HyphensTaken(s, i, j - 1); }
  }

  /** A word from `i` to `j`: word characters, the last no hyphen, and after it only hyphens up to where word characters end. */
  ghost predicate IsWordFrom(s: string, i: nat, j: nat) {
    && i < j <= |s|
    && (forall k :: i <= k < j ==> IsWordChar(s[k]))
    && s[j-1] != '-'
    && exists e: nat :: OnlyHyphens(s, j, e)
  }

  ghost predicate OnlyHyphens(s: string, j: nat, e: nat) {
    j <= e <= |s| && (forall k :: j <= k < e ==> s[k] == '-') && (e < |s| ==> !IsWordChar(s[e]))
  }

  lemma {:induction false} WordFrom(s: string, i: nat)
    requires i < |s| && IsWordChar(s[i]) && s[i] != '-'
    ensures IsWordFrom(s, i, WordEnd(s, i))
  {
    WordCharsRun(s, i);
    HyphensTaken(s, i, WordCharsEnd(s, i));
    WordRange(s, i);
    assert OnlyHyphens(s, WordEnd(s, i), WordCharsEnd(s, i));
  }

  // ----- Words and numbers -----

  /** A word token runs as far as a word can; PIC and PICTURE, in any case, are of their own kind, and keywords are those listed. */
  lemma {:induction false} WordMeans(s: string, keywords: set<string>, st: State, t: Token)
    requires st.pos <= |s| && !st.picture && Lexeme(s, keywords, st, t) && t.start < |s| && IsLetter(s[t.start])
    requires !HasPrefix(s, t.start)
    ensures IsWordFrom(s, t.start, t.end)
    ensures var word := Upper(s[t.start..t.end]);
      && (t.kind == Pic <==> word == "PIC" || word == "PICTURE")
      && (t.kind == Keyword <==> word in keywords && word != "PIC" && word != "PICTURE")
      && (t.kind == Identifier <==> word !in keywords && word != "PIC" && word != "PICTURE")
  {
    NoLevelWithoutDigit(s, t.start);
    NoOperatorFrom(s, t.start);
    WordFrom(s, t.start);
  }

  lemma {:induction false} NoOperatorFrom(s: string, i: nat)
    requires i < |s| && (IsLetter(s[i]) || IsDigit(s[i]))
    ensures OperatorAt(s, i).None?
  {
  }

  /** Digits from `i` to `j`, at least one, and no more after them. */
  ghost predicate AllDigits(s: string, i: nat, j: nat) {
    i < j <= |s| && (forall k :: i <= k < j ==> IsDigit(s[k])) && (j < |s| ==> !IsDigit(s[j]))
  }

  /** Where the digits of a number start: after its sign. */
  function AfterSign(s: string, i: nat): nat
    requires i < |s|
  {
    if s[i] == '+' || s[i] == '-' then i + 1 else i
  }

  /**
    An integer is a sign or none and digits, as many as there are; a decimal goes on with a period
    and digits, and its integer part may be empty. Digits that go on as a word are an identifier.
  */
  lemma {:induction false} NumberMeans(s: string, t: Token)
    requires t.start < |s| && StartsNumber(s, t.start) && NumberToken(s, t)
    ensures t.kind == IntegerLiteral || t.kind == DecimalLiteral || t.kind == Identifier
    ensures t.kind == IntegerLiteral ==> AllDigits(s, AfterSign(s, t.start), t.end) && !(DigitAt(s, t.end + 1) && s[t.end] == '.')
    ensures t.kind == DecimalLiteral ==> exists d: nat :: PointAt(s, t.start, d, t.end)
    ensures t.kind == Identifier ==> IsDigit(s[t.start]) && IsWordFrom(s, t.start, t.end)
  {
    if WordFollows(s, t.start, IntegerEnd(s, t.start)) {
      NumberIsNoSign(s, t.start);
      WordFrom(s, t.start);
    } else {
      DigitsMean(s, t);
    }
  }

  lemma {:induction false} DigitsMean(s: string, t: Token)
    requires t.start < |s| && StartsNumber(s, t.start) && NumberToken(s, t) && !WordFollows(s, t.start, IntegerEnd(s, t.start))
    ensures t.kind == IntegerLiteral || t.kind == DecimalLiteral
    ensures t.kind == IntegerLiteral ==> AllDigits(s, AfterSign(s, t.start), t.end) && !(DigitAt(s, t.end + 1) && s[t.end] == '.')
    ensures t.kind == DecimalLiteral ==> exists d: nat :: PointAt(s, t.start, d, t.end)
  {
    var d := IntegerEnd(s, t.start);
    DigitsRun(s, AfterSign(s, t.start));
    if t.kind == DecimalLiteral {
      DigitsRun(s, d + 1);
      assert PointAt(s, t.start, d, t.end);
    }
  }

  /** Digits or none before the point at `d`, and digits after it up to `e`. */
  ghost predicate PointAt(s: string, i: nat, d: nat, e: nat)
    requires i < |s|
  {
    && AfterSign(s, i) <= d < |s| && s[d] == '.'
    && (forall k :: AfterSign(s, i) <= k < d ==> IsDigit(s[k]))
    && AllDigits(s, d + 1, e)
  }

  lemma {:induction false} NumberIsNoSign(s: string, i: nat)
    requires i < |s| && StartsNumber(s, i) && WordFollows(s, i, IntegerEnd(s, i))
    ensures IsDigit(s[i])
  {
  }

  // ----- Numerals -----

  function DigitChar(d: nat): char
    requires d < 10
  {
    "0123456789"[d]
  }

  /** A number written in decimal. */
  function Decimal(n: nat): string {
    if n < 10 then [DigitChar(n)] else Decimal(n / 10) + [DigitChar(n % 10)]
  }

  lemma {:induction false} DigitValue(d: nat)
    requires d < 10
    ensures IsDigit(DigitChar(d)) && DigitChar(d) as nat - '0' as nat == d
  {
  }

  /** Reading what is written in decimal gives the number back. */
  lemma {:induction false} NumberOfDecimal(n: nat)
    ensures NumberOf(Decimal(n)) == n
  {
    DigitValue(n % 10);
    var front := if n < 10 then "" else Decimal(n / 10);
    assert Decimal(n)[..|Decimal(n)|-1] == front;
    if n >= 10 { NumberOfDecimal(n / 10); }
  }

  lemma {:induction false} NumberOfTwo(s: string)
    requires 1 <= |s| <= 2 && forall k :: 0 <= k < |s| ==> IsDigit(s[k])
    ensures NumberOf(s) ==
      if |s| == 1 then s[0] as nat - '0' as nat else 10 * (s[0] as nat - '0' as nat) + (s[1] as nat - '0' as nat)
  {
    assert s[..|s|-1] == if |s| == 1 then [] else [s[0]];
    assert NumberOf([]) == 0;
    if |s| == 2 { assert [s[0]][..0] == []; }
  }

  /** The one or two digits stand for a level that COBOL knows. */
  predicate IsLevel(word: string) {
    (|word| == 1 && '1' <= word[0] <= '9') ||
    (|word| == 2 && IsDigit(word[0]) && IsDigit(word[1]) && word != "00" &&
      ('0' <= word[0] <= '4' || word == "66" || word == "77" || word == "88"))
  }

  lemma {:induction false} LevelMeans(s: string, i: nat)
    requires i < |s| && IsDigit(s[i])
    ensures LevelHere(s, i) <==>
      && IsLevel(s[i..DigitsEnd(s, i)])
      && (DigitsEnd(s, i) < |s| ==> s[DigitsEnd(s, i)] in " \t.")
  {
    var end := DigitsEnd(s, i);
    DigitsRun(s, i);
    assert end >= i + 1;
    var word := s[i..end];
    if |word| <= 2 {
      assert forall k :: 0 <= k < |word| ==> word[k] == s[i + k];
      NumberOfTwo(word);
      LevelDigits(word);
    }
  }

  lemma {:induction false} LevelDigits(word: string)
    requires 1 <= |word| <= 2 && forall k :: 0 <= k < |word| ==> IsDigit(word[k])
    ensures var n := if |word| == 1 then word[0] as int - '0' as int else 10 * (word[0] as int - '0' as int) + (word[1] as int - '0' as int);
      IsLevel(word) <==> 1 <= n <= 49 || n == 66 || n == 77 || n == 88
  {
    if |word| == 2 {
      assert word == [word[0], word[1]];
      assert word == "00" <==> word[0] == '0' && word[1] == '0';
      assert word == "66" <==> word[0] == '6' && word[1] == '6';
      assert word == "77" <==> word[0] == '7' && word[1] == '7';
      assert word == "88" <==> word[0] == '8' && word[1] == '8';
    }
  }

  // ----- What the tokens before decide -----

  /** No word and no level number among the tokens from `j` on. */
  ghost predicate NoWordSince(ts: seq<Token>, j: nat) {
    forall l :: j <= l < |ts| ==>
      ts[l].kind != Identifier && ts[l].kind != Keyword && ts[l].kind != Pic && ts[l].kind != LevelNumber
  }

  /** A statement can start: there has been no word and no level number since the last period, or the start. */
  ghost predicate AtStatement(st: State, ts: seq<Token>) {
    (st.statement && NoWordSince(ts, 0)) || exists j: nat :: j < |ts| && ts[j].kind == Period && NoWordSince(ts, j)
  }

  lemma {:induction false} StatementFlag(st: State, ts: seq<Token>)
    ensures StateAfter(st, ts).statement <==> AtStatement(st, ts)
  {
    if ts != [] {
      var init, t := ts[..|ts|-1], ts[|ts|-1];
      StatementFlag(st, init);
      if t.kind == Period {
        assert ts[|ts|-1].kind == Period && NoWordSince(ts, |ts| - 1);
      } else if t.kind == Identifier || t.kind == Keyword || t.kind == Pic || t.kind == LevelNumber {
        WordEndsStatement(st, ts);
      } else {
        OtherKeepsStatement(st, ts, init);
      }
    }
  }

  lemma {:induction false} WordEndsStatement(st: State, ts: seq<Token>)
    requires ts != [] && (ts[|ts|-1].kind == Identifier || ts[|ts|-1].kind == Keyword || ts[|ts|-1].kind == Pic || ts[|ts|-1].kind == LevelNumber)
    ensures !AtStatement(st, ts)
  {
    forall j: nat | j < |ts| ensures !NoWordSince(ts, j) {
      assert j <= |ts| - 1;
    }
    assert !NoWordSince(ts, 0);
  }

  lemma {:induction false} OtherKeepsStatement(st: State, ts: seq<Token>, init: seq<Token>)
    requires ts != [] && init == ts[..|ts|-1] && ts[|ts|-1].kind != Period
    requires ts[|ts|-1].kind != Identifier && ts[|ts|-1].kind != Keyword && ts[|ts|-1].kind != Pic && ts[|ts|-1].kind != LevelNumber
    ensures AtStatement(st, ts) <==> AtStatement(st, init)
  {
    assert forall j: nat :: NoWordSince(ts, j) <==> NoWordSince(init, j);
    if j: nat :| j < |init| && init[j].kind == Period && NoWordSince(init, j) {
      assert ts[j].kind == Period && NoWordSince(ts, j);
    }
    if j: nat :| j < |ts| && ts[j].kind == Period && NoWordSince(ts, j) {
      assert init[j].kind == Period && NoWordSince(init, j);
    }
  }

  /**
    In a token stream a level number is read exactly where no word and no level number has come
    since the last period, or the start, and the digits are a level with a space, a tab, a period
    or the end after them.
  */
  lemma {:induction false} LevelNumbersOpenStatements(s: string, keywords: set<string>, st: State, ts: seq<Token>, i: nat)
    requires st.pos <= |s| && Tokens(s, keywords, st, ts) && i < |ts| && ts[i].start < |s| && IsDigit(s[ts[i].start])
    requires !StateAfter(st, ts[..i]).picture
    ensures var x := ts[i].start;
      ts[i].kind == LevelNumber <==>
        && AtStatement(st, ts[..i])
        && IsLevel(s[x..DigitsEnd(s, x)])
        && (DigitsEnd(s, x) < |s| ==> s[DigitsEnd(s, x)] in " \t.")
  {
    TokenFits(s, keywords, st, ts, i);
    StatementFlag(st, ts[..i]);
    LevelIsRead(s, keywords, StateAfter(st, ts[..i]), ts[i]);
    LevelMeans(s, ts[i].start);
  }

  lemma {:induction false} LevelIsRead(s: string, keywords: set<string>, st: State, t: Token)
    requires st.pos <= |s| && !st.picture && Lexeme(s, keywords, st, t) && t.start < |s| && IsDigit(s[t.start])
    ensures t.kind == LevelNumber <==> st.statement && LevelHere(s, t.start)
  {
  }

  /** A level number is nothing but such digits. */
  lemma {:induction false} LevelNumberIsDigits(s: string, keywords: set<string>, st: State, ts: seq<Token>, i: nat)
    requires st.pos <= |s| && Tokens(s, keywords, st, ts) && i < |ts| && ts[i].kind == LevelNumber
    ensures ts[i].start <= ts[i].end <= |s| && IsLevel(s[ts[i].start..ts[i].end]) && AtStatement(st, ts[..i])
  {
    TokenFits(s, keywords, st, ts, i);
    var before := StateAfter(st, ts[..i]);
    LexemeRange(s, keywords, before, ts[i]);
    StatementFlag(st, ts[..i]);
    LevelOnly(s, keywords, before, ts[i]);
    LevelMeans(s, ts[i].start);
  }

  lemma {:induction false} LevelOnly(s: string, keywords: set<string>, st: State, t: Token)
    requires st.pos <= |s| && Lexeme(s, keywords, st, t) && t.kind == LevelNumber
    ensures t.start < |s| && st.statement && LevelHere(s, t.start) && t.end == DigitsEnd(s, t.start) && IsDigit(s[t.start])
  {
    OperatorAtIsLongestUnlessEnd(s, t.start);
  }

  lemma {:induction false} OperatorAtIsLongestUnlessEnd(s: string, i: nat)
    ensures i < |s| && OperatorAt(s, i).Some? ==> IsOperator(OperatorAt(s, i).value.0)
  {
    if i < |s| { OperatorAtIsLongest(s, i); }
  }

  /** A picture is read exactly after PIC. */
  lemma {:induction false} PictureFollowsPic(st: State, ts: seq<Token>)
    ensures StateAfter(st, ts).picture <==> if ts == [] then st.picture else ts[|ts|-1].kind == Pic
  {
  }

  /** A picture has no white space, and ends before white space, before a sentence's period or with the text. */
  lemma {:induction false} PictureMeans(s: string, keywords: set<string>, st: State, t: Token)
    requires st.pos <= |s| && Lexeme(s, keywords, st, t) && t.kind == PictureString
    ensures st.picture && t.start < t.end <= |s|
    ensures forall k :: t.start <= k < t.end ==> !IsWhitespace(s[k])
    ensures t.end < |s| ==> IsWhitespace(s[t.end]) || (s[t.end] == '.' && (t.end + 1 == |s| || IsWhitespace(s[t.end+1])))
  {
    LexemeRange(s, keywords, st, t);
    OperatorAtIsLongestUnlessEnd(s, t.start);
    PictureRun(s, t.start);
  }

  lemma {:induction false} PictureRun(s: string, i: nat)
    requires i <= |s|
    ensures var e := PictureEnd(s, i);
      && (forall k :: i <= k < e ==> !IsWhitespace(s[k]))
      && (forall k :: i <= k < e && s[k] == '.' ==> k + 1 < |s| && !IsWhitespace(s[k+1]))
      && (e < |s| ==> IsWhitespace(s[e]) || (s[e] == '.' && (e + 1 == |s| || IsWhitespace(s[e+1]))))
    decreases |s| - i
  {
    if !(i == |s| || IsWhitespace(s[i]) || (s[i] == '.' && (i + 1 == |s| || IsWhitespace(s[i+1])))) {
      PictureRun(s, i + 1);
    }
  }

  /** In the place of a picture a token is a picture, unless there is none or the text ends. */
  lemma {:induction false} PictureOrNone(s: string, keywords: set<string>, st: State, t: Token)
    requires st.pos <= |s| && st.picture && Lexeme(s, keywords, st, t)
    ensures t.kind == PictureString || (t.kind == Error && t.start == t.end) || (t.kind == Eof && t.start == |s|)
  {
  }

  // ----- Where a token starts -----

  /** The letters I and S, in any case, with white space or the end of the text after them. */
  predicate IsWordIs(s: string, i: nat) {
    && i + 2 <= |s|
    && (s[i] == 'I' || s[i] == 'i') && (s[i+1] == 'S' || s[i+1] == 's')
    && (i + 2 < |s| ==> IsWhitespace(s[i+2]))
  }

  /** The first character from `i` on that is not white space stands at `x`. */
  ghost predicate FirstNonBlank(s: string, i: nat, x: nat) {
    i <= x <= |s| && (forall k :: i <= k < x ==> IsWhitespace(s[k])) && (x < |s| ==> !IsWhitespace(s[x]))
  }

  /** A token starts at the first character that is not white space; after PIC a lone IS comes before it or not. */
  lemma {:induction false} StartMeans(s: string, st: State, x: nat)
    requires st.pos <= |s| && FirstNonBlank(s, st.pos, x)
    ensures !st.picture || !IsWordIs(s, x) ==> TokenStart(s, st) == x
    ensures st.picture && IsWordIs(s, x) ==> FirstNonBlank(s, x + 2, TokenStart(s, st))
  {
    assert BlanksEnd(s, st.pos) == x;
    if x + 2 <= |s| {
      assert Upper(s[x..x+2]) == [ToUpper(s[x]), ToUpper(s[x+1])];
      assert ToUpper(s[x]) == 'I' <==> s[x] == 'I' || s[x] == 'i';
      assert ToUpper(s[x+1]) == 'S' <==> s[x+1] == 'S' || s[x+1] == 's';
      assert "IS" == ['I', 'S'];
    }
  }

  /** A plus or minus before a digit is a sign at the start of the text, after a space or tab and after an operator or an opening parenthesis; otherwise it is an operator. */
  lemma {:induction false} SignOrOperator(s: string, keywords: set<string>, st: State, t: Token)
    requires st.pos <= |s| && !st.picture && Lexeme(s, keywords, st, t)
    requires t.start + 1 < |s| && (s[t.start] == '+' || s[t.start] == '-') && IsDigit(s[t.start+1])
    ensures t.kind == IntegerLiteral || t.kind == DecimalLiteral <==>
      t.start == 0 || s[t.start-1] in " \t" || s[t.start-1] in "=+-*/(,;"
    ensures t.kind == IntegerLiteral || t.kind == DecimalLiteral || t.kind == (if s[t.start] == '+' then Plus else Minus)
  {
    NoLevelWithoutDigit(s, t.start);
    if SignHere(s, t.start) {
      SignedNumber(s, t);
    } else {
      assert OperatorAt(s, t.start) == Some((if s[t.start] == '+' then Plus else Minus, 1));
    }
  }

  lemma {:induction false} SignedNumber(s: string, t: Token)
    requires t.start + 1 < |s| && (s[t.start] == '+' || s[t.start] == '-') && NumberToken(s, t)
    ensures t.kind == IntegerLiteral || t.kind == DecimalLiteral
  {
  }

  // ----- The classes of characters, spelled out -----

  lemma {:induction false} DigitsSpelled(c: char)
    ensures IsDigit(c) <==> c in "0123456789"
  {
  }

  lemma {:induction false} LettersSpelled(c: char)
    ensures IsWordChar(c) <==> IsDigit(c) || c == '-' || 'A' <= ToUpper(c) <= 'Z'
    ensures c in "abcdefghijklmnopqrstuvwxyz" ==> ToUpper(c) as int == c as int - 'a' as int + 'A' as int
    ensures c !in "abcdefghijklmnopqrstuvwxyz" ==> ToUpper(c) == c
  {
  }

  lemma {:induction false} WhiteSpaceSpelled(c: char)
    ensures IsWhitespace(c) <==> c in " \t\n\r" || c as int == 12
    ensures IsTrimmed(c) <==> IsWhitespace(c) || c as int == 11
  {
  }

  // ----- Operators of a stream -----

  /**
    In a token stream, outside the place of a picture and where no number starts: token `i` is of an
    operator kind exactly when that operator is the longest written there.
  */
  lemma {:induction false} OperatorsOfStream(s: string, keywords: set<string>, st: State, ts: seq<Token>, i: nat, k: Kind)
    requires st.pos <= |s| && Tokens(s, keywords, st, ts) && i < |ts| && IsOperator(k)
    ensures ts[i].kind == k ==> LongestAt(s, ts[i].start, k) && ts[i].end == ts[i].start + |Spelling(k).value|
    ensures !StateAfter(st, ts[..i]).picture && ts[i].start < |s| && !StartsNumber(s, ts[i].start) ==>
      (ts[i].kind == k <==> LongestAt(s, ts[i].start, k))
  {
    TokenFits(s, keywords, st, ts, i);
    var before := StateAfter(st, ts[..i]);
    if ts[i].kind == k { OperatorIsWritten(s, keywords, before, ts[i]); }
    if !before.picture && ts[i].start < |s| && !StartsNumber(s, ts[i].start) && LongestAt(s, ts[i].start, k) {
      WrittenIsRead(s, keywords, before, ts[i], k);
    }
  }

  // ----- Line ends -----

  ghost predicate NoNewline(s: string, i: nat, j: nat) {
    i <= j <= |s| && forall k :: i <= k < j ==> s[k] != '\n'
  }

  lemma {:induction false} LiteralHasNoNewline(s: string, quoteAt: nat, closedKind: Kind, t: Token)
    requires quoteAt < |s| && IsQuote(s[quoteAt]) && LiteralToken(s, quoteAt, closedKind, t)
    ensures NoNewline(s, quoteAt, t.end)
  {
    if t.kind == closedKind {
      NoNewlineInside(s, quoteAt, t.end - 1);
    } else {
      NoNewlineInside(s, quoteAt, t.end);
    }
  }

  /** No token goes over a line end. */
  lemma {:induction false} TokenHasNoNewline(s: string, keywords: set<string>, st: State, t: Token)
    requires st.pos <= |s| && Lexeme(s, keywords, st, t)
    ensures NoNewline(s, t.start, t.end)
  {
    LexemeRange(s, keywords, st, t);
    var i := t.start;
    if i == |s| {
    } else if st.picture {
      PictureRun(s, i);
    } else if HasPrefix(s, i) {
      LiteralHasNoNewline(s, i + 1, PrefixedKind(s[i]), t);
    } else if IsQuote(s[i]) {
      LiteralHasNoNewline(s, i, StringLiteral, t);
    } else {
      UnquotedHasNoNewline(s, keywords, st.statement, t);
    }
  }

  lemma {:induction false} UnquotedHasNoNewline(s: string, keywords: set<string>, statement: bool, t: Token)
    requires t.start < t.end <= |s| && !IsWhitespace(s[t.start]) && UnquotedLexeme(s, keywords, statement, t)
    ensures NoNewline(s, t.start, t.end)
  {
    var i := t.start;
    if statement && LevelHere(s, i) {
      DigitsRun(s, i);
    } else if StartsNumber(s, i) {
      NumberMeans(s, t);
    } else {
      SymbolHasNoNewline(s, keywords, t);
    }
  }

  lemma {:induction false} SymbolHasNoNewline(s: string, keywords: set<string>, t: Token)
    requires t.start < t.end <= |s| && !IsWhitespace(s[t.start]) && SymbolLexeme(s, keywords, t)
    ensures NoNewline(s, t.start, t.end)
  {
    OperatorAtIsLongest(s, t.start);
    if OperatorAt(s, t.start).Some? {
      WrittenMeans(s, t.start, t.kind);
    } else if IsLetter(s[t.start]) {
      WordFrom(s, t.start);
    }
  }
}
