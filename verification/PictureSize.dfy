/**
  The two readings of a PICTURE string: the scanner that adds up its storage size run by run, and
  the expander that writes every repeated symbol out.
*/
module PictureSize {
  import opened Options
  import opened Characters
  import opened Lexemes
  import opened LiteralContinuation

  const UINT32: nat := 0x1_0000_0000
  const USIZE: nat := 0x1_0000_0000_0000_0000

  predicate AllDigits(s: string) {
    forall i :: 0 <= i < |s| ==> IsDigit(s[i])
  }

  /** `str::parse` of an unsigned integer below `limit`, with an optional plus. */
  function Parse(raw: string, limit: nat): Option<nat> {
    var digits := if raw != [] && raw[0] == '+' then raw[1..] else raw;
    if digits != [] && AllDigits(digits) && NumberOf(digits) < limit then Some(NumberOf(digits)) else None
  }

  // ----- The scanner -----

  /** The repeat count after the symbol that starts `s`, and the text it leaves. */
  function ScanRun(s: string): (run: (nat, string))
    requires s != []
    ensures |run.1| < |s|
  {
    if |s| > 1 && s[1] == '(' then
      var end := DigitsEnd(s, 2);
      if end < |s| && s[end] == ')' && Parse(s[2..end], UINT32).Some?
      then (Parse(s[2..end], UINT32).value, s[end+1..])
      else (1, s[1..])
    else (1, s[1..])
  }

  function SizeOf(s: string): nat
    decreases |s|
  {
    if s == [] then 0
    else if s[0] == 'V' || s[0] == 'S' then SizeOf(s[1..])
    else if |s| > 1 && ((s[0] == 'C' && s[1] == 'R') || (s[0] == 'D' && s[1] == 'B')) then 2 + SizeOf(s[2..])
    else ScanRun(s).0 + SizeOf(ScanRun(s).1)
  }

  /** CR or DB. */
  predicate PairAt(pic: string, i: nat) {
    i + 1 < |pic| && ((pic[i] == 'C' && pic[i+1] == 'R') || (pic[i] == 'D' && pic[i+1] == 'B'))
  }

  lemma {:induction false} SkipTurn(pic: string, i: nat)
    requires i < |pic| && (pic[i] == 'V' || pic[i] == 'S')
    ensures SizeOf(pic[i..]) == SizeOf(pic[i+1..])
  {
    assert pic[i..][1..] == pic[i+1..];
  }

  lemma {:induction false} PairTurn(pic: string, i: nat)
    requires i < |pic| && pic[i] != 'V' && pic[i] != 'S' && PairAt(pic, i)
    ensures SizeOf(pic[i..]) == 2 + SizeOf(pic[i+2..])
  {
    assert pic[i..][1] == pic[i+1] && pic[i..][2..] == pic[i+2..];
  }

  lemma {:induction false} RunTurn(pic: string, i: nat, count: nat, rest: string)
    requires i < |pic| && pic[i] != 'V' && pic[i] != 'S' && !PairAt(pic, i) && ScanRun(pic[i..]) == (count, rest)
    ensures SizeOf(pic[i..]) == count + SizeOf(rest)
  {
    if i + 1 < |pic| { assert pic[i..][1] == pic[i+1]; }
  }

  /** The body of the scanning loop: how many bytes are added, and where the loop goes on. */
  method ScanSymbol(pic: string, i: nat) returns (bytes: nat, next: nat)
    requires i < |pic|
    ensures i < next <= |pic| && SizeOf(pic[i..]) == bytes + SizeOf(pic[next..])
  {
    if pic[i] == 'V' || pic[i] == 'S' {
      SkipTurn(pic, i);
      return 0, i + 1;
    }
    if PairAt(pic, i) {
      PairTurn(pic, i);
      return 2, i + 2;
    }
    var count, at := StorageRepeatCount(pic, i);
    RunTurn(pic, i, count, pic[at+1..]);
    return count, at + 1;
  }

  method PictureStorageSize(pic: string) returns (size: nat)
    ensures size == SizeOf(pic)
  {
    size := 0;
    var i := 0;
    while i < |pic|
      invariant i <= |pic| && size + SizeOf(pic[i..]) == SizeOf(pic)
    {
      var bytes;
      bytes, i := ScanSymbol(pic, i);
      size := size + bytes;
    }
    assert pic[i..] == [];
  }

  /** `picture_storage_repeat_count`: moves `i` to the closing parenthesis when there is a count. */
  method StorageRepeatCount(pic: string, i: nat) returns (count: nat, at: nat)
    requires i < |pic|
    ensures i <= at < |pic| && (count, pic[at+1..]) == ScanRun(pic[i..])
  {
    if i + 1 >= |pic| || pic[i+1] != '(' {
      return 1, i;
    }
    var end := i + 2;
    while end < |pic| && IsDigit(pic[end])
      invariant i + 2 <= end <= |pic| && DigitsEnd(pic[i..], end - i) == DigitsEnd(pic[i..], 2)
    {
      end := end + 1;
    }
    assert DigitsEnd(pic[i..], 2) == end - i;
    assert pic[i..][2..end-i] == pic[i+2..end];
    if end < |pic| && pic[end] == ')' {
      var parsed := Parse(pic[i+2..end], UINT32);
      assert pic[i..][end-i+1..] == pic[end+1..];
      if parsed.Some? { return parsed.value, end; }
    }
    return 1, i;
  }

  // ----- The expander -----

  function CloseAt(s: string, i: nat): (j: nat)
    requires i <= |s|
    ensures i <= j <= |s|
    decreases |s| - i
  {
    if i < |s| && s[i] != ')' then CloseAt(s, i + 1) else i
  }

  function ExpandRun(s: string): (run: (nat, string))
    requires s != []
    ensures |run.1| < |s|
  {
    if |s| > 1 && s[1] == '(' && CloseAt(s, 2) < |s| then
      var end := CloseAt(s, 2);
      (match Parse(s[2..end], USIZE) case Some(n) => n case None => 1, s[end+1..])
    else (1, s[1..])
  }

  function Repeat(c: char, n: nat): (s: string)
    ensures |s| == n && forall i :: 0 <= i < n ==> s[i] == c
  {
    seq(n, _ => c)
  }

  function Expanded(s: string): string
    decreases |s|
  {
    if s == [] then [] else Repeat(s[0], ExpandRun(s).0) + Expanded(ExpandRun(s).1)
  }

  lemma {:induction false} ExpandTurn(out: string, s: string, repeat: nat, rest: string)
    requires s != [] && ExpandRun(s) == (repeat, rest)
    ensures (out + Repeat(s[0], repeat)) + Expanded(rest) == out + Expanded(s)
  {
    Associates(out, Repeat(s[0], repeat), Expanded(rest));
  }

  /** The body of the expanding loop: one symbol is written out, and the loop goes on after it. */
  method ExpandSymbol(pic: string, i: nat, before: string) returns (out: string, next: nat)
    requires i < |pic|
    ensures i < next <= |pic| && out + Expanded(pic[next..]) == before + Expanded(pic[i..])
  {
    var repeat, at := ExpandRepeatCount(pic, i);
    out, next := before + Repeat(pic[i], repeat), at + 1;
    ghost var s, rest := pic[i..], pic[next..];
    assert s[0] == pic[i];
    ExpandTurn(before, s, repeat, rest);
  }

  /** `expand_picture_repeats_for_initialize`. */
  method ExpandPictureRepeats(pic: string) returns (out: string)
    ensures out == Expanded(pic)
  {
    out := [];
    var i := 0;
    while i < |pic|
      invariant i <= |pic| && out + Expanded(pic[i..]) == Expanded(pic)
    {
      out, i := ExpandSymbol(pic, i, out);
    }
    assert pic[i..] == [];
  }

  /** The repeat count after the symbol at `i`; moves `i` to the closing parenthesis when there is one. */
  method ExpandRepeatCount(pic: string, i: nat) returns (repeat: nat, at: nat)
    requires i < |pic|
    ensures i <= at < |pic| && (repeat, pic[at+1..]) == ExpandRun(pic[i..])
  {
    assert pic[i..][1..] == pic[i+1..];
    repeat, at := 1, i;
    if i + 1 < |pic| && pic[i+1] == '(' {
      var end := i + 2;
      while end < |pic| && pic[end] != ')'
        invariant i + 2 <= end <= |pic| && CloseAt(pic[i..], end - i) == CloseAt(pic[i..], 2)
      {
        end := end + 1;
      }
      assert CloseAt(pic[i..], 2) == end - i;
      if end < |pic| {
        assert pic[i..][2..end-i] == pic[i+2..end] && pic[i..][end-i+1..] == pic[end+1..];
        var parsed := Parse(pic[i+2..end], USIZE);
        repeat := match parsed case Some(n) => n case None => 1;
        at := end;
      }
    }
  }

  // ----- Well-formed pictures -----

  datatype Symbol = Single(c: char) | Repeated(c: char, digits: string) | Credit | Debit

  predicate WellFormedSymbol(y: Symbol) {
    match y
    case Single(c) => c !in "(CD"
    case Repeated(c, digits) => c !in "(VS" && digits != [] && AllDigits(digits) && NumberOf(digits) < UINT32
    case _ => true
  }

  predicate WellFormedPicture(p: seq<Symbol>) {
    forall y :: y in p ==> WellFormedSymbol(y)
  }

  function WrittenSymbol(y: Symbol): string {
    match y
    case Single(c) => [c]
    case Repeated(c, digits) => [c, '('] + digits + ")"
    case Credit => "CR"
    case Debit => "DB"
  }

  function Written(p: seq<Symbol>): string {
    if p == [] then [] else WrittenSymbol(p[0]) + Written(p[1..])
  }

  /** What a symbol stands for when written out. */
  function Meaning(y: Symbol): string {
    match y
    case Single(c) => [c]
    case Repeated(c, digits) => Repeat(c, NumberOf(digits))
    case Credit => "CR"
    case Debit => "DB"
  }

  function MeaningOf(p: seq<Symbol>): string {
    if p == [] then [] else Meaning(p[0]) + MeaningOf(p[1..])
  }

  /** How many symbols take storage: all but V and S. */
  function Stored(s: string): nat {
    if s == [] then 0 else (if s[0] == 'V' || s[0] == 'S' then 0 else 1) + Stored(s[1..])
  }

  lemma {:induction false} StoredAppend(a: string, b: string)
    ensures Stored(a + b) == Stored(a) + Stored(b)
  {
    if a == [] {
      assert a + b == b;
    } else {
      assert (a + b)[1..] == a[1..] + b;
      StoredAppend(a[1..], b);
    }
  }

  lemma {:induction false} StoredRepeat(c: char, n: nat)
    requires c != 'V' && c != 'S'
    ensures Stored(Repeat(c, n)) == n
  {
    if n > 0 {
      assert Repeat(c, n)[1..] == Repeat(c, n - 1);
      StoredRepeat(c, n - 1);
    }
  }

  /** No symbol starts with a parenthesis. */
  lemma {:induction false} NextIsNoParenthesis(p: seq<Symbol>)
    requires WellFormedPicture(p)
    ensures Written(p) != [] ==> Written(p)[0] != '('
  {
    if p != [] { assert p[0] in p && WellFormedSymbol(p[0]); }
  }

  lemma {:induction false} DigitsEndIs(s: string, i: nat, j: nat)
    requires i <= j <= |s| && (forall k :: i <= k < j ==> IsDigit(s[k])) && (j < |s| ==> !IsDigit(s[j]))
    ensures DigitsEnd(s, i) == j
    decreases j - i
  {
    if i < j { DigitsEndIs(s, i + 1, j); }
  }

  lemma {:induction false} CloseAtIs(s: string, i: nat, j: nat)
    requires i <= j < |s| && (forall k :: i <= k < j ==> s[k] != ')') && s[j] == ')'
    ensures CloseAt(s, i) == j
    decreases j - i
  {
    if i < j { CloseAtIs(s, i + 1, j); }
  }

  /** Both readers take a repeated symbol as one run. */
  lemma {:induction false} RepeatedRun(c: char, digits: string, rest: string)
    requires WellFormedSymbol(Repeated(c, digits))
    ensures var s := WrittenSymbol(Repeated(c, digits)) + rest;
      s[0] == c && s[1] == '(' && ScanRun(s) == (NumberOf(digits), rest) && ExpandRun(s) == (NumberOf(digits), rest)
  {
    var s, end := WrittenSymbol(Repeated(c, digits)) + rest, 2 + |digits|;
    assert s[2..end] == digits && s[end] == ')' && s[end+1..] == rest;
    assert forall k :: 2 <= k < end ==> s[k] == digits[k-2];
    DigitsEndIs(s, 2, end);
    CloseAtIs(s, 2, end);
  }

  lemma {:induction false} OneSymbol(y: Symbol, rest: string)
    requires WellFormedSymbol(y) && (rest != [] ==> rest[0] != '(')
    ensures Expanded(WrittenSymbol(y) + rest) == Meaning(y) + Expanded(rest)
    ensures SizeOf(WrittenSymbol(y) + rest) == Stored(Meaning(y)) + SizeOf(rest)
  {
    match y
    case Single(c) => SingleSymbol(c, rest);
    case Repeated(c, digits) => RepeatedSymbol(c, digits, rest);
    case Credit => TwoSymbols('C', 'R', rest);
    case Debit => TwoSymbols('D', 'B', rest);
  }

  lemma {:induction false} SingleSymbol(c: char, rest: string)
    requires WellFormedSymbol(Single(c)) && (rest != [] ==> rest[0] != '(')
    ensures Expanded([c] + rest) == [c] + Expanded(rest)
    ensures SizeOf([c] + rest) == Stored([c]) + SizeOf(rest)
  {
    assert ([c] + rest)[1..] == rest;
    assert Repeat(c, 1) == [c] && [c][1..] == [];
    assert Stored([]) == 0;
  }

  lemma {:induction false} RepeatedSymbol(c: char, digits: string, rest: string)
    requires WellFormedSymbol(Repeated(c, digits))
    ensures var s := WrittenSymbol(Repeated(c, digits)) + rest;
      && Expanded(s) == Repeat(c, NumberOf(digits)) + Expanded(rest)
      && SizeOf(s) == Stored(Repeat(c, NumberOf(digits))) + SizeOf(rest)
  {
    RepeatedRun(c, digits, rest);
    StoredRepeat(c, NumberOf(digits));
  }

  lemma {:induction false} TwoSymbols(a: char, b: char, rest: string)
    requires (a == 'C' && b == 'R') || (a == 'D' && b == 'B')
    requires rest != [] ==> rest[0] != '('
    ensures Expanded([a, b] + rest) == [a, b] + Expanded(rest)
    ensures SizeOf([a, b] + rest) == Stored([a, b]) + SizeOf(rest)
  {
    var s := [a, b] + rest;
    assert s[1..] == [b] + rest && s[2..] == rest && ([b] + rest)[1..] == rest;
    assert Expanded([b] + rest) == Repeat(b, 1) + Expanded(rest);
    assert Repeat(a, 1) + Repeat(b, 1) == [a, b];
    assert [a, b][1..] == [b] && [b][1..] == [];
    assert Stored([b]) == 1;
  }

  /** On a well-formed picture the scanner counts what the expander writes, less V and S. */
  lemma {:induction false} SizeIsExpandedLength(p: seq<Symbol>)
    requires WellFormedPicture(p)
    ensures Expanded(Written(p)) == MeaningOf(p)
    ensures SizeOf(Written(p)) == Stored(Expanded(Written(p)))
  {
    if p != [] {
      assert p[0] in p;
      NextIsNoParenthesis(p[1..]);
      SizeIsExpandedLength(p[1..]);
      OneSymbol(p[0], Written(p[1..]));
      StoredAppend(Meaning(p[0]), MeaningOf(p[1..]));
    }
  }

  /**
    A count that is no number is read differently too: the expander writes the symbol once and goes
    on after the parenthesis, the scanner counts every character of the parenthesis.
  */
  lemma {:induction false} UnreadableCount(c: char, raw: string, rest: string)
    requires c !in "VSCD" && ')' !in raw && '+' !in raw && !(raw != [] && AllDigits(raw))
    ensures var s := [c, '('] + raw + ")" + rest;
      && Expanded(s) == [c] + Expanded(rest)
      && SizeOf(s) == 1 + SizeOf("(" + raw + ")" + rest)
  {
    var s, end := [c, '('] + raw + ")" + rest, 2 + |raw|;
    assert s[0] == c && s[1] == '(' && s[2..end] == raw && s[end] == ')' && s[end+1..] == rest && s[1..] == "(" + raw + ")" + rest;
    WrittenOnce(s, raw, end, rest);
    NoCountHere(s, raw, end);
  }

  lemma {:induction false} WrittenOnce(s: string, raw: string, end: nat, rest: string)
    requires end == 2 + |raw| < |s| && s[2..end] == raw && s[end] == ')' && s[1] == '(' && s[end+1..] == rest
    requires ')' !in raw && '+' !in raw && !(raw != [] && AllDigits(raw))
    ensures Expanded(s) == [s[0]] + Expanded(rest)
  {
    assert forall k :: 2 <= k < end ==> s[k] == raw[k-2];
    CloseAtIs(s, 2, end);
    assert Repeat(s[0], 1) == [s[0]];
  }

  lemma {:induction false} NoCountHere(s: string, raw: string, end: nat)
    requires end == 2 + |raw| < |s| && s[2..end] == raw && s[end] == ')' && s[1] == '(' && ')' !in raw && !(raw != [] && AllDigits(raw))
    ensures ScanRun(s) == (1, s[1..])
  {
    var d := DigitsEnd(s, 2);
    assert forall k :: 0 <= k < |raw| ==> raw[k] == s[k + 2];
    DigitsStop(s, 2, end);
    assert d == end ==> AllDigits(raw);
    assert d < end ==> s[d] == raw[d - 2] && raw[d - 2] in raw;
  }

  /** Digits end at the first character that is none. */
  lemma {:induction false} DigitsStop(s: string, i: nat, end: nat)
    requires i <= end < |s| && !IsDigit(s[end])
    ensures i <= DigitsEnd(s, i) <= end && forall k :: i <= k < DigitsEnd(s, i) ==> IsDigit(s[k])
    decreases end - i
  {
    if i < end && IsDigit(s[i]) { DigitsStop(s, i + 1, end); }
  }

  /** Off well-formed pictures the two readings differ: a repeated sign is skipped by one symbol only. */
  lemma {:induction false} RepeatedSignDiffers()
    ensures SizeOf("S(2)") == 3 && Stored(Expanded("S(2)")) == 0
  {
    var s := "S(2)";
    assert s[1..] == "(2)" && "(2)"[1..] == "2)" && "2)"[1..] == ")" && ")"[1..] == "";
    CloseAtIs(s, 2, 3);
    assert NumberOf("2") == 2 by { assert "2"[..0] == ""; }
    assert ExpandRun(s) == (2, "") by { assert s[2..3] == "2" && s[4..] == ""; }
    assert Repeat('S', 2) == "SS" && "SS"[1..] == "S" && "S"[1..] == "";
    assert SizeOf(")") == 1 && SizeOf("2)") == 2 && SizeOf("(2)") == 3;
    assert Expanded("") == "" && Expanded(s) == "SS" + "";
  }
}
