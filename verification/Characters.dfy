/** Character classes of the front end. Source text is ASCII: one character is one byte. */
module Characters {
  /** `u8::is_ascii_whitespace`: space, tab, newline, form feed and carriage return. */
  predicate IsWhitespace(c: char) {
    c == ' ' || c == '\t' || c == '\n' || c == 12 as char || c == '\r'
  }

  /** What `str::trim` removes: also the vertical tab. */
  predicate IsTrimmed(c: char) {
    IsWhitespace(c) || c == 11 as char
  }

  predicate IsDigit(c: char) { '0' <= c <= '9' }

  predicate IsLetter(c: char) { 'a' <= c <= 'z' || 'A' <= c <= 'Z' }

  predicate IsWordChar(c: char) { IsLetter(c) || IsDigit(c) || c == '-' }

  function ToUpper(c: char): char {
    if 'a' <= c <= 'z' then (c as int - 32) as char else c
  }

  function Upper(s: string): string {
    seq(|s|, i requires 0 <= i < |s| => ToUpper(s[i]))
  }

  /** All characters of `s` from `i` to `j` are whitespace. */
  predicate Blank(s: string, i: nat, j: nat)
    requires i <= j <= |s|
  {
    forall k :: i <= k < j ==> IsWhitespace(s[k])
  }

  /** How often `c` occurs in `s`. */
  function CountOf(s: string, c: char): nat {
    if s == [] then 0 else CountOf(s[..|s|-1], c) + if s[|s|-1] == c then 1 else 0
  }

  lemma {:induction false} CountOfAppend(a: string, b: string, c: char)
    ensures CountOf(a + b, c) == CountOf(a, c) + CountOf(b, c)
  {
    if b == [] {
      assert a + b == a;
    } else {
      assert (a + b)[..|a + b| - 1] == a + b[..|b|-1];
      CountOfAppend(a, b[..|b|-1], c);
    }
  }

  lemma {:induction false} CountOfNone(s: string, c: char)
    requires c !in s
    ensures CountOf(s, c) == 0
  {
    if s != [] { CountOfNone(s[..|s|-1], c); }
  }
}
