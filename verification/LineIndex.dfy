/** From byte offsets to lines and columns. */
module LineIndex {
  import opened Characters

  /** Offset 0 and every offset just after a newline starts a line. */
  predicate StartsLine(content: string, x: nat) {
    x == 0 || (x <= |content| && content[x-1] == '\n')
  }

  /** The offsets up to `n` that start a line, in order. */
  ghost predicate StartsUpTo(content: string, starts: seq<nat>, n: nat) {
    && starts != [] && starts[0] == 0
    && (forall i, j :: 0 <= i < j < |starts| ==> starts[i] < starts[j])
    && (forall i :: 0 <= i < |starts| ==> starts[i] <= n && StartsLine(content, starts[i]))
    && (forall x: nat :: x <= n && StartsLine(content, x) ==> x in starts)
  }

  /** `compute_line_starts`. */
  method ComputeLineStarts(content: string) returns (starts: seq<nat>)
    ensures StartsUpTo(content, starts, |content|)
  {
    starts := [0];
    for i := 0 to |content|
      invariant StartsUpTo(content, starts, i)
    {
      ghost var before := starts;
      if content[i] == '\n' {
        starts := starts + [i + 1];
        assert starts[|before|] == i + 1;
      }
      forall x: nat | x <= i + 1 && StartsLine(content, x) ensures x in starts {
        assert x <= i ==> x in before;
      }
    }
  }

  /** Where a line starts: the line number is one more than the newlines before it. */
  lemma {:induction false} StartsCountNewlines(content: string, starts: seq<nat>, k: nat)
    requires StartsUpTo(content, starts, |content|) && k < |starts|
    ensures CountOf(content[..starts[k]], '\n') == k
  {
    if k > 0 {
      StartsCountNewlines(content, starts, k - 1);
      var a, b := starts[k-1], starts[k];
      assert StartsLine(content, b);
      NoneBetween(content, starts, k - 1, b - 1);
      assert content[..b] == content[..a] + content[a..b-1] + "\n";
      CountOfAppend(content[..a], content[a..b-1], '\n');
      CountOfNone(content[a..b-1], '\n');
      CountOfAppend(content[..a] + content[a..b-1], "\n", '\n');
      assert CountOf("\n", '\n') == 1;
    }
  }

  /** No newline between the start of a line and a position before the next line. */
  lemma {:induction false} NoneBetween(content: string, starts: seq<nat>, k: nat, end: nat)
    requires StartsUpTo(content, starts, |content|) && k < |starts| && starts[k] <= end <= |content|
    requires k + 1 < |starts| ==> end < starts[k+1]
    ensures '\n' !in content[starts[k]..end]
  {
    forall x | starts[k] <= x < end ensures content[x] != '\n' {
      if content[x] == '\n' {
        assert StartsLine(content, x + 1);
        var j :| 0 <= j < |starts| && starts[j] == x + 1;
        assert false;
      }
    }
  }

  /** The binary search of a sorted list: where the key is, or where it would go. */
  method BinarySearch(starts: seq<nat>, key: nat) returns (found: bool, at: nat)
    requires forall i, j :: 0 <= i < j < |starts| ==> starts[i] < starts[j]
    ensures found ==> at < |starts| && starts[at] == key
    ensures !found ==> at <= |starts| && (forall i :: 0 <= i < at ==> starts[i] < key) && (forall i :: at <= i < |starts| ==> key < starts[i])
  {
    var lo, hi := 0, |starts|;
    while lo < hi
      invariant 0 <= lo <= hi <= |starts|
      invariant forall i :: 0 <= i < lo ==> starts[i] < key
      invariant forall i :: hi <= i < |starts| ==> key < starts[i]
    {
      var mid := (lo + hi) / 2;
      if starts[mid] == key {
        return true, mid;
      } else if starts[mid] < key {
        lo := mid + 1;
      } else {
        hi := mid;
      }
    }
    return false, lo;
  }

  /** The offset at which line `line` starts, counted from the newlines alone. */
  ghost predicate IsStartOfLine(content: string, line: nat, x: nat) {
    x <= |content| && StartsLine(content, x) && CountOf(content[..x], '\n') + 1 == line
  }

  /**
    `line_col`: the line is one more than the newlines before the clamped offset, and the column is
    counted from the start of that line, so line and column give the clamped offset back.
  */
  method LineCol(content: string, starts: seq<nat>, offset: nat) returns (line: nat, col: nat)
    requires StartsUpTo(content, starts, |content|)
    ensures var at := if offset < |content| then offset else |content|;
      && line == CountOf(content[..at], '\n') + 1
      && 1 <= col <= at + 1
      && IsStartOfLine(content, line, at + 1 - col)
      && '\n' !in content[at + 1 - col..at]
  {
    var at := if offset < |content| then offset else |content|;
    var found, idx := BinarySearch(starts, at);
    if !found { idx := if idx == 0 then 0 else idx - 1; }
    line, col := idx + 1, at - starts[idx] + 1;
    StartsCountNewlines(content, starts, idx);
    NoneBetween(content, starts, idx, at);
    assert content[..at] == content[..starts[idx]] + content[starts[idx]..at];
    CountOfAppend(content[..starts[idx]], content[starts[idx]..at], '\n');
    CountOfNone(content[starts[idx]..at], '\n');
  }

  /** Line and column determine the offset. */
  lemma {:induction false} LineColIsInjective(content: string, line: nat, x: nat, y: nat)
    requires IsStartOfLine(content, line, x) && IsStartOfLine(content, line, y)
    ensures x == y
  {
    if x < y {
      StartsDiffer(content, x, y);
    } else if y < x {
      StartsDiffer(content, y, x);
    }
  }

  lemma {:induction false} StartsDiffer(content: string, x: nat, y: nat)
    requires x < y <= |content| && StartsLine(content, y)
    ensures CountOf(content[..x], '\n') < CountOf(content[..y], '\n')
  {
    assert content[..y] == content[..x] + content[x..y-1] + "\n";
    CountOfAppend(content[..x] + content[x..y-1], "\n", '\n');
    CountOfAppend(content[..x], content[x..y-1], '\n');
    assert CountOf("\n", '\n') == 1;
  }
}
