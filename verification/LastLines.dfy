/** Positioning a file at its last n lines by a backward scan in blocks. */
module LastLines {
  import opened Lines

  const BUFFER_SIZE: nat := 4096
  const TWO63 := 0x8000_0000_0000_0000
  const TWO64 := 0x1_0000_0000_0000_0000

  /** Conversion to a 64-bit signed int. */
  function ToInt64(x: int): int
  {
    var m := x % TWO64;
    if m < TWO63 then m else m - TWO64
  }

  function Newlines(s: seq<byte>): nat
  {
    if s == [] then 0 else (if s[0] == NEWLINE then 1 else 0) + Newlines(s[1..])
  }

  lemma {:induction false} NewlinesAppend(a: seq<byte>, b: seq<byte>)
    ensures Newlines(a + b) == Newlines(a) + Newlines(b)
    decreases |a|
  {
    if a == [] {
      assert a + b == b;
    } else {
      assert (a + b)[1..] == a[1..] + b;
      NewlinesAppend(a[1..], b);
    }
  }

  lemma {:induction false} NoNewlines(s: seq<byte>)
    requires forall i :: 0 <= i < |s| ==> s[i] != NEWLINE
    ensures Newlines(s) == 0
    decreases |s|
  {
    if s != [] {
      NoNewlines(s[1..]);
    }
  }

  lemma {:induction false} NewlinesBounded(s: seq<byte>)
    ensures Newlines(s) <= |s|
    decreases |s|
  {
    if s != [] {
      NewlinesBounded(s[1..]);
    }
  }

  /** The first line holds a newline exactly when it is complete. */
  lemma {:induction false} NewlinesOfFirst(s: seq<byte>)
    requires s != []
    ensures Newlines(s[..LineLen(s)]) == if s[LineLen(s) - 1] == NEWLINE then 1 else 0
  {
    LineLenSpec(s);
    var n := LineLen(s);
    NoNewlines(s[..n - 1]);
    assert s[..n] == s[..n - 1] + [s[n - 1]];
    NewlinesAppend(s[..n - 1], [s[n - 1]]);
    assert [s[n - 1]][1..] == [];
  }

  /** Lines are newlines, and one more for a trailing fragment. */
  lemma {:induction false} LinesCounted(s: seq<byte>)
    ensures |AllLines(s)| == Newlines(s) + if Terminated(s) then 0 else 1
    decreases |s|
  {
    if s != [] {
      var n := LineLen(s);
      NewlinesOfFirst(s);
      assert s == s[..n] + s[n..];
      NewlinesAppend(s[..n], s[n..]);
      LinesCounted(s[n..]);
      LineLenSpec(s);
      assert n == |s| ==> s[n..] == [];
    }
  }

  function Min(a: nat, b: nat): nat { if a < b then a else b }

  /** The reference: the text of the last `n` lines, or of all when there are fewer. */
  function LastText(s: seq<byte>, n: nat): seq<byte>
  {
    var ls := AllLines(s);
    Concat(ls[|ls| - Min(n, |ls|)..])
  }

  /** Enough lines: the rest after a newline that has exactly n lines behind it. */
  lemma {:induction false} RestIsLast(s: seq<byte>, start: nat, n: nat)
    requires start <= |s| && Terminated(s[..start]) && |AllLines(s[start..])| == n
    ensures s[start..] == LastText(s, n)
  {
    assert s == s[..start] + s[start..];
    AllLinesAppend(s[..start], s[start..]);
    ConcatAllLines(s[start..]);
    var ls := AllLines(s);
    assert ls[|ls| - n..] == AllLines(s[start..]);
  }

  /** Too few lines: everything. */
  lemma {:induction false} AllIsLast(s: seq<byte>, n: nat)
    requires |AllLines(s)| <= n
    ensures s == LastText(s, n)
  {
    ConcatAllLines(s);
    var ls := AllLines(s);
    assert ls[0..] == ls;
  }

  /** What is counted to: a trailing newline ends the last line and is not one to stop at. */
  function Target(n: nat, endsWithNewline: bool): int
  {
    if endsWithNewline then ToInt64(ToInt64(n) + 1) else ToInt64(n)
  }

  lemma {:induction false} ToInt64Is(x: int)
    requires -TWO64 < x < TWO64
    ensures 0 <= x < TWO63 ==> ToInt64(x) == x
    ensures TWO63 <= x ==> ToInt64(x) == x - TWO64
    ensures -TWO63 <= x < 0 ==> ToInt64(x) == x
  {
    assert x < 0 ==> x % TWO64 == x + TWO64;
  }

  /** The conversion wraps for huge n, and then only to a target that is never reached. */
  lemma {:induction false} TargetMeans(n: nat, endsWithNewline: bool)
    requires 0 < n < TWO64
    ensures var t := Target(n, endsWithNewline);
      if t > 0 then t == n + if endsWithNewline then 1 else 0 else n >= TWO63 - 1
  {
    ToInt64Is(n);
    ToInt64Is(ToInt64(n) + 1);
  }

  lemma {:induction false} FewLines(n: nat, newlines: nat, size: nat, terminated: bool)
    requires 0 < n < TWO64 && newlines <= size < TWO63 && (newlines == size ==> terminated)
    requires Target(n, terminated) <= 0 || newlines < Target(n, terminated)
    ensures newlines + (if terminated then 0 else 1) <= n
  {
    TargetMeans(n, terminated);
  }

  /** Only newlines: the text ends with one. */
  lemma {:induction false} AllNewlines(s: seq<byte>)
    requires s != [] && Newlines(s) == |s|
    ensures Terminated(s)
  {
    var last := s[|s| - 1..];
    assert s == s[..|s| - 1] + last;
    NewlinesAppend(s[..|s| - 1], last);
    NewlinesBounded(s[..|s| - 1]);
    assert last[1..] == [];
  }

  /** Fewer newlines than the target: fewer than n lines, or just n. */
  lemma {:induction false} NotReached(s: seq<byte>, n: nat)
    requires 0 < n < TWO64 && s != [] && |s| < TWO63
    requires Target(n, Terminated(s)) <= 0 || Newlines(s) < Target(n, Terminated(s))
    ensures s == LastText(s, n)
  {
    NewlinesBounded(s);
    if Newlines(s) == |s| {
      AllNewlines(s);
    }
    FewLines(n, Newlines(s), |s|, Terminated(s));
    LinesCounted(s);
    AllIsLast(s, n);
  }

  lemma {:induction false} FoundStart(s: seq<byte>, p: nat, n: nat)
    requires p < |s| && s[p] == NEWLINE && n > 0
    requires Newlines(s[p..]) == n + if Terminated(s) then 1 else 0
    ensures s[p + 1..] == LastText(s, n) && Terminated(s[..p + 1])
  {
    assert s[p..][1..] == s[p + 1..];
    LinesCounted(s[p + 1..]);
    if !Terminated(s) {
      assert p + 1 < |s|;
      assert s[p + 1..][|s| - p - 2] == s[|s| - 1];
    } else if p + 1 < |s| {
      assert s[p + 1..][|s| - p - 2] == s[|s| - 1];
    }
    RestIsLast(s, p + 1, n);
  }

  lemma {:induction false} OneBack(s: seq<byte>, p: nat)
    requires p < |s|
    ensures Newlines(s[p..]) == Newlines(s[p + 1..]) + if s[p] == NEWLINE then 1 else 0
  {
    assert s[p..][1..] == s[p + 1..];
  }

  /** The backward scan of one block: stops at the newline that makes up the target. */
  method ScanBlock(s: seq<byte>, position: nat, end: nat, seenBefore: nat, target: int)
    returns (seen: nat, at: int)
    requires position <= end <= |s| && seenBefore == Newlines(s[end..]) < target
    ensures at < 0 ==> seen == Newlines(s[position..]) < target
    ensures at >= 0 ==> position <= at < end && s[at] == NEWLINE && Newlines(s[at..]) == target
  {
    seen := seenBefore;
    var chunk := s[position..end];
    var i := |chunk| - 1;
    while i >= 0
      invariant -1 <= i < |chunk| && seen == Newlines(s[position + i + 1..]) < target
    {
      OneBack(s, position + i);
      if chunk[i] == NEWLINE {
        seen := seen + 1;
        if seen == target {
          return seen, position + i;
        }
      }
      i := i - 1;
    }
    return seen, -1;
  }

  /** PositionLastLines, for every file and every unsigned n; the result is the offset it seeks to. */
  method PositionLastLines(s: seq<byte>, n: nat) returns (offset: nat)
    requires n < TWO64 && |s| < TWO63
    ensures offset <= |s| && s[offset..] == LastText(s, n)
    ensures offset == 0 || offset == |s| || s[offset - 1] == NEWLINE
  {
    if n == 0 {
      return |s|;
    }
    if |s| == 0 {
      AllIsLast(s, n);
      return 0;
    }
    var endsWithNewline := s[|s| - 1] == NEWLINE;
    var target := Target(n, endsWithNewline);
    var seen, position := 0, |s|;
    while position > 0 && seen < target
      invariant 0 <= position <= |s| && seen == Newlines(s[position..])
      invariant target > 0 ==> seen < target
      decreases position
    {
      var block := if BUFFER_SIZE > position then position else BUFFER_SIZE;
      var at: int;
      seen, at := ScanBlock(s, position - block, position, seen, target);
      position := position - block;
      if at >= 0 {
        TargetMeans(n, endsWithNewline);
        FoundStart(s, at, n);
        return at + 1;
      }
    }
    assert s[0..] == s;
    NotReached(s, n);
    return 0;
  }
}
