/** Byte strings cut into lines: the vocabulary shared by every log reader of the agent. */
module Lines {

  newtype byte = x: int | 0 <= x < 256

  const NEWLINE: byte := 10

  datatype Option<+T> = None | Some(value: T)

  datatype Result<+T> = Ok(value: T) | Err

  /** `s` holds no line that was begun and not ended. */
  predicate Terminated(s: seq<byte>) {
    s == [] || s[|s| - 1] == NEWLINE
  }

  /** The offset just past the first newline at or after `i`, the end of `s` when there is none. */
  function BreakAfter(s: seq<byte>, i: nat): (n: nat)
    requires i <= |s|
    ensures i <= n <= |s| && (i < |s| ==> i < n)
    decreases |s| - i
  {
    if i == |s| then i else if s[i] == NEWLINE then i + 1 else BreakAfter(s, i + 1)
  }

  /** The offset just past the last newline before `n`, 0 when there is none. */
  function BreakBefore(s: seq<byte>, n: nat): (i: nat)
    requires n <= |s|
    ensures i <= n
  {
    if n == 0 || s[n - 1] == NEWLINE then n else BreakBefore(s, n - 1)
  }

  /** Length of the first line of `s` with its newline; all of `s` when it has no newline. */
  function LineLen(s: seq<byte>): (n: nat)
    ensures n <= |s| && (s != [] ==> n > 0)
  {
    BreakAfter(s, 0)
  }

  /** All lines of `s`; the last one may lack its newline. */
  function AllLines(s: seq<byte>): seq<seq<byte>>
  {
    if s == [] then [] else var n := LineLen(s); [s[..n]] + AllLines(s[n..])
  }

  /** The offset just past the last newline of `s`, 0 when there is none. */
  function LastBreak(s: seq<byte>): (n: nat)
    ensures n <= |s|
  {
    BreakBefore(s, |s|)
  }

  /** The newline-terminated lines of `s`; a trailing fragment is not one. */
  function CompleteLines(s: seq<byte>): seq<seq<byte>>
  {
    AllLines(s[..LastBreak(s)])
  }

  function Concat(ls: seq<seq<byte>>): seq<byte>
  {
    if ls == [] then [] else ls[0] + Concat(ls[1..])
  }

  /** One newline-terminated line and nothing else. */
  predicate IsLine(l: seq<byte>) {
    |l| > 0 && l[|l| - 1] == NEWLINE && forall i :: 0 <= i < |l| - 1 ==> l[i] != NEWLINE
  }

  function Filter<T>(ls: seq<T>, keep: T -> bool): seq<T>
  {
    if ls == [] then [] else (if keep(ls[0]) then [ls[0]] else []) + Filter(ls[1..], keep)
  }

  // ---------- LineLen and LastBreak are determined by where the newlines are ----------

  lemma {:induction false} BreakAfterSpec(s: seq<byte>, i: nat)
    requires i <= |s|
    ensures forall k :: i <= k < BreakAfter(s, i) - 1 ==> s[k] != NEWLINE
    ensures BreakAfter(s, i) == |s| || s[BreakAfter(s, i) - 1] == NEWLINE
    decreases |s| - i
  {
    if i < |s| && s[i] != NEWLINE {
      BreakAfterSpec(s, i + 1);
    }
  }

  lemma {:induction false} BreakBeforeSpec(s: seq<byte>, n: nat)
    requires n <= |s|
    ensures BreakBefore(s, n) == 0 || s[BreakBefore(s, n) - 1] == NEWLINE
    ensures forall k :: BreakBefore(s, n) <= k < n ==> s[k] != NEWLINE
  {
    if n > 0 && s[n - 1] != NEWLINE {
      BreakBeforeSpec(s, n - 1);
    }
  }

  lemma {:induction false} LineLenSpec(s: seq<byte>)
    ensures forall i :: 0 <= i < LineLen(s) - 1 ==> s[i] != NEWLINE
    ensures LineLen(s) == |s| || s[LineLen(s) - 1] == NEWLINE
  {
    BreakAfterSpec(s, 0);
  }

  lemma {:induction false} LastBreakSpec(s: seq<byte>)
    ensures LastBreak(s) == 0 || s[LastBreak(s) - 1] == NEWLINE
    ensures forall i :: LastBreak(s) <= i < |s| ==> s[i] != NEWLINE
  {
    BreakBeforeSpec(s, |s|);
  }

  lemma {:induction false} LineLenUnique(s: seq<byte>, n: nat)
    requires 0 < n <= |s|
    requires forall i :: 0 <= i < n - 1 ==> s[i] != NEWLINE
    requires n == |s| || s[n - 1] == NEWLINE
    ensures LineLen(s) == n
  {
    LineLenSpec(s);
  }

  lemma {:induction false} LastBreakUnique(s: seq<byte>, n: nat)
    requires n <= |s|
    requires n == 0 || s[n - 1] == NEWLINE
    requires forall i :: n <= i < |s| ==> s[i] != NEWLINE
    ensures LastBreak(s) == n
  {
    LastBreakSpec(s);
  }

  /** Cutting off a terminated prefix moves the last break by its length. */
  lemma {:induction false} LastBreakAppend(a: seq<byte>, b: seq<byte>)
    requires Terminated(a)
    ensures LastBreak(a + b) == |a| + LastBreak(b)
  {
    LastBreakSpec(b);
    var n := LastBreak(b);
    var s := a + b;
    assert |a| + n > 0 ==> s[|a| + n - 1] == NEWLINE by {
      if n > 0 { assert s[|a| + n - 1] == b[n - 1]; }
    }
    forall i | |a| + n <= i < |s| ensures s[i] != NEWLINE {
      assert s[i] == b[i - |a|];
    }
    LastBreakUnique(s, |a| + n);
  }

  // ---------- line lists ----------

  lemma {:induction false} LineLenAppend(a: seq<byte>, b: seq<byte>)
    requires a != [] && Terminated(a)
    ensures LineLen(a + b) == LineLen(a)
  {
    LineLenSpec(a);
    var n := LineLen(a);
    assert forall i :: 0 <= i < n ==> (a + b)[i] == a[i];
    LineLenUnique(a + b, n);
  }

  lemma {:induction false} AllLinesAppend(a: seq<byte>, b: seq<byte>)
    requires Terminated(a)
    ensures AllLines(a + b) == AllLines(a) + AllLines(b)
    decreases |a|
  {
    if a == [] {
      assert a + b == b;
    } else {
      LineLenAppend(a, b);
      var n := LineLen(a);
      assert (a + b)[..n] == a[..n];
      assert (a + b)[n..] == a[n..] + b;
      AllLinesAppend(a[n..], b);
    }
  }

  lemma {:induction false} SingleLine(l: seq<byte>)
    requires IsLine(l)
    ensures AllLines(l) == [l]
  {
    LineLenUnique(l, |l|);
    assert l[..|l|] == l;
    assert l[|l|..] == [];
  }

  /** A cut just past a newline cuts the line list. */
  lemma {:induction false} CutLines(s: seq<byte>, p: nat, q: nat)
    requires p <= q <= |s| && Terminated(s[p..q])
    ensures CompleteLines(s[p..]) == AllLines(s[p..q]) + CompleteLines(s[q..])
  {
    CompleteLinesAppend(s[p..q], s[q..]);
    assert s[p..] == s[p..q] + s[q..];
  }

  lemma {:induction false} CompleteLinesAppend(a: seq<byte>, b: seq<byte>)
    requires Terminated(a)
    ensures CompleteLines(a + b) == AllLines(a) + CompleteLines(b)
  {
    LastBreakAppend(a, b);
    var n := LastBreak(b);
    assert (a + b)[..|a| + n] == a + b[..n];
    AllLinesAppend(a, b[..n]);
  }

  lemma {:induction false} ConcatAllLines(s: seq<byte>)
    ensures Concat(AllLines(s)) == s
    decreases |s|
  {
    if s != [] {
      var n := LineLen(s);
      ConcatAllLines(s[n..]);
      assert s == s[..n] + s[n..];
    }
  }

  lemma {:induction false} AllLinesAreLines(s: seq<byte>)
    requires Terminated(s)
    ensures forall l :: l in AllLines(s) ==> IsLine(l)
    decreases |s|
  {
    if s != [] {
      LineLenSpec(s);
      var n := LineLen(s);
      assert Terminated(s[n..]);
      AllLinesAreLines(s[n..]);
      assert IsLine(s[..n]);
    }
  }

  /** Lines are the only way to cut a byte string into lines. */
  lemma {:induction false} AllLinesOfConcat(ls: seq<seq<byte>>)
    requires forall l :: l in ls ==> IsLine(l)
    ensures AllLines(Concat(ls)) == ls
  {
    if ls != [] {
      var s := Concat(ls);
      assert IsLine(ls[0]);
      LineLenUnique(s, |ls[0]|);
      assert s[..|ls[0]|] == ls[0] && s[|ls[0]|..] == Concat(ls[1..]);
      AllLinesOfConcat(ls[1..]);
      assert ls == [ls[0]] + ls[1..];
    }
  }

  lemma {:induction false} ConcatAppend(xs: seq<seq<byte>>, ys: seq<seq<byte>>)
    ensures Concat(xs + ys) == Concat(xs) + Concat(ys)
  {
    if xs == [] {
      assert xs + ys == ys;
    } else {
      assert (xs + ys)[1..] == xs[1..] + ys;
      ConcatAppend(xs[1..], ys);
    }
  }

  lemma {:induction false} FilterAppend<T>(xs: seq<T>, ys: seq<T>, keep: T -> bool)
    ensures Filter(xs + ys, keep) == Filter(xs, keep) + Filter(ys, keep)
  {
    if xs == [] {
      assert xs + ys == ys;
    } else {
      var zs := xs + ys;
      assert zs[0] == xs[0] && zs[1..] == xs[1..] + ys;
      FilterAppend(xs[1..], ys, keep);
      var first := if keep(xs[0]) then [xs[0]] else [];
      assert Filter(zs, keep) == first + (Filter(xs[1..], keep) + Filter(ys, keep));
    }
  }

  lemma {:induction false} FilterMembers<T>(ls: seq<T>, keep: T -> bool)
    ensures forall l :: l in Filter(ls, keep) <==> l in ls && keep(l)
  {
    if ls != [] {
      FilterMembers(ls[1..], keep);
      assert ls == [ls[0]] + ls[1..];
    }
  }

  lemma {:induction false} FilterAll<T>(ls: seq<T>, keep: T -> bool)
    requires forall l :: l in ls ==> keep(l)
    ensures Filter(ls, keep) == ls
  {
    if ls != [] {
      FilterAll(ls[1..], keep);
      assert ls == [ls[0]] + ls[1..];
    }
  }

  lemma {:induction false} FilterNone<T>(ls: seq<T>, keep: T -> bool)
    requires forall l :: l in ls ==> !keep(l)
    ensures Filter(ls, keep) == []
  {
    if ls != [] {
      FilterNone(ls[1..], keep);
    }
  }

  // ---------- runs ----------

  /** What holds at first, and goes on exactly at good steps, holds all along exactly when all steps are good. */
  lemma {:induction false} HoldsAllAlongIff(holds: nat -> bool, good: nat -> bool, n: nat)
    requires holds(0) && forall k :: 0 <= k < n && holds(k) ==> (holds(k + 1) <==> good(k))
    ensures (forall k :: 0 <= k <= n ==> holds(k)) <==> (forall k :: 0 <= k < n ==> good(k))
  {
    if n > 0 {
      HoldsAllAlongIff(holds, good, n - 1);
      var k := n - 1;
      assert holds(k) ==> (holds(k + 1) <==> good(k));
    }
  }
}
