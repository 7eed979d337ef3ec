/** Making command lines printable: control characters and broken UTF-8 are overwritten in place. */
module Escape {
  import opened Lines

  const INT_MAX := 0x7FFF_FFFF
  const QUESTION: byte := 63
  const DOT: byte := 46
  const AT_SIGN: byte := 64

  /** UTF_tab: the length a lead byte announces, by section 4 of RFC 3629; -1 where no character begins. */
  function UtfLen(b: byte): (n: int)
    ensures n == -1 || 1 <= n <= 4
  {
    if b < 0x80 then 1
    else if b < 0xC2 then -1
    else if b < 0xE0 then 2
    else if b < 0xF0 then 3
    else if b < 0xF5 then 4
    else -1
  }

  /** ESC_tab, with '|' meaning: leave the byte as it is. */
  function EscByte(b: byte): byte
  {
    if b == 0 then AT_SIGN
    else if b < 0x20 || b == 0x7F then DOT
    else if b < 0x80 then b
    else QUESTION
  }

  predicate IsControl(b: byte) {
    b < 0x20 || b == 0x7F
  }

  predicate Printable(b: byte) {
    0x20 <= b < 0x7F
  }

  function EscAllText(s: seq<byte>): (t: seq<byte>)
    ensures |t| == |s|
  {
    seq(|s|, i requires 0 <= i < |s| => EscByte(s[i]))
  }

  /** No character begins at the front of `s`, or it does not fit. */
  predicate Broken(s: seq<byte>)
    requires s != []
  {
    UtfLen(s[0]) < 0 || UtfLen(s[0]) > |s|
  }

  function Lead(b: byte): byte
  {
    if IsControl(b) then QUESTION else b
  }

  /** A character that is not broken, with a control character replaced. */
  function Character(s: seq<byte>): (t: seq<byte>)
    requires s != [] && !Broken(s)
    ensures |t| == UtfLen(s[0])
  {
    [Lead(s[0])] + s[1..UtfLen(s[0])]
  }

  /** What esc_ctl makes of the text `s`. */
  function EscText(s: seq<byte>): (t: seq<byte>)
    ensures |t| == |s|
    decreases |s|
  {
    if s == [] then []
    else if Broken(s) then EscAllText(s)
    else Character(s) + EscText(s[UtfLen(s[0])..])
  }

  // ---------- what the result is like ----------

  lemma {:induction false} NoNulIntroduced(s: seq<byte>)
    requires 0 !in s
    ensures 0 !in EscText(s)
    decreases |s|
  {
    if s != [] && !Broken(s) {
      NoNulIntroduced(s[UtfLen(s[0])..]);
    }
  }

  /** Printable text is left alone. */
  lemma {:induction false} PrintableStays(s: seq<byte>)
    requires forall i :: 0 <= i < |s| ==> Printable(s[i])
    ensures EscText(s) == s
    decreases |s|
  {
    if s != [] {
      var t := s[1..];
      PrintableStays(t);
      assert Printable(s[0]) && s[1..1] == [];
      assert Character(s) == [s[0]];
      assert [s[0]] + t == s;
    }
  }

  lemma {:induction false} Idempotent(s: seq<byte>)
    requires 0 !in s
    ensures EscText(EscText(s)) == EscText(s)
    decreases |s|
  {
    var t := EscText(s);
    if s != [] {
      if Broken(s) {
        forall i | 0 <= i < |t| ensures Printable(t[i]) {
          assert s[i] in s;
        }
        PrintableStays(t);
      } else {
        var n := UtfLen(s[0]);
        Idempotent(s[n..]);
        assert t[0] == Lead(s[0]) && UtfLen(t[0]) == n;
        assert t[1..n] == s[1..n] && t[n..] == EscText(s[n..]);
        assert Character(t) == Character(s);
      }
    }
  }

  /** Where the first byte stands at which no complete character begins; the end if there is none. */
  function FirstBroken(s: seq<byte>): (i: nat)
    ensures i <= |s|
    decreases |s|
  {
    if s == [] || Broken(s) then 0 else UtfLen(s[0]) + FirstBroken(s[UtfLen(s[0])..])
  }

  lemma {:induction false} EscTextAt(s: seq<byte>, i: nat)
    requires s != [] && !Broken(s) && i < |s|
    ensures var n := UtfLen(s[0]);
      EscText(s)[i] == if i == 0 then Lead(s[0]) else if i < n then s[i] else EscText(s[n..])[i - n]
  {
    var n := UtfLen(s[0]);
    var c, r := Character(s), EscText(s[n..]);
    assert EscText(s) == c + r;
    if i < n {
      assert (c + r)[i] == c[i];
    } else {
      assert (c + r)[i] == r[i - n];
    }
  }

  lemma {:induction false} EscapedFromBroken(s: seq<byte>, i: nat)
    requires FirstBroken(s) <= i < |s|
    ensures EscText(s)[i] == EscByte(s[i])
    decreases |s|
  {
    if !Broken(s) {
      var n := UtfLen(s[0]);
      EscapedFromBroken(s[n..], i - n);
      EscTextAt(s, i);
    }
  }

  /** From the first broken character on everything is printable ASCII: kept, or a dot or a question mark. */
  lemma {:induction false} PrintableFromBroken(s: seq<byte>, i: nat)
    requires 0 !in s && FirstBroken(s) <= i < |s|
    ensures Printable(EscText(s)[i])
    ensures EscText(s)[i] == if Printable(s[i]) then s[i] else if IsControl(s[i]) then DOT else QUESTION
  {
    assert s[i] in s;
    EscapedFromBroken(s, i);
  }

  /** Before it a byte changes only if it is a control character, and then to '?'. */
  lemma {:induction false} ChangesOnlyControls(s: seq<byte>, i: nat)
    requires i < FirstBroken(s)
    ensures EscText(s)[i] == s[i] || (IsControl(s[i]) && EscText(s)[i] == QUESTION)
    decreases |s|
  {
    var n := UtfLen(s[0]);
    if i >= n {
      ChangesOnlyControls(s[n..], i - n);
    }
    EscTextAt(s, i);
  }

  /** The bytes a character's lead skips over hold no control character. */
  predicate CleanTails(s: seq<byte>)
    decreases |s|
  {
    s == [] || Broken(s) ||
    ((forall k :: 1 <= k < UtfLen(s[0]) ==> !IsControl(s[k])) && CleanTails(s[UtfLen(s[0])..]))
  }

  ghost predicate Clean(t: seq<byte>) {
    forall i :: 0 <= i < |t| ==> !IsControl(t[i])
  }

  lemma {:induction false} CleanAppend(a: seq<byte>, b: seq<byte>)
    ensures Clean(a + b) <==> Clean(a) && Clean(b)
  {
    assert forall i :: 0 <= i < |a| ==> a[i] == (a + b)[i];
    assert forall i :: 0 <= i < |b| ==> b[i] == (a + b)[|a| + i];
  }

  /** Continuation bytes are not checked: controls are gone if and only if none hides behind a lead byte. */
  lemma {:induction false} NoControlLeftIff(s: seq<byte>)
    requires 0 !in s
    ensures Clean(EscText(s)) <==> CleanTails(s)
    decreases |s|
  {
    if s != [] {
      if Broken(s) {
        assert forall i :: 0 <= i < |s| ==> s[i] in s;
      } else {
        var n := UtfLen(s[0]);
        NoControlLeftIff(s[n..]);
        CleanAppend([Lead(s[0])] + s[1..n], EscText(s[n..]));
        CleanAppend([Lead(s[0])], s[1..n]);
        assert forall k :: 1 <= k < n ==> s[k] == s[1..n][k - 1];
      }
    }
  }

  /** A control character that survives. */
  lemma {:induction false} ControlSurvives()
    ensures EscText([0xC3, 0x07]) == [0xC3, 0x07]
  {
    assert UtfLen(0xC3) == 2;
    assert [0xC3, 0x07][1..2] == [0x07] && [0xC3, 0x07][2..] == [];
  }

  // ---------- well-formed UTF-8 ----------

  predicate InRange(b: byte, lo: byte, hi: byte) {
    lo <= b <= hi
  }

  /** One character, by the ABNF of section 4 of RFC 3629. */
  predicate IsCharacter(c: seq<byte>) {
    || (|c| == 1 && c[0] <= 0x7F)
    || (|c| == 2 && InRange(c[0], 0xC2, 0xDF) && InRange(c[1], 0x80, 0xBF))
    || (|c| == 3 && InRange(c[2], 0x80, 0xBF)
        && ((c[0] == 0xE0 && InRange(c[1], 0xA0, 0xBF)) || (InRange(c[0], 0xE1, 0xEC) && InRange(c[1], 0x80, 0xBF))
            || (c[0] == 0xED && InRange(c[1], 0x80, 0x9F)) || (InRange(c[0], 0xEE, 0xEF) && InRange(c[1], 0x80, 0xBF))))
    || (|c| == 4 && InRange(c[2], 0x80, 0xBF) && InRange(c[3], 0x80, 0xBF)
        && ((c[0] == 0xF0 && InRange(c[1], 0x90, 0xBF)) || (InRange(c[0], 0xF1, 0xF3) && InRange(c[1], 0x80, 0xBF))
            || (c[0] == 0xF4 && InRange(c[1], 0x80, 0x8F))))
  }

  /** The announced length is that of every character of the standard, and its continuation bytes are no controls. */
  lemma {:induction false} CharacterLength(c: seq<byte>)
    requires IsCharacter(c)
    ensures UtfLen(c[0]) == |c| && forall k :: 1 <= k < |c| ==> !IsControl(c[k])
  {
  }

  /** A text of whole characters. */
  ghost predicate WellFormed(s: seq<byte>)
    decreases |s|
  {
    s == [] || exists n :: 1 <= n <= 4 && n <= |s| && IsCharacter(s[..n]) && WellFormed(s[n..])
  }

  /** On well-formed text exactly the control characters change. */
  lemma {:induction false} WellFormedChanges(s: seq<byte>, i: nat)
    requires WellFormed(s) && i < |s|
    ensures EscText(s)[i] == if IsControl(s[i]) then QUESTION else s[i]
    decreases |s|
  {
    var n :| 1 <= n <= 4 && n <= |s| && IsCharacter(s[..n]) && WellFormed(s[n..]);
    CharacterLength(s[..n]);
    assert s[..n][0] == s[0];
    if i >= n {
      WellFormedChanges(s[n..], i - n);
    } else {
      assert s[..n][i] == s[i];
    }
    EscTextAt(s, i);
  }

  // ---------- the code ----------

  /** The buffer `b` with the bytes from `at` replaced by `t`. */
  function Overwritten(b: seq<byte>, at: nat, t: seq<byte>): (r: seq<byte>)
    requires at + |t| <= |b|
    ensures |r| == |b|
  {
    b[..at] + t + b[at + |t|..]
  }

  lemma {:induction false} Regroup(a: seq<byte>, b: seq<byte>, c: seq<byte>)
    ensures a + (b + c) == a + b + c
  {
  }

  /** The later of two overwritings counts where it covers the end `z` of the earlier one. */
  lemma {:induction false} OverwriteAgain(b: seq<byte>, at: nat, x: seq<byte>, z: seq<byte>, y: seq<byte>)
    requires |z| <= |y| && at + |x| + |y| <= |b|
    ensures Overwritten(Overwritten(b, at, x + z), at + |x|, y) == Overwritten(b, at, x + y)
  {
    var once := Overwritten(b, at, x + z);
    assert once[..at + |x|] == b[..at] + x;
    assert once[at + |x| + |y|..] == b[at + |x| + |y|..];
    Regroup(b[..at], x, y);
  }

  lemma {:induction false} OverwriteFront(b: seq<byte>, at: nat, x: seq<byte>, z: seq<byte>, y: seq<byte>)
    requires |x| == |y| && at + |x| + |z| <= |b|
    ensures Overwritten(Overwritten(b, at, x + z), at, y) == Overwritten(b, at, y + z)
  {
    var once := Overwritten(b, at, x + z);
    assert once[..at] == b[..at];
    assert once[at + |x|..] == z + b[at + |x| + |z|..];
    Regroup(b[..at] + y, z, b[at + |x| + |z|..]);
    Regroup(b[..at], y, z);
  }

  lemma {:induction false} SubSlice(b: seq<byte>, at: nat, len: nat, i: nat, j: nat)
    requires i <= j <= len && at + len <= |b|
    ensures b[at..at + len][i..j] == b[at + i..at + j]
  {
    var l, r := b[at..at + len][i..j], b[at + i..at + j];
    forall k | 0 <= k < j - i ensures l[k] == r[k] {
      assert l[k] == b[at..at + len][i + k];
    }
  }

  /** esc_all from position `at` to the NUL at `end`. */
  method EscAll(dst: array<byte>, at: nat, end: nat)
    requires at <= end < dst.Length && dst[end] == 0 && forall k :: at <= k < end ==> dst[k] != 0
    modifies dst
    ensures dst[..] == Overwritten(old(dst[..]), at, EscAllText(old(dst[at..end])))
  {
    var p := at;
    while dst[p] != 0
      invariant at <= p <= end
      invariant forall k :: at <= k < p ==> dst[k] == EscByte(old(dst[k]))
      invariant forall k :: 0 <= k < dst.Length && !(at <= k < p) ==> dst[k] == old(dst[k])
      decreases end - p
    {
      dst[p] := EscByte(dst[p]);
      p := p + 1;
    }
  }

  lemma {:induction false} OverwriteOne(b: seq<byte>, at: nat, t: seq<byte>, n: nat, lead: byte)
    requires at + |t| + n <= |b| && n >= 1
    ensures var p := at + |t|;
      Overwritten(b, at, t)[p := lead] == Overwritten(b, at, t + [lead] + b[p + 1..p + n])
  {
  }

  /** esc_ctl under way: `done` has been written over the first bytes of the text `s` at `at`. */
  ghost predicate Under(now: seq<byte>, b: seq<byte>, at: nat, s: seq<byte>, done: seq<byte>) {
    && at + |s| <= |b| && |done| <= |s| && s == b[at..at + |s|]
    && now == Overwritten(b, at, done)
    && EscText(s) == done + EscText(s[|done|..])
  }

  lemma {:induction false} TextNext(goal: seq<byte>, s: seq<byte>, done: seq<byte>, t: seq<byte>)
    requires |done| < |s| && t == s[|done|..] && !Broken(t) && goal == done + EscText(t)
    ensures var more := done + Character(t); |more| <= |s| && goal == more + EscText(s[|more|..])
  {
    var n := UtfLen(t[0]);
    EscTextCons(t);
    SliceOfSlice(s, |done|, n);
    Regroup(done, Character(t), EscText(t[n..]));
  }

  lemma {:induction false} EscTextCons(t: seq<byte>)
    requires t != [] && !Broken(t)
    ensures EscText(t) == Character(t) + EscText(t[UtfLen(t[0])..])
  {
  }

  lemma {:induction false} SliceOfSlice(s: seq<byte>, i: nat, n: nat)
    requires i + n <= |s|
    ensures s[i..][n..] == s[i + n..]
  {
  }

  lemma {:induction false} BufferNext(b: seq<byte>, at: nat, done: seq<byte>, end: nat, t: seq<byte>)
    requires at + |done| < end <= |b| && t == b[at + |done|..end] && !Broken(t)
    ensures Overwritten(b, at, done)[at + |done| := Lead(t[0])] == Overwritten(b, at, done + Character(t))
  {
    var i := |done|;
    var n := UtfLen(t[0]);
    OverwriteOne(b, at, done, n, Lead(t[0]));
    SubSlice(b, at + i, |t|, 1, n);
    Regroup(done, [Lead(t[0])], t[1..n]);
  }

  lemma {:induction false} UnderNext(now: seq<byte>, b: seq<byte>, at: nat, s: seq<byte>, done: seq<byte>, t: seq<byte>)
    requires Under(now, b, at, s, done) && |done| < |s| && t == s[|done|..] && !Broken(t)
    ensures Under(now[at + |done| := Lead(t[0])], b, at, s, done + Character(t))
  {
    TextNext(EscText(s), s, done, t);
    SubSlice(b, at, |s|, |done|, |s|);
    BufferNext(b, at, done, at + |s|, t);
  }

  lemma {:induction false} UnderReads(now: seq<byte>, b: seq<byte>, at: nat, s: seq<byte>, done: seq<byte>)
    requires Under(now, b, at, s, done) && |done| < |s|
    ensures |now| == |b| && now[at + |done|] == s[|done|] == s[|done|..][0]
  {
  }

  /** esc_ctl on the `len` bytes from `at`, which a NUL follows. */
  method EscCtl(dst: array<byte>, at: nat, len: nat)
    requires at + len < dst.Length && dst[at + len] == 0 && forall k :: at <= k < at + len ==> dst[k] != 0
    modifies dst
    ensures dst[..] == Overwritten(old(dst[..]), at, EscText(old(dst[at..at + len])))
  {
    ghost var b, s := dst[..], dst[at..at + len];
    ghost var done: seq<byte> := [];
    assert s[0..] == s;
    var i := 0;
    while i < len
      invariant 0 <= i == |done| <= len && Under(dst[..], b, at, s, done)
    {
      UnderReads(dst[..], b, at, s, done);
      var n := UtfLen(dst[at + i]);
      if n < 0 || i + n > len {
        EscRest(dst, at, i, len, b, done);
        return;
      }
      UnderNext(dst[..], b, at, s, done, s[i..]);
      PutByte(dst, at + i, Lead(dst[at + i]));
      done := done + Character(s[i..]);
      i := i + n;
    }
  }

  method PutByte(dst: array<byte>, p: nat, v: byte)
    requires p < dst.Length
    modifies dst
    ensures dst[..] == old(dst[..])[p := v]
  {
    dst[p] := v;
  }

  /** The way out of esc_ctl: what is left is no text, all of it is escaped. */
  method EscRest(dst: array<byte>, at: nat, i: nat, len: nat, ghost b: seq<byte>, ghost done: seq<byte>)
    requires i == |done| <= len && at + len < dst.Length == |b| && b[at + len] == 0
    requires forall k :: at <= k < at + len ==> b[k] != 0
    requires dst[..] == Overwritten(b, at, done)
    modifies dst
    ensures dst[..] == Overwritten(b, at, done + EscAllText(b[at + i..at + len]))
  {
    ghost var now, rest := dst[..], EscAllText(b[at + i..at + len]);
    assert forall k :: at + i <= k < |b| ==> now[k] == b[k];
    assert now[at + i..at + len] == b[at + i..at + len];
    EscAll(dst, at + i, at + len);
    assert done + [] == done;
    OverwriteAgain(b, at, done, [], rest);
  }

  function Taken(src: seq<byte>, bufsize: int): (n: nat)
    ensures n <= |src| && (bufsize > 0 ==> n < bufsize)
  {
    if bufsize <= 0 || bufsize >= INT_MAX then 0 else if |src| < bufsize then |src| else bufsize - 1
  }

  /** The escaped text, by whether the locale says UTF-8. */
  function Escaped(utf8: bool, s: seq<byte>): (t: seq<byte>)
    ensures |t| == |s|
  {
    if utf8 then EscText(s) else EscAllText(s)
  }

  method Put(dst: array<byte>, at: nat, t: seq<byte>)
    requires at + |t| <= dst.Length
    modifies dst
    ensures dst[..] == Overwritten(old(dst[..]), at, t)
  {
    forall k | 0 <= k < |t| {
      dst[at + k] := t[k];
    }
  }

  /** Escapes the text of `n` bytes at `at`, which a NUL follows. */
  method EscapeText(dst: array<byte>, at: nat, ghost b: seq<byte>, ghost s: seq<byte>, n: nat, utf8: bool)
    requires 0 !in s && n == |s| && at + n < dst.Length == |b| && dst[..] == Overwritten(b, at, s + [0])
    modifies dst
    ensures dst[..] == Overwritten(b, at, Escaped(utf8, s) + [0])
  {
    TextInPlace(dst[..], b, at, s);
    EscapeInPlace(dst, at, n, utf8);
    OverwriteFront(b, at, s, [0], Escaped(utf8, s));
  }

  /** The text stands in the buffer, with its NUL and no other. */
  lemma {:induction false} TextInPlace(now: seq<byte>, b: seq<byte>, at: nat, s: seq<byte>)
    requires 0 !in s && at + |s| < |b| && now == Overwritten(b, at, s + [0])
    ensures now[at..at + |s|] == s && now[at + |s|] == 0 && forall k :: at <= k < at + |s| ==> now[k] != 0
  {
    forall k | at <= k < at + |s| ensures now[k] == s[k - at] && now[k] != 0 {
      assert now[k] == (s + [0])[k - at] == s[k - at];
      assert s[k - at] in s;
    }
    assert now[at + |s|] == (s + [0])[|s|];
  }

  method EscapeInPlace(dst: array<byte>, at: nat, n: nat, utf8: bool)
    requires at + n < dst.Length && dst[at + n] == 0 && forall k :: at <= k < at + n ==> dst[k] != 0
    modifies dst
    ensures dst[..] == Overwritten(old(dst[..]), at, Escaped(utf8, old(dst[at..at + n])))
  {
    if utf8 {
      EscCtl(dst, at, n);
    } else {
      EscAll(dst, at, at + n);
    }
  }

  /** escape_str into the `bufsize` bytes of `dst` from `at`; `src` is a C string. */
  method EscapeStr(dst: array<byte>, at: nat, src: seq<byte>, bufsize: int, utf8: bool) returns (n: nat)
    requires 0 !in src && at + (if bufsize < 0 then 0 else bufsize) <= dst.Length
    modifies dst
    ensures n == Taken(src, bufsize)
    ensures dst[..] == if bufsize <= 0 then old(dst[..])
                       else Overwritten(old(dst[..]), at, Escaped(utf8, src[..n]) + [0])
  {
    if bufsize <= 0 {
      return 0;
    }
    ghost var b := dst[..];
    Put(dst, at, [0]);
    if bufsize >= INT_MAX {
      assert Escaped(utf8, src[..0]) + [0] == [0];
      return 0;
    }
    n := if |src| >= bufsize then bufsize - 1 else |src|;
    Put(dst, at, src[..n] + [0]);
    assert [] + [0 as byte] == [0] && [] + (src[..n] + [0]) == src[..n] + [0];
    OverwriteAgain(b, at, [], [0], src[..n] + [0]);
    EscapeText(dst, at, b, src[..n], n, utf8);
  }

  // "[", "]" and " <defunct>"
  const OPEN: byte := 91
  const CLOSE: byte := 93
  const DEFUNCT: seq<byte> := [32, 60, 100, 101, 102, 117, 110, 99, 116, 62]

  function Wanted(wanted: bool, t: seq<byte>): (r: seq<byte>)
    ensures |r| == if wanted then |t| else 0
  {
    if wanted then t else []
  }

  function Front(brackets: bool): seq<byte>
  {
    if brackets then [OPEN] else []
  }

  function Tail(brackets: bool, defunct: bool): (t: seq<byte>)
    ensures |t| == (if brackets then 1 else 0) + (if defunct then 10 else 0)
  {
    Wanted(brackets, [CLOSE]) + Wanted(defunct, DEFUNCT)
  }

  /** What escape_command leaves in the buffer, before the NUL. */
  function CommandText(cmd: seq<byte>, bytes: int, brackets: bool, defunct: bool, utf8: bool): seq<byte>
  {
    var overhead := (if brackets then 2 else 0) + (if defunct then 10 else 0);
    if overhead + 1 >= bytes then []
    else Front(brackets) + Escaped(utf8, cmd[..Taken(cmd, bytes - overhead)]) + Tail(brackets, defunct)
  }

  /** It fits with its NUL, and keeps as much of the command as the decorations leave room for. */
  lemma {:induction false} CommandFits(cmd: seq<byte>, bytes: int, brackets: bool, defunct: bool, utf8: bool)
    ensures var t := CommandText(cmd, bytes, brackets, defunct, utf8);
      && (bytes >= 1 ==> |t| + 1 <= bytes)
      && (t != [] && bytes < INT_MAX ==>
            |t| + 1 == bytes || |t| == |cmd| + (if brackets then 2 else 0) + (if defunct then 10 else 0))
  {
  }

  /** escape_command; `zombie` is the state the defunct mark is kept for. */
  method EscapeCommand(outbuf: array<byte>, cmd: seq<byte>, bytes: int, brackets: bool, markDefunct: bool,
                       zombie: bool, utf8: bool)
    returns (end: nat)
    requires 0 !in cmd && outbuf.Length >= 1 && outbuf.Length >= bytes
    modifies outbuf
    ensures var t := CommandText(cmd, bytes, brackets, markDefunct && zombie, utf8);
      end == |t| < outbuf.Length && outbuf[..] == Overwritten(old(outbuf[..]), 0, t + [0])
  {
    var defunct := markDefunct && zombie;
    var overhead := (if brackets then 2 else 0) + (if defunct then 10 else 0);
    if overhead + 1 >= bytes {
      Put(outbuf, 0, [0]);
      assert [] + [0 as byte] == [0];
      return 0;
    }
    end := PutName(outbuf, cmd, bytes - overhead, brackets, utf8);
    PutTail(outbuf, end, brackets, defunct);
    ghost var t := Front(brackets) + Escaped(utf8, cmd[..Taken(cmd, bytes - overhead)]);
    TailBehind(old(outbuf[..]), t, Tail(brackets, defunct));
    end := end + (if brackets then 1 else 0) + (if defunct then 10 else 0);
  }

  /** What is written behind a text, over its NUL, extends it. */
  lemma {:induction false} TailBehind(b: seq<byte>, t: seq<byte>, tail: seq<byte>)
    requires |t| + |tail| < |b|
    ensures Overwritten(Overwritten(b, 0, t + [0]), |t|, tail + [0]) == Overwritten(b, 0, t + tail + [0])
  {
    OverwriteAgain(b, 0, t, [0], tail + [0]);
    Regroup(t, tail, [0]);
  }

  /** The bracket and the escaped command name. */
  method PutName(outbuf: array<byte>, cmd: seq<byte>, room: int, brackets: bool, utf8: bool) returns (end: nat)
    requires 0 !in cmd && room > 0 && (if brackets then 1 else 0) + room <= outbuf.Length
    modifies outbuf
    ensures var t := Front(brackets) + Escaped(utf8, cmd[..Taken(cmd, room)]);
      end == |t| < outbuf.Length && outbuf[..] == Overwritten(old(outbuf[..]), 0, t + [0])
  {
    end := 0;
    ghost var b, front, name := outbuf[..], Front(brackets), Escaped(utf8, cmd[..Taken(cmd, room)]);
    if brackets {
      outbuf[end] := OPEN;
      end := end + 1;
    }
    assert outbuf[..] == Overwritten(b, 0, front) && front + [] == front;
    var n := EscapeStr(outbuf, end, cmd, room, utf8);
    OverwriteAgain(b, 0, front, [], name + [0]);
    Regroup(front, name, [0]);
    end := end + n;
  }

  /** The closing bracket, the defunct mark and the NUL. */
  method PutTail(outbuf: array<byte>, at: nat, brackets: bool, defunct: bool)
    requires at + (if brackets then 1 else 0) + (if defunct then 10 else 0) < outbuf.Length
    modifies outbuf
    ensures outbuf[..] == Overwritten(old(outbuf[..]), at, Tail(brackets, defunct) + [0])
  {
    PutBehind(outbuf, at, Wanted(brackets, [CLOSE]), Wanted(defunct, DEFUNCT));
  }

  method PutBehind(outbuf: array<byte>, at: nat, x: seq<byte>, y: seq<byte>)
    requires at + |x| + |y| < outbuf.Length
    modifies outbuf
    ensures outbuf[..] == Overwritten(old(outbuf[..]), at, x + y + [0])
  {
    ThreeBehind(outbuf[..], at, x, y, [0]);
    Put(outbuf, at, x);
    Put(outbuf, at + |x|, y);
    Put(outbuf, at + |x| + |y|, [0]);
  }

  /** Writings one behind the other are one. */
  lemma {:induction false} ThreeBehind(b: seq<byte>, at: nat, x: seq<byte>, y: seq<byte>, z: seq<byte>)
    requires at + |x| + |y| + |z| <= |b|
    ensures Overwritten(Overwritten(Overwritten(b, at, x), at + |x|, y), at + |x| + |y|, z)
         == Overwritten(b, at, x + y + z)
  {
    Behind(b, at, x, y);
    Behind(b, at, x + y, z);
  }

  lemma {:induction false} Behind(b: seq<byte>, at: nat, x: seq<byte>, y: seq<byte>)
    requires at + |x| + |y| <= |b|
    ensures Overwritten(Overwritten(b, at, x), at + |x|, y) == Overwritten(b, at, x + y)
  {
    assert x + [] == x;
    OverwriteAgain(b, at, x, [], y);
  }
}
