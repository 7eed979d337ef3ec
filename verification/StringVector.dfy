/** Reading a /proc file of NUL-separated strings into one buffer with a table of pointers behind it. */
module StringVector {
  import opened Lines

  const INT_MAX := 0x7FFF_FFFF
  const PTR_SIZE: nat := 8   // sizeof(char *)
  const BLOCK: nat := 2047  // bytes per read
  const READ_LIMIT: nat := INT_MAX / (64 + 8) * 64

  // ---------- the reference ----------

  predicate Term(b: byte) {
    b == 0 || b == NEWLINE
  }

  /** Where the string that reaches up to `n` began: just past the terminator before, or at the start. */
  function Start(d: seq<byte>, n: nat): (q: nat)
    requires n <= |d|
    ensures q <= n
  {
    if n == 0 || Term(d[n - 1]) then n else Start(d, n - 1)
  }

  /** The strings that NUL or newline end; what follows the last of them is not one. */
  function Strings(d: seq<byte>): seq<seq<byte>>
    decreases |d|
  {
    if d == [] then []
    else
      var n := |d| - 1;
      if Term(d[n]) then Strings(d[..Start(d, n)]) + [d[Start(d, n)..n]] else Strings(d[..n])
  }

  predicate Ended(d: seq<byte>) {
    d == [] || Term(d[|d| - 1])
  }

  /** How much of a file is kept: all of it, unless an int could overflow. */
  function Kept(content: seq<byte>): (n: nat)
    ensures n <= |content|
  {
    if |content| < READ_LIMIT then |content| else BLOCK * ((READ_LIMIT - 1) / BLOCK)
  }

  /** The bytes that are split: what was kept, and a NUL if it does not end in one. */
  function Data(content: seq<byte>): seq<byte>
  {
    var d := content[..Kept(content)];
    if d != [] && d[|d| - 1] != 0 then d + [0] else d
  }

  /** The file itself, ended in a NUL. */
  function Whole(content: seq<byte>): seq<byte>
  {
    if content != [] && content[|content| - 1] != 0 then content + [0] else content
  }

  // ---------- facts about splitting ----------

  lemma {:induction false} StartIs(d: seq<byte>, q: nat, n: nat)
    requires q <= n <= |d| && Ended(d[..q]) && forall k :: q <= k < n ==> !Term(d[k])
    ensures Start(d, n) == q
    decreases n
  {
    if q < n {
      StartIs(d, q, n - 1);
    } else if n > 0 {
      assert d[..q][n - 1] == d[n - 1];
    }
  }

  /** A terminator at `p` ends the string that began at `strp`. */
  lemma {:induction false} NextString(d: seq<byte>, strp: nat, p: nat)
    requires strp <= p < |d| && Ended(d[..strp]) && Term(d[p]) && forall k :: strp <= k < p ==> !Term(d[k])
    ensures Strings(d[..p + 1]) == Strings(d[..strp]) + [d[strp..p]]
  {
    var e := d[..p + 1];
    assert e[..strp] == d[..strp] && e[strp..p] == d[strp..p];
    StartIs(e, strp, p);
  }

  /** Terminators among the first `n` bytes. */
  function Terms(d: seq<byte>, n: nat): nat
    requires n <= |d|
  {
    if n == 0 then 0 else Terms(d, n - 1) + if Term(d[n - 1]) then 1 else 0
  }

  /** Both passes of the code count the same: a string for each terminator. */
  lemma {:induction false} StringsCounted(d: seq<byte>, strp: nat, n: nat)
    requires strp <= n <= |d| && Ended(d[..strp]) && (forall k :: strp <= k < n ==> !Term(d[k]))
    ensures Terms(d, n) == |Strings(d[..strp])|
    decreases n
  {
    if n > strp {
      StringsCounted(d, strp, n - 1);
    } else if n > 0 {
      var q := LastStart(d, n - 1);
      StringsCounted(d, q, n - 1);
      CountedNext(d, q, n - 1);
    } else {
      assert d[..0] == [];
    }
  }

  lemma {:induction false} CountedNext(d: seq<byte>, q: nat, n: nat)
    requires q <= n < |d| && Ended(d[..q]) && Ended(d[..n + 1]) && (forall k :: q <= k < n ==> !Term(d[k]))
    ensures Term(d[n]) && |Strings(d[..n + 1])| == |Strings(d[..q])| + 1
  {
    assert d[..n + 1][n] == d[n];
    NextString(d, q, n);
  }

  lemma {:induction false} LastStart(d: seq<byte>, n: nat) returns (q: nat)
    requires n <= |d|
    ensures q <= n && Ended(d[..q]) && forall k :: q <= k < n ==> !Term(d[k])
    decreases n
  {
    if n == 0 {
      q := 0;
    } else if Term(d[n - 1]) {
      q := n;
    } else {
      q := LastStart(d, n - 1);
    }
  }

  // ---------- reading ----------

  /** The reads needed for a file are numbered up to this one; a failure of a later one does not matter. */
  function LastRead(content: seq<byte>): nat
  {
    Kept(content) / BLOCK
  }

  predicate ReadFails(content: seq<byte>, failing: Option<nat>) {
    failing.Some? && failing.value <= LastRead(content)
  }

  /** The read loop, in which the read numbered `failing` fails; None: nothing was read, or a read failed. */
  method ReadWhole(content: seq<byte>, failing: Option<nat>) returns (data: Option<seq<byte>>)
    ensures data == if content == [] || ReadFails(content, failing) then None else Some(Data(content))
  {
    var rbuf: seq<byte> := [];
    var blocks := 0;
    while true
      invariant |rbuf| <= |content| && rbuf == content[..|rbuf|] && |rbuf| == BLOCK * blocks && |rbuf| < READ_LIMIT
      invariant failing.Some? ==> blocks <= failing.value
      decreases |content| - |rbuf|
    {
      if failing == Some(blocks) {
        ReadNeeded(content, blocks);
        return None;
      }
      var tot := |rbuf|;
      var n := if |content| - tot < BLOCK then |content| - tot else BLOCK;
      var buf := content[tot..tot + n];
      var endOfFile := n < BLOCK;
      if n == 0 && tot == 0 {
        return None;
      }
      if tot >= READ_LIMIT - n {
        endOfFile, n, buf := true, 0, [];
      }
      if endOfFile {
        EndOfRead(content, tot, n, blocks);
        rbuf := LastBlock(content, rbuf, buf);
        return Some(rbuf);
      }
      rbuf := rbuf + buf;
      blocks := blocks + 1;
    }
  }

  /** The end of the read loop: the last bytes read are appended, with a NUL where the file has none. */
  method LastBlock(ghost content: seq<byte>, rbuf: seq<byte>, last: seq<byte>) returns (data: seq<byte>)
    requires |rbuf| + |last| == Kept(content) > 0 && rbuf + last == content[..Kept(content)]
    ensures data == Data(content)
  {
    var n, tot, buf := |last|, |rbuf|, last;
    assert (rbuf + last)[tot + n - 1] == content[tot + n - 1];
    if (n > 0 && buf[n - 1] != 0) || (n == 0 && rbuf[tot - 1] != 0) {
      buf := buf + [0];
    }
    DataInTwo(content, rbuf, buf, n);
    data := rbuf + buf;
    data := data[|data| - 1 := 0];
  }

  lemma {:induction false} ReadNeeded(content: seq<byte>, blocks: nat)
    requires BLOCK * blocks <= |content| && BLOCK * blocks < READ_LIMIT
    ensures blocks <= LastRead(content)
  {
  }

  /** The last bytes read, with the NUL appended where the file has none, complete the data. */
  lemma {:induction false} DataInTwo(content: seq<byte>, rbuf: seq<byte>, buf: seq<byte>, n: nat)
    requires |rbuf| + n == Kept(content) > 0 && rbuf == content[..|rbuf|]
    requires var last := content[|rbuf| + n - 1];
      buf == content[|rbuf|..|rbuf| + n] + if last != 0 then [0] else []
    ensures rbuf + buf == Data(content) && (rbuf + buf)[|rbuf + buf| - 1 := 0] == Data(content)
  {
    var d := content[..Kept(content)];
    assert d == rbuf + content[|rbuf|..|rbuf| + n];
    assert d[|d| - 1] == content[|rbuf| + n - 1];
    var whole := rbuf + buf;
    assert whole == Data(content) && whole[|whole| - 1] == 0;
    assert whole[|whole| - 1 := 0] == whole;
  }

  lemma {:induction false} EndOfRead(content: seq<byte>, tot: nat, n: nat, blocks: nat)
    requires tot + n <= |content| && tot == BLOCK * blocks && tot < READ_LIMIT && 0 < tot + n
    requires || (n == |content| - tot && n < BLOCK && tot < READ_LIMIT - n)
             || (n == 0 && tot >= READ_LIMIT - (if |content| - tot < BLOCK then |content| - tot else BLOCK))
    ensures Kept(content) == tot + n && LastRead(content) == blocks
  {
    if |content| >= READ_LIMIT {
      LastFullBlock(blocks);
    }
  }

  lemma {:induction false} LastFullBlock(k: nat)
    requires READ_LIMIT - BLOCK <= k * BLOCK < READ_LIMIT
    ensures (READ_LIMIT - 1) / BLOCK == k
  {
  }

  // ---------- the two passes ----------

  predicate Aligned(tot: nat, align: int) {
    0 <= align < PTR_SIZE && (tot + align) % PTR_SIZE == 0
  }

  function Alignment(tot: nat): (align: nat)
    ensures tot >= 1 ==> Aligned(tot, align)
  {
    (PTR_SIZE - 1) - (tot + PTR_SIZE - 1) % PTR_SIZE
  }

  /** How many pointers the overflow guard of the counting pass lets through, for data of `tot` bytes. */
  function Room(tot: nat): nat
  {
    var limit := INT_MAX - (tot + PTR_SIZE + Alignment(tot));
    if limit < 1 then 0 else (limit - 1) / PTR_SIZE
  }

  /** The guard never strikes. */
  predicate Fits(d: seq<byte>) {
    Terms(d, |d|) <= Room(|d|)
  }

  /** How many strings are listed. */
  function Listed(d: seq<byte>): nat
  {
    if Fits(d) then Terms(d, |d|) else Room(|d|)
  }

  /** A newline counts as the end of a string and becomes a NUL. */
  function Nulled(b: byte): byte
  {
    if b == NEWLINE then 0 else b
  }

  ghost predicate NulledFrom(mem: seq<byte>, d: seq<byte>) {
    |mem| == |d| && forall k :: 0 <= k < |d| ==> mem[k] == Nulled(d[k])
  }

  /** The strings laid out one after the other, each with its NUL. */
  function Join(strings: seq<seq<byte>>): seq<byte>
  {
    if strings == [] then [] else Join(strings[..|strings| - 1]) + (strings[|strings| - 1] + [0])
  }

  /** One string more, laid out behind what is there. */
  lemma {:induction false} JoinOneMore(before: seq<byte>, d: seq<byte>, q: nat, n: nat)
    requires q <= n == |d| - 1 && Term(d[n]) && (forall k :: q <= k < n ==> !Term(d[k]))
    requires NulledFrom(before, d[..q])
    ensures NulledFrom(before + (d[q..n] + [0]), d)
  {
    var s := d[q..n];
    var all := before + (s + [0]);
    forall k | 0 <= k < |d| ensures all[k] == Nulled(d[k]) {
      if k < q {
        assert all[k] == before[k] && d[..q][k] == d[k];
      } else if k < n {
        assert all[k] == s[k - q] == d[k];
      }
    }
  }

  lemma {:induction false} JoinSnoc(strings: seq<seq<byte>>, s: seq<byte>)
    ensures Join(strings + [s]) == Join(strings) + (s + [0])
  {
    assert (strings + [s])[..|strings|] == strings;
  }

  /** The last string and the ones before it. */
  lemma {:induction false} LastString(d: seq<byte>) returns (q: nat)
    requires Ended(d) && d != []
    ensures var n := |d| - 1;
      q <= n && Ended(d[..q]) && (forall k :: q <= k < n ==> !Term(d[k])) && Strings(d) == Strings(d[..q]) + [d[q..n]]
  {
    q := LastStart(d, |d| - 1);
    StartIs(d, q, |d| - 1);
  }

  /** Splitting loses nothing but the difference between newline and NUL. */
  lemma {:induction false} StringsJoin(d: seq<byte>)
    requires Ended(d)
    ensures NulledFrom(Join(Strings(d)), d)
    decreases |d|
  {
    if d != [] {
      var q := LastString(d);
      StringsJoin(d[..q]);
      JoinNext(Strings(d[..q]), d, q, Strings(d));
    }
  }

  lemma {:induction false} JoinNext(strings: seq<seq<byte>>, d: seq<byte>, q: nat, all: seq<seq<byte>>)
    requires q < |d| && Term(d[|d| - 1]) && (forall k :: q <= k < |d| - 1 ==> !Term(d[k]))
    requires NulledFrom(Join(strings), d[..q]) && all == strings + [d[q..|d| - 1]]
    ensures NulledFrom(Join(all), d)
  {
    JoinSnoc(strings, d[q..|d| - 1]);
    JoinOneMore(Join(strings), d, q, |d| - 1);
  }

  lemma {:induction false} TermsMonotone(d: seq<byte>, m: nat, n: nat)
    requires m <= n <= |d|
    ensures Terms(d, m) <= Terms(d, n)
    decreases n
  {
    if m < n {
      TermsMonotone(d, m, n - 1);
    }
  }

  /** The guard: it strikes at a terminator exactly when there is no room for another pointer. */
  lemma {:induction false} GuardStrikes(tot: nat, n: nat)
    ensures PTR_SIZE * (1 + n) >= INT_MAX - (tot + PTR_SIZE + Alignment(tot)) <==> n >= Room(tot)
  {
  }

  /** Newlines before `p` have become NULs. */
  ghost predicate NulledTo(mem: seq<byte>, d: seq<byte>, p: nat) {
    && |mem| == |d| && p <= |d|
    && (forall k :: 0 <= k < p ==> mem[k] == Nulled(d[k])) && (forall k :: p <= k < |d| ==> mem[k] == d[k])
  }

  /** The counting pass stops at `p`: at the end, or at the terminator there is no room for. */
  ghost predicate Counted(d: seq<byte>, p: nat) {
    p <= |d| && Terms(d, p) == Listed(d) && (if Fits(d) then p == |d| else p < |d| && Term(d[p]))
  }

  lemma {:induction false} CountStops(d: seq<byte>, p: nat)
    requires p <= |d| && Terms(d, p) <= Room(|d|)
    requires p == |d| || (Term(d[p]) && Terms(d, p) >= Room(|d|))
    ensures Counted(d, p)
  {
    if p < |d| {
      TermsMonotone(d, p + 1, |d|);
    }
  }

  /** Counting pass: sizes the table and turns newlines into NULs, in place, as far as it gets. */
  method CountPointers(mem: array<byte>) returns (c: nat, ghost p: nat)
    modifies mem
    ensures Counted(old(mem[..]), p) && c == PTR_SIZE * (1 + Listed(old(mem[..])))
    ensures NulledTo(mem[..], old(mem[..]), p)
  {
    ghost var d := mem[..];
    var tot := mem.Length;
    var align := Alignment(tot);
    c := PTR_SIZE;
    var at := 0;
    while at < tot
      invariant 0 <= at <= tot && c == PTR_SIZE * (1 + Terms(d, at)) && Terms(d, at) <= Room(tot)
      invariant forall k :: 0 <= k < at ==> mem[k] == Nulled(d[k])
      invariant forall k :: at <= k < tot ==> mem[k] == d[k]
    {
      if mem[at] == 0 || mem[at] == NEWLINE {
        GuardStrikes(tot, Terms(d, at));
        if c >= INT_MAX - (tot + PTR_SIZE + align) {
          break;
        }
        c := c + PTR_SIZE;
      }
      if mem[at] == NEWLINE {
        mem[at] := 0;
      }
      at := at + 1;
    }
    p := at;
    CountStops(d, p);
  }

  /** The C string that begins at `p`. */
  ghost predicate StringAt(mem: seq<byte>, p: int, s: seq<byte>) {
    0 <= p && p + |s| < |mem| && mem[p..p + |s|] == s && mem[p + |s|] == 0 && 0 !in s
  }

  /** The first entries of the table point to the given strings. */
  ghost predicate PointsTo(table: seq<int>, mem: seq<byte>, strings: seq<seq<byte>>) {
    |strings| <= |table| && forall j :: 0 <= j < |strings| ==> StringAt(mem, table[j], strings[j])
  }

  lemma {:induction false} PointsToOneMore(table: seq<int>, mem: seq<byte>, strings: seq<seq<byte>>, p: int,
                                           s: seq<byte>)
    requires PointsTo(table, mem, strings) && |strings| < |table| && StringAt(mem, p, s)
    ensures PointsTo(table[|strings| := p], mem, strings + [s])
  {
  }

  /** The bytes between two terminators are the same before and after newlines became NULs. */
  lemma {:induction false} StringBetween(d: seq<byte>, mem: seq<byte>, end: nat, strp: nat, p: nat)
    requires NulledTo(mem, d, end)
    requires strp <= p < end && Term(d[p]) && forall k :: strp <= k < p ==> !Term(d[k])
    ensures StringAt(mem, strp, d[strp..p])
  {
    var s := d[strp..p];
    assert mem[strp..p] == s;
    assert forall k :: 0 <= k < |s| ==> s[k] == d[strp + k];
  }

  /** The strings of what is cut off behind a terminator come first. */
  lemma {:induction false} StringsPrefix(d: seq<byte>, strp: nat)
    requires strp <= |d| && Ended(d[..strp])
    ensures Strings(d[..strp]) <= Strings(d)
    decreases |d|
  {
    if strp == |d| {
      assert d[..strp] == d;
    } else {
      var n := |d| - 1;
      if Term(d[n]) {
        var q := LastStart(d, n);
        assert strp > 0 ==> d[..strp][strp - 1] == d[strp - 1];
        StartIs(d, q, n);
        StringsPrefix(d[..q], strp);
        assert d[..q][..strp] == d[..strp];
      } else {
        StringsPrefix(d[..n], strp);
        assert d[..n][..strp] == d[..strp];
      }
    }
  }

  /** Pointer pass: fills the table of `c` bytes and never writes outside; `end` is where the counting pass stopped. */
  method StorePointers(mem: array<byte>, c: nat, ghost d: seq<byte>, ghost end: nat) returns (table: array<int>, q: nat)
    requires NulledTo(mem[..], d, end) && c == PTR_SIZE * (1 + Terms(d, end))
    ensures fresh(table) && table.Length == q + 1 && table[q] == -1
    ensures q == Terms(d, end) && PointsTo(table[..], mem[..], FirstStrings(d, q))
  {
    table := new int[c / PTR_SIZE](_ => 0);
    q := 0;
    var left := c;
    var strp, p := 0, 0;
    PassBegins(d, mem[..], table[..], end);
    while p < mem.Length
      invariant 0 <= p <= mem.Length && left + q * PTR_SIZE == c
      invariant Pass(d, mem[..], table[..], end, strp, p, q)
    {
      if mem[p] == 0 {
        PassRoom(d, mem[..], table[..], end, strp, p, q);
        if left < 2 * PTR_SIZE {
          break;
        }
        PassString(d, mem[..], table[..], end, strp, p, q);
        left := left - PTR_SIZE;
        table[q] := strp;
        q := q + 1;
        strp := p + 1;
      } else {
        PassByte(d, mem[..], table[..], end, strp, p, q);
      }
      p := p + 1;
    }
    PassEnds(d, mem[..], table[..], end, strp, p, q);
    PointsToKept(table[..], mem[..], FirstStrings(d, q), -1);
    table[q] := -1;
  }

  function FirstStrings(d: seq<byte>, n: nat): seq<seq<byte>>
  {
    if n < |Strings(d)| then Strings(d)[..n] else Strings(d)
  }

  lemma {:induction false} PointsToKept(table: seq<int>, mem: seq<byte>, strings: seq<seq<byte>>, v: int)
    requires PointsTo(table, mem, strings) && |strings| < |table|
    ensures PointsTo(table[|strings| := v], mem, strings)
  {
  }

  /** The pointer pass at byte `p`. */
  ghost predicate Pass(d: seq<byte>, mem: seq<byte>, table: seq<int>, end: nat, strp: nat, p: nat, q: nat) {
    && NulledTo(mem, d, end) && |table| == 1 + Terms(d, end)
    && strp <= p <= |d| && strp <= end && Ended(d[..strp])
    && (forall k :: strp <= k < p && k < end ==> !Term(d[k]))
    && q == |Strings(d[..strp])| && PointsTo(table, mem, Strings(d[..strp]))
  }

  lemma {:induction false} PassBegins(d: seq<byte>, mem: seq<byte>, table: seq<int>, end: nat)
    requires NulledTo(mem, d, end) && |table| == 1 + Terms(d, end)
    ensures Pass(d, mem, table, end, 0, 0, 0)
  {
    assert d[..0] == [];
  }

  lemma {:induction false} PassByte(d: seq<byte>, mem: seq<byte>, table: seq<int>, end: nat, strp: nat, p: nat, q: nat)
    requires Pass(d, mem, table, end, strp, p, q) && p < |d| && mem[p] != 0
    ensures Pass(d, mem, table, end, strp, p + 1, q)
  {
  }

  /** At a NUL there is room for a pointer exactly where the counting pass has been. */
  lemma {:induction false} PassRoom(d: seq<byte>, mem: seq<byte>, table: seq<int>, end: nat, strp: nat, p: nat, q: nat)
    requires Pass(d, mem, table, end, strp, p, q) && p < |d| && mem[p] == 0
    ensures q <= Terms(d, end) && (q < Terms(d, end) <==> p < end)
  {
    if p < end {
      StringsCounted(d, strp, p);
      TermsMonotone(d, p + 1, end);
    } else {
      StringsCounted(d, strp, end);
    }
  }

  lemma {:induction false} PassString(d: seq<byte>, mem: seq<byte>, table: seq<int>, end: nat, strp: nat, p: nat,
                                      q: nat)
    requires Pass(d, mem, table, end, strp, p, q) && p < end && mem[p] == 0 && q < |table|
    ensures Pass(d, mem, table[q := strp], end, p + 1, p + 1, q + 1)
  {
    NextString(d, strp, p);
    StringBetween(d, mem, end, strp, p);
    PointsToOneMore(table, mem, Strings(d[..strp]), strp, d[strp..p]);
  }

  /** When the pass is over everything counted is listed. */
  lemma {:induction false} PassEnds(d: seq<byte>, mem: seq<byte>, table: seq<int>, end: nat, strp: nat, p: nat, q: nat)
    requires Pass(d, mem, table, end, strp, p, q) && end <= p
    ensures q == Terms(d, end) == |FirstStrings(d, q)| && q < |table| && PointsTo(table, mem, FirstStrings(d, q))
  {
    StringsCounted(d, strp, end);
    StringsPrefix(d, strp);
    assert FirstStrings(d, q) == Strings(d[..strp]);
  }

  lemma {:induction false} DataEnds(content: seq<byte>)
    requires content != []
    ensures Data(content) != [] && Ended(Data(content))
  {
  }

  // ---------- the data against the file ----------

  function ListedStrings(d: seq<byte>): seq<seq<byte>>
  {
    FirstStrings(d, Listed(d))
  }

  lemma {:induction false} WholeEnds(content: seq<byte>)
    ensures Ended(Whole(content))
  {
  }

  /** The first strings take no more room than all of them. */
  lemma {:induction false} JoinPrefix(strings: seq<seq<byte>>, n: nat)
    requires n <= |strings|
    ensures |Join(strings[..n])| <= |Join(strings)|
    decreases |strings|
  {
    if n == |strings| {
      assert strings[..n] == strings;
    } else {
      var init := strings[..|strings| - 1];
      JoinPrefix(init, n);
      assert init[..n] == strings[..n];
    }
  }

  /** The limit of the read loop: below it the data is the file, at it or above it is shorter. */
  lemma {:induction false} DataAgainstFile(content: seq<byte>)
    requires content != []
    ensures if |content| < READ_LIMIT then Data(content) == Whole(content) else |Data(content)| < |Whole(content)|
  {
    assert |content| < READ_LIMIT ==> content[..|content|] == content;
  }

  lemma {:induction false} StringsPerTerm(d: seq<byte>)
    requires Ended(d)
    ensures |Strings(d)| == Terms(d, |d|)
  {
    assert d[..|d|] == d;
    StringsCounted(d, |d|, |d|);
  }

  /** All strings of the data are listed exactly when the counting pass gets through. */
  lemma {:induction false} ListedAllIff(d: seq<byte>)
    requires Ended(d)
    ensures |ListedStrings(d)| == Listed(d) && (ListedStrings(d) == Strings(d) <==> Fits(d))
  {
    StringsPerTerm(d);
  }

  lemma {:induction false} ListedLength(d: seq<byte>)
    requires Ended(d)
    ensures |Join(ListedStrings(d))| <= |d|
  {
    StringsJoin(d);
    JoinPrefix(Strings(d), if Listed(d) < |Strings(d)| then Listed(d) else |Strings(d)|);
    assert Strings(d)[..|Strings(d)|] == Strings(d);
  }

  /** The exact condition: all strings of the file are listed if and only if neither overflow guard strikes. */
  lemma {:induction false} AllListedIff(content: seq<byte>)
    requires content != []
    ensures ListedStrings(Data(content)) == Strings(Whole(content)) <==> |content| < READ_LIMIT && Fits(Data(content))
  {
    DataAgainstFile(content);
    DataEnds(content);
    if |content| < READ_LIMIT {
      ListedAllIff(Data(content));
    } else {
      ListedLength(Data(content));
      WholeEnds(content);
      StringsJoin(Whole(content));
    }
  }

  /** Whatever the limit cuts, all strings of the data but the last are the first ones of the file. */
  lemma {:induction false} CutInLastString(content: seq<byte>)
    requires content != []
    ensures var strings := Strings(Data(content));
      strings != [] && strings[..|strings| - 1] <= Strings(Whole(content))
  {
    var d, k := Data(content), Kept(content);
    DataEnds(content);
    var n := |d| - 1;
    var q := LastStart(d, n);
    StartIs(d, q, n);
    assert Strings(d)[..|Strings(d)| - 1] == Strings(d[..q]);
    assert n <= k && d[..n] == content[..n];
    assert d[..q] == d[..n][..q] == content[..n][..q] == Whole(content)[..q];
    StringsPrefix(Whole(content), q);
  }

  lemma {:induction false} NoTerms(d: seq<byte>, n: nat)
    requires n <= |d| && forall k :: 0 <= k < n ==> !Term(d[k])
    ensures Terms(d, n) == 0
  {
    if n > 0 {
      NoTerms(d, n - 1);
    }
  }

  /** A file that the read loop cuts: one string, of which the guard of the counting pass sees nothing wrong. */
  lemma {:induction false} CutString() returns (content: seq<byte>)
    ensures |content| == READ_LIMIT && (forall k :: 0 <= k < |content| ==> content[k] == 1)
    ensures Fits(Data(content)) && ListedStrings(Data(content)) != Strings(Whole(content))
  {
    content := seq(READ_LIMIT, _ => 1 as byte);
    CutOf(content);
  }

  lemma {:induction false} CutOf(content: seq<byte>)
    requires |content| == READ_LIMIT && forall k :: 0 <= k < |content| ==> content[k] == 1
    ensures Fits(Data(content)) && ListedStrings(Data(content)) != Strings(Whole(content))
  {
    AllListedIff(content);
    OnesCut(content, Kept(content));
    OneTerm(Data(content));
  }

  lemma {:induction false} OnesCut(content: seq<byte>, n: nat)
    requires 0 < n == Kept(content) < |content| <= READ_LIMIT && forall k :: 0 <= k < |content| ==> content[k] == 1
    ensures var d := Data(content);
      0 < |d| <= READ_LIMIT && Term(d[|d| - 1]) && forall k :: 0 <= k < |d| - 1 ==> !Term(d[k])
  {
    assert content[..n][n - 1] == 1;
    assert Data(content) == content[..n] + [0];
  }

  lemma {:induction false} OneTerm(d: seq<byte>)
    requires 0 < |d| <= READ_LIMIT && Term(d[|d| - 1]) && forall k :: 0 <= k < |d| - 1 ==> !Term(d[k])
    ensures Fits(d)
  {
    NoTerms(d, |d| - 1);
    assert Terms(d, |d|) == 1;
  }

  lemma {:induction false} AllTerms(d: seq<byte>, n: nat)
    requires n <= |d| && forall k :: 0 <= k < |d| ==> Term(d[k])
    ensures Terms(d, n) == n
  {
    if n > 0 {
      AllTerms(d, n - 1);
    }
  }

  /** A file for which the guard strikes: 240 million empty strings. */
  lemma {:induction false} TooManyStrings()
    ensures var content := seq(240_000_000, _ => 0 as byte); !Fits(Data(content)) && Listed(Data(content)) < |content|
  {
    var content := seq(240_000_000, _ => 0 as byte);
    assert Data(content) == content;
    AllTerms(content, |content|);
  }

  /**
   * file2strvec: the table starts aligned behind the data and ends in a NULL. It lists the first strings of the
   * data, in order, and exactly those of the file if and only if neither overflow guard strikes.
   */
  method File2Strvec(content: seq<byte>, failing: Option<nat>)
    returns (mem: array?<byte>, table: array?<int>, count: nat, align: nat)
    ensures mem == null <==> content == [] || ReadFails(content, failing)
    ensures mem != null ==>
      && table != null && mem.Length == |Data(content)| && Aligned(mem.Length, align)
      && table.Length == count + 1 && table[count] == -1
      && count == |ListedStrings(Data(content))| && PointsTo(table[..], mem[..], ListedStrings(Data(content)))
      && (ListedStrings(Data(content)) == Strings(Whole(content)) <==>
            |content| < READ_LIMIT && Fits(Data(content)))
  {
    mem, table, count, align := null, null, 0, 0;
    var data := ReadWhole(content, failing);
    if data == None {
      return;
    }
    var rbuf := data.value;
    var m := new byte[|rbuf|](i requires 0 <= i < |rbuf| => rbuf[i]);
    assert m[..] == rbuf;
    DataEnds(content);
    ListedAllIff(rbuf);
    AllListedIff(content);
    var c, end := CountPointers(m);
    var t;
    t, count := StorePointers(m, c, rbuf, end);
    mem, table, align := m, t, Alignment(|rbuf|);
  }
}
