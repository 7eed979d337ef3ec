/** Time-filtered copies of a .NET GC log: a binary search on byte offsets instead of a scan over lines. */
module DotnetGcLog {
  import opened Lines
  import opened LogFile

  /** Extraction of StopTime from a line; None is a missing or unparseable field. */
  type StopTime = seq<byte> -> Option<int>

  // ---------- the search as a function of the size snapshot ----------

  /** The first line start at or after `offset`, found from the byte before it; the end of `s` if there is none. */
  function Resync(s: seq<byte>, offset: nat): (p: nat)
    requires offset <= |s|
    ensures offset <= p <= |s|
  {
    if offset == 0 then 0 else offset - 1 + LineLen(s[offset - 1..])
  }

  function FirstLine(s: seq<byte>): (l: Option<seq<byte>>)
    ensures l.Some? ==> l.value != [] && l.value <= s
  {
    var l := s[..LineLen(s)];
    if l != [] && l[|l| - 1] == NEWLINE then Some(l) else None
  }

  /** What one probe tells the search: no complete line, an unparseable one, one that qualifies, one that is too old. */
  datatype Step = Miss | Bad | Qualified | TooOld(next: nat)

  function Probe(s: seq<byte>, stopTime: StopTime, after: int, offset: nat): Step
  {
    if offset >= |s| then Miss else
      var start := Resync(s, offset);
      match FirstLine(s[start..])
      case None => Miss
      case Some(line) =>
        match stopTime(line)
        case None => Bad
        case Some(t) => if t >= after then Qualified else TooOld(start + |line|)
  }

  function Prober(s: seq<byte>, stopTime: StopTime, after: int): (probe: nat -> Step)
    ensures Progress(probe)
  {
    (offset: nat) => Probe(s, stopTime, after, offset)
  }

  /** A line that is too old ends after the offset it was probed at. */
  ghost predicate Progress(probe: nat -> Step) {
    forall m :: probe(m).TooOld? ==> probe(m).next > m
  }

  /** The halving loop: `lo` jumps past an old line, possibly past `hi`; `hi` only ever moves to `mid`. */
  function Search(probe: nat -> Step, lo: nat, hi: nat): Result<nat>
    requires Progress(probe)
    decreases hi - lo
  {
    if lo >= hi then Ok(lo)
    else
      var mid := (lo + hi) / 2;
      match probe(mid)
      case Miss => Search(probe, lo, mid)
      case Qualified => Search(probe, lo, mid)
      case Bad => Err
      case TooOld(next) => Search(probe, next, hi)
  }

  /** What CopyAfter writes when the file is `s` at the moment its size is taken. */
  function Emitted(s: seq<byte>, eventsOffset: nat, header: seq<byte>, stopTime: StopTime,
                   after: int): Result<seq<byte>>
    requires eventsOffset <= |s|
  {
    match Search(Prober(s, stopTime, after), eventsOffset, |s|)
    case Err => Err
    case Ok(start) =>
      Ok(header + if start >= |s| then [] else s[start..CompleteEnd(s, start)])
  }

  // ---------- the reference: a filter over complete lines ----------

  function Qualifies(stopTime: StopTime, after: int): seq<byte> -> bool
  {
    line => stopTime(line).Some? && stopTime(line).value >= after
  }

  function Events(s: seq<byte>, eventsOffset: nat): seq<seq<byte>>
    requires eventsOffset <= |s|
  {
    CompleteLines(s[eventsOffset..])
  }

  /** No line that qualifies comes before one that does not. */
  ghost predicate Partitioned(ls: seq<seq<byte>>, q: seq<byte> -> bool) {
    forall i, j :: 0 <= i < j < |ls| && q(ls[i]) ==> q(ls[j])
  }

  ghost predicate AllParse(ls: seq<seq<byte>>, stopTime: StopTime) {
    forall l :: l in ls ==> stopTime(l).Some?
  }

  ghost predicate Nondecreasing(ls: seq<seq<byte>>, stopTime: StopTime)
    requires AllParse(ls, stopTime)
  {
    forall i, j :: 0 <= i < j < |ls| ==> stopTime(ls[i]).value <= stopTime(ls[j]).value
  }

  /** `p` is a line start of `s`. */
  predicate Boundary(s: seq<byte>, p: nat) {
    p <= |s| && (p == 0 || s[p - 1] == NEWLINE)
  }

  // ---------- one probe ----------

  lemma {:induction false} ResyncIsBoundary(s: seq<byte>, offset: nat)
    requires offset <= |s|
    ensures Boundary(s, Resync(s, offset)) || Resync(s, offset) == |s|
  {
    if offset > 0 {
      var tail := s[offset - 1..];
      LineLenSpec(tail);
      assert tail[LineLen(tail) - 1] == s[Resync(s, offset) - 1];
    }
  }

  lemma {:induction false} ResyncIsFirst(s: seq<byte>, offset: nat, p: nat)
    requires offset <= p && Boundary(s, p)
    ensures Resync(s, offset) <= p
  {
    if 0 < offset < p {
      var tail := s[offset - 1..];
      LineLenSpec(tail);
      assert tail[p - offset] == s[p - 1];
    } else if 0 < offset {
      assert s[offset - 1..][0] == NEWLINE;
    }
  }

  lemma {:induction false} NoFirstLine(t: seq<byte>)
    requires FirstLine(t).None?
    ensures CompleteLines(t) == []
  {
    LineLenSpec(t);
    LastBreakUnique(t, 0);
  }

  lemma {:induction false} FirstLineSplits(t: seq<byte>, line: seq<byte>)
    requires FirstLine(t) == Some(line)
    ensures IsLine(line)
    ensures CompleteLines(t) == [line] + CompleteLines(t[|line|..])
  {
    LineLenSpec(t);
    assert IsLine(line);
    SingleLine(line);
    assert t[0..|line|] == line && t[0..] == t;
    CutLines(t, 0, |line|);
  }

  lemma {:induction false} LineAfterCut(s: seq<byte>, e: nat, start: nat, line: seq<byte>)
    requires e <= start <= |s| && Terminated(s[e..start]) && IsLine(line) && line <= s[start..]
    ensures Boundary(s, start + |line|)
    ensures AllLines(s[e..start + |line|]) == AllLines(s[e..start]) + [line]
  {
    var next := start + |line|;
    assert s[e..next] == s[e..start] + line;
    AllLinesAppend(s[e..start], line);
    SingleLine(line);
    assert s[next - 1] == line[|line| - 1];
  }

  /** A probe whose line lies at `start` splits the events around that line. */
  lemma {:induction false} ProbeSplitsEvents(s: seq<byte>, e: nat, offset: nat, start: nat, line: seq<byte>)
    requires 0 < offset <= |s| && e <= start
    requires start == Resync(s, offset) && FirstLine(s[start..]) == Some(line)
    ensures Boundary(s, start + |line|)
    ensures CompleteLines(s[start..]) == [line] + CompleteLines(s[start + |line|..])
    ensures Events(s, e) == AllLines(s[e..start]) + CompleteLines(s[start..])
    ensures AllLines(s[e..start + |line|]) == AllLines(s[e..start]) + [line]
  {
    var next := start + |line|;
    FirstLineSplits(s[start..], line);
    assert s[start..][|line|..] == s[next..];
    ResyncIsBoundary(s, offset);
    CutLines(s, e, start);
    LineAfterCut(s, e, start, line);
  }

  // ---------- the search ----------

  /**
   * What the loop keeps, for any prober: if `low` holds of every value `lo` takes and `high` of every value
   * `hi` takes, the result satisfies `low` and lies at or above some offset that satisfies `high`.
   */
  lemma {:induction false} SearchKeeps(probe: nat -> Step, lo: nat, hi: nat, low: nat -> bool, high: nat -> bool)
    returns (bound: nat)
    requires Progress(probe) && low(lo) && high(hi)
    requires forall m :: lo <= m < hi && (probe(m).Miss? || probe(m).Qualified?) ==> high(m)
    requires forall m :: lo <= m < hi && probe(m).TooOld? ==> low(probe(m).next)
    ensures var r := Search(probe, lo, hi);
      r.Ok? ==> lo <= r.value && low(r.value) && bound <= r.value && high(bound)
    decreases hi - lo
  {
    bound := hi;
    if lo < hi {
      var mid := (lo + hi) / 2;
      match probe(mid)
      case Miss => bound := SearchKeeps(probe, lo, mid, low, high);
      case Qualified => bound := SearchKeeps(probe, lo, mid, low, high);
      case Bad =>
      case TooOld(next) => bound := SearchKeeps(probe, next, hi, low, high);
    }
  }

  lemma {:induction false} SearchSucceeds(probe: nat -> Step, lo: nat, hi: nat)
    requires Progress(probe)
    requires forall m :: lo <= m < hi ==> !probe(m).Bad?
    ensures Search(probe, lo, hi).Ok?
    decreases hi - lo
  {
    if lo < hi {
      var mid := (lo + hi) / 2;
      match probe(mid)
      case Miss => SearchSucceeds(probe, lo, mid);
      case Qualified => SearchSucceeds(probe, lo, mid);
      case TooOld(next) => SearchSucceeds(probe, next, hi);
    }
  }

  lemma {:induction false} ProbesParse(s: seq<byte>, stopTime: StopTime, after: int, e: nat, m: nat)
    requires 0 < e <= m < |s| && AllParse(Events(s, e), stopTime)
    ensures !Probe(s, stopTime, after, m).Bad?
  {
    var start := Resync(s, m);
    match FirstLine(s[start..])
    case None =>
    case Some(line) =>
      ProbeSplitsEvents(s, e, m, start, line);
      assert line in Events(s, e);
  }

  /** Any content, sorted or not: the offset chosen is a line start of the snapshot, never before the first event. */
  lemma {:induction false} SearchStopsAtBoundary(s: seq<byte>, stopTime: StopTime, after: int, e: nat)
    requires 0 < e && Boundary(s, e)
    ensures var r := Search(Prober(s, stopTime, after), e, |s|); r.Ok? ==> r.value >= e && Boundary(s, r.value)
  {
    forall m | e <= m < |s| && Probe(s, stopTime, after, m).TooOld?
      ensures Boundary(s, Probe(s, stopTime, after, m).next)
    {
      var start := Resync(s, m);
      ProbeSplitsEvents(s, e, m, start, FirstLine(s[start..]).value);
    }
    var _ := SearchKeeps(Prober(s, stopTime, after), e, |s|, (p: nat) => Boundary(s, p), (_: nat) => true);
  }

  ghost predicate All(ls: seq<seq<byte>>, q: seq<byte> -> bool) {
    forall i :: 0 <= i < |ls| ==> q(ls[i])
  }

  ghost predicate NoneOf(ls: seq<seq<byte>>, q: seq<byte> -> bool) {
    forall i :: 0 <= i < |ls| ==> !q(ls[i])
  }

  /** In a partitioned list one line decides everything on its far side. */
  lemma {:induction false} PivotDecides(before: seq<seq<byte>>, line: seq<byte>, rest: seq<seq<byte>>,
                                        q: seq<byte> -> bool)
    requires Partitioned(before + ([line] + rest), q)
    ensures q(line) ==> All([line] + rest, q)
    ensures !q(line) ==> NoneOf(before + [line], q)
  {
    var ls := before + ([line] + rest);
    var k := |before|;
    assert ls[k] == line;
    assert forall i :: 0 <= i < |rest| ==> ls[k + 1 + i] == rest[i];
    assert forall i :: 0 <= i < k ==> ls[i] == before[i];
  }

  /** `p` splits the events: nothing before it qualifies, everything complete from it does. */
  ghost predicate Splits(s: seq<byte>, e: nat, p: nat, q: seq<byte> -> bool) {
    e <= p && Boundary(s, p) && NoneOf(AllLines(s[e..p]), q) && All(CompleteLines(s[p..]), q)
  }

  /** On exit `lo` may have passed `hi`: the tail at `lo` is a tail of the one at `hi`. */
  lemma {:induction false} CrossedBounds(s: seq<byte>, lo: nat, hi: nat, q: seq<byte> -> bool)
    requires hi <= lo && Boundary(s, lo)
    requires All(CompleteLines(s[Resync(s, hi)..]), q)
    ensures All(CompleteLines(s[lo..]), q)
  {
    var r := Resync(s, hi);
    ResyncIsFirst(s, hi, lo);
    CutLines(s, r, lo);
    var pre, post := AllLines(s[r..lo]), CompleteLines(s[lo..]);
    assert forall i :: 0 <= i < |post| ==> post[i] == (pre + post)[|pre| + i];
  }

  ghost predicate Low(s: seq<byte>, e: nat, p: nat, q: seq<byte> -> bool) {
    e <= p && Boundary(s, p) && NoneOf(AllLines(s[e..p]), q)
  }

  ghost predicate High(s: seq<byte>, h: nat, q: seq<byte> -> bool) {
    h <= |s| && All(CompleteLines(s[Resync(s, h)..]), q)
  }

  lemma {:induction false} ProbeKeepsSplit(s: seq<byte>, stopTime: StopTime, after: int, e: nat, m: nat)
    requires 0 < m < |s| && e <= Resync(s, m) && Partitioned(Events(s, e), Qualifies(stopTime, after))
    ensures var r := Probe(s, stopTime, after, m);
      && (r.Miss? || r.Qualified? ==> High(s, m, Qualifies(stopTime, after)))
      && (r.TooOld? ==> Low(s, e, r.next, Qualifies(stopTime, after)))
  {
    var start := Resync(s, m);
    match FirstLine(s[start..])
    case None =>
      NoFirstLine(s[start..]);
    case Some(line) =>
      ProbeSplitsEvents(s, e, m, start, line);
      PivotDecides(AllLines(s[e..start]), line, CompleteLines(s[start + |line|..]), Qualifies(stopTime, after));
  }

  lemma {:induction false} SearchFindsSplit(s: seq<byte>, stopTime: StopTime, after: int, e: nat)
    requires 0 < e && Boundary(s, e)
    requires Partitioned(Events(s, e), Qualifies(stopTime, after))
    ensures var r := Search(Prober(s, stopTime, after), e, |s|);
      r.Ok? ==> Splits(s, e, r.value, Qualifies(stopTime, after))
  {
    var q := Qualifies(stopTime, after);
    forall m | e <= m < |s| {
      ProbeKeepsSplit(s, stopTime, after, e, m);
    }
    assert s[e..e] == [];
    assert s[Resync(s, |s|)..] == [];
    var h := SearchKeeps(Prober(s, stopTime, after), e, |s|, (p: nat) => Low(s, e, p, q), (h: nat) => High(s, h, q));
    var r := Search(Prober(s, stopTime, after), e, |s|);
    if r.Ok? {
      CrossedBounds(s, r.value, h, q);
    }
  }

  // ---------- main theorems ----------

  /** What the copy from a line start writes is the text of the complete lines from there. */
  lemma {:induction false} CopiedText(s: seq<byte>, start: nat)
    requires start <= |s|
    ensures s[start..CompleteEnd(s, start)] == Concat(CompleteLines(s[start..]))
  {
    var t := s[start..];
    ConcatAllLines(t[..LastBreak(t)]);
    assert s[start..CompleteEnd(s, start)] == t[..LastBreak(t)];
  }

  lemma {:induction false} FilterOfSplit(none: seq<seq<byte>>, all: seq<seq<byte>>, q: seq<byte> -> bool)
    requires NoneOf(none, q) && All(all, q)
    ensures Filter(none + all, q) == all
  {
    FilterAppend(none, all, q);
    FilterNone(none, q);
    FilterAll(all, q);
  }

  /** When qualifying lines come last, the search output is exactly the filter output. */
  lemma {:induction false} SearchRefinesFilter(s: seq<byte>, e: nat, header: seq<byte>, stopTime: StopTime, after: int)
    requires 0 < e && Boundary(s, e)
    requires Partitioned(Events(s, e), Qualifies(stopTime, after))
    ensures var r := Emitted(s, e, header, stopTime, after);
      r.Ok? ==> r.value == header + Concat(Filter(Events(s, e), Qualifies(stopTime, after)))
  {
    var q := Qualifies(stopTime, after);
    var r := Search(Prober(s, stopTime, after), e, |s|);
    if r.Ok? {
      SearchFindsSplit(s, stopTime, after, e);
      var lo := r.value;
      CutLines(s, e, lo);
      FilterOfSplit(AllLines(s[e..lo]), CompleteLines(s[lo..]), q);
      CopiedText(s, lo);
      assert lo >= |s| ==> s[lo..] == [];
    }
  }

  /** A filter result that is a tail of the list means that nothing before the tail passed. */
  lemma {:induction false} FilterIsTail(pre: seq<seq<byte>>, tail: seq<seq<byte>>, q: seq<byte> -> bool)
    requires Filter(pre + tail, q) == tail
    ensures Partitioned(pre + tail, q)
  {
    FilterMembers(pre + tail, q);
    FilterAll(tail, q);
    FilterAppend(pre, tail, q);
    assert Filter(pre, q) == [];
    FilterMembers(pre, q);
    var ls := pre + tail;
    forall i, j | 0 <= i < j < |ls| && q(ls[i]) ensures q(ls[j]) {
      assert ls[i] in pre || i >= |pre|;
      assert j >= |pre| && ls[j] in tail;
    }
  }

  /** Equal texts of complete lines are equal line lists. */
  lemma {:induction false} SameTextSameLines(s: seq<byte>, e: nat, lo: nat, q: seq<byte> -> bool)
    requires e <= |s| && lo <= |s|
    requires Concat(CompleteLines(s[lo..])) == Concat(Filter(Events(s, e), q))
    ensures CompleteLines(s[lo..]) == Filter(Events(s, e), q)
  {
    var ls, tail := Events(s, e), CompleteLines(s[lo..]);
    LastBreakSpec(s[e..]);
    AllLinesAreLines(s[e..][..LastBreak(s[e..])]);
    FilterMembers(ls, q);
    AllLinesOfConcat(Filter(ls, q));
    LastBreakSpec(s[lo..]);
    AllLinesAreLines(s[lo..][..LastBreak(s[lo..])]);
    AllLinesOfConcat(tail);
  }

  lemma {:induction false} FilterTextMeansPartitioned(s: seq<byte>, e: nat, lo: nat, q: seq<byte> -> bool)
    requires e <= lo && Boundary(s, lo)
    requires Concat(CompleteLines(s[lo..])) == Concat(Filter(Events(s, e), q))
    ensures Partitioned(Events(s, e), q)
  {
    SameTextSameLines(s, e, lo, q);
    CutLines(s, e, lo);
    FilterIsTail(AllLines(s[e..lo]), CompleteLines(s[lo..]), q);
  }

  /** Any content, sorted or not: a successful copy is the header and the complete lines from some event on. */
  lemma {:induction false} EmitsWholeEvents(s: seq<byte>, e: nat, header: seq<byte>, stopTime: StopTime, after: int)
    returns (lo: nat)
    requires 0 < e && Boundary(s, e)
    requires Emitted(s, e, header, stopTime, after).Ok?
    ensures e <= lo && Boundary(s, lo)
    ensures Emitted(s, e, header, stopTime, after).value == header + Concat(CompleteLines(s[lo..]))
  {
    SearchStopsAtBoundary(s, stopTime, after, e);
    lo := Search(Prober(s, stopTime, after), e, |s|).value;
    CopiedText(s, lo);
    assert lo >= |s| ==> s[lo..] == [];
  }

  /**
   * The exact condition: a successful CopyAfter equals the filter over complete lines if and only if
   * no qualifying event precedes one that does not qualify.
   */
  lemma {:induction false} CopyAfterIsFilterIff(s: seq<byte>, e: nat, header: seq<byte>, stopTime: StopTime, after: int)
    requires 0 < e && Boundary(s, e)
    requires Emitted(s, e, header, stopTime, after).Ok?
    ensures Emitted(s, e, header, stopTime, after).value
         == header + Concat(Filter(Events(s, e), Qualifies(stopTime, after)))
       <==> Partitioned(Events(s, e), Qualifies(stopTime, after))
  {
    var q := Qualifies(stopTime, after);
    var ls := Events(s, e);
    var out := Emitted(s, e, header, stopTime, after).value;
    if Partitioned(ls, q) {
      SearchRefinesFilter(s, e, header, stopTime, after);
    }
    if out == header + Concat(Filter(ls, q)) {
      var lo := EmitsWholeEvents(s, e, header, stopTime, after);
      assert Concat(CompleteLines(s[lo..])) == out[|header|..];
      FilterTextMeansPartitioned(s, e, lo, q);
    }
  }

  lemma {:induction false} CopySucceeds(s: seq<byte>, e: nat, header: seq<byte>, stopTime: StopTime, after: int)
    requires 0 < e <= |s| && AllParse(Events(s, e), stopTime)
    ensures Emitted(s, e, header, stopTime, after).Ok?
  {
    forall m | e <= m < |s| {
      ProbesParse(s, stopTime, after, e, m);
    }
    SearchSucceeds(Prober(s, stopTime, after), e, |s|);
  }

  /** The promise of the log format, for every log with parseable, nondecreasing stop times and every `after`. */
  lemma {:induction false} CopyAfterOnSortedLog(s: seq<byte>, e: nat, header: seq<byte>, stopTime: StopTime, after: int)
    requires 0 < e && Boundary(s, e)
    requires AllParse(Events(s, e), stopTime) && Nondecreasing(Events(s, e), stopTime)
    ensures Emitted(s, e, header, stopTime, after)
         == Ok(header + Concat(Filter(Events(s, e), Qualifies(stopTime, after))))
  {
    var ls := Events(s, e);
    assert forall i :: 0 <= i < |ls| ==> ls[i] in ls;
    CopySucceeds(s, e, header, stopTime, after);
    SearchRefinesFilter(s, e, header, stopTime, after);
  }

  /** Sortedness is also necessary: an unsorted log has a cut-off time for which the copy is not the filter. */
  lemma {:induction false} UnsortedLogFailsSomewhere(s: seq<byte>, e: nat, header: seq<byte>, stopTime: StopTime)
    returns (after: int)
    requires 0 < e && Boundary(s, e)
    requires AllParse(Events(s, e), stopTime) && !Nondecreasing(Events(s, e), stopTime)
    ensures Emitted(s, e, header, stopTime, after)
         != Ok(header + Concat(Filter(Events(s, e), Qualifies(stopTime, after))))
  {
    var ls := Events(s, e);
    assert forall i :: 0 <= i < |ls| ==> ls[i] in ls;
    var i, j :| 0 <= i < j < |ls| && stopTime(ls[i]).value > stopTime(ls[j]).value;
    after := stopTime(ls[i]).value;
    assert Qualifies(stopTime, after)(ls[i]) && !Qualifies(stopTime, after)(ls[j]);
    CopySucceeds(s, e, header, stopTime, after);
    CopyAfterIsFilterIff(s, e, header, stopTime, after);
  }

  lemma {:induction false} NoLinesNoBreak(t: seq<byte>)
    requires CompleteLines(t) == []
    ensures LastBreak(t) == 0
  {
    assert AllLines(t[..LastBreak(t)]) == [];
  }

  lemma {:induction false} NoneOfTail(pre: seq<seq<byte>>, tail: seq<seq<byte>>, q: seq<byte> -> bool)
    requires NoneOf(pre + tail, q)
    ensures NoneOf(tail, q)
  {
    assert forall i :: 0 <= i < |tail| ==> tail[i] == (pre + tail)[|pre| + i];
  }

  /**
   * Where the search ends when no event qualifies: at the end of the last complete line, which is the end of the
   * file if and only if no fragment trails.
   */
  lemma {:induction false} NoneQualifies(s: seq<byte>, stopTime: StopTime, after: int, e: nat)
    requires 0 < e && Boundary(s, e)
    requires NoneOf(Events(s, e), Qualifies(stopTime, after))
    ensures var r := Search(Prober(s, stopTime, after), e, |s|);
      r.Ok? ==> r.value == CompleteEnd(s, e) && (r.value == |s| <==> Terminated(s[e..]))
  {
    var r := Search(Prober(s, stopTime, after), e, |s|);
    if r.Ok? {
      SearchFindsSplit(s, stopTime, after, e);
      NothingBehindSplit(s, e, r.value, Qualifies(stopTime, after));
      LastLineEnd(s, e, r.value);
    }
  }

  lemma {:induction false} NothingBehindSplit(s: seq<byte>, e: nat, lo: nat, q: seq<byte> -> bool)
    requires 0 < e && Boundary(s, e) && Splits(s, e, lo, q) && NoneOf(Events(s, e), q)
    ensures LastBreak(s[lo..]) == 0
  {
    CutLines(s, e, lo);
    var tail := CompleteLines(s[lo..]);
    NoneOfTail(AllLines(s[e..lo]), tail, q);
    FilterNone(tail, q);
    FilterAll(tail, q);
    NoLinesNoBreak(s[lo..]);
  }

  /** A line start with no newline behind it is the end of the last complete line. */
  lemma {:induction false} LastLineEnd(s: seq<byte>, e: nat, lo: nat)
    requires 0 < e <= lo && Boundary(s, lo) && LastBreak(s[lo..]) == 0
    ensures lo == CompleteEnd(s, e) && (lo == |s| <==> Terminated(s[e..]))
  {
    LastBreakAppend(s[e..lo], s[lo..]);
    assert s[e..] == s[e..lo] + s[lo..];
    LastBreakSpec(s[lo..]);
    assert lo < |s| ==> s[|s| - 1] == s[lo..][|s| - 1 - lo];
  }

  /** A time for each of two sample lines: the first is old, the second is not. */
  function SampleTime(line: seq<byte>): Option<int>
  {
    if line == [2, NEWLINE] then Some(0) else if line == [3, NEWLINE] then Some(9) else None
  }

  /** No event qualifies, a fragment trails: the offset is 4, the file size 5. */
  lemma {:induction false} NoneQualifiesBeforeFragment()
    ensures Search(Prober([1, NEWLINE, 2, NEWLINE, 3], SampleTime, 5), 2, 5) == Ok(4)
  {
    var s := [1, NEWLINE, 2, NEWLINE, 3];
    var probe := Prober(s, SampleTime, 5);
    assert probe(3) == Miss by {
      LineLenUnique(s[2..], 2);
      LineLenUnique(s[4..], 1);
    }
    assert probe(2) == TooOld(4) by {
      LineLenUnique(s[1..], 1);
      LineLenUnique(s[2..], 2);
      assert s[2..][..2] == [2, NEWLINE];
    }
    assert Search(probe, 2, 5) == Search(probe, 2, 3) == Search(probe, 4, 3) == Ok(4);
  }

  // ---------- a header that was read before its newline was written ----------

  /** Where the header line of `s` ends when its first `e` bytes hold no newline. */
  lemma {:induction false} HeaderLine(s: seq<byte>, e: nat)
    requires 0 < e <= |s| && NEWLINE !in s[..e]
    ensures LineLen(s) == e + LineLen(s[e..]) == Resync(s, e)
  {
    var tail := s[e..];
    LineLenSpec(tail);
    var p := e + LineLen(tail);
    forall i | 0 <= i < p - 1 ensures s[i] != NEWLINE {
      assert i < e ==> s[i] == s[..e][i];
      assert i >= e ==> s[i] == tail[i - e];
    }
    assert p < |s| ==> s[p - 1] == tail[LineLen(tail) - 1] by {
      if p == e {
        assert tail == [];
      }
    }
    assert p == e ==> s[..e] == s;
    LineLenUnique(s, p);
    var t := s[e - 1..];
    assert forall k :: 0 <= k < |t| ==> t[k] == s[e - 1 + k];
    LineLenUnique(t, p - e + 1);
  }

  /** The offset chosen is that of the first event, or a line start behind the header line. */
  lemma {:induction false} StaysOrLeavesHeader(s: seq<byte>, stopTime: StopTime, after: int, e: nat)
    requires 0 < e <= |s| && NEWLINE !in s[..e]
    ensures var r := Search(Prober(s, stopTime, after), e, |s|);
      r.Ok? ==> r.value == e || (LineLen(s) <= r.value && Boundary(s, r.value))
  {
    var ok := (p: nat) => p == e || (LineLen(s) <= p && Boundary(s, p));
    forall m | e <= m < |s| && Probe(s, stopTime, after, m).TooOld?
      ensures ok(Probe(s, stopTime, after, m).next)
    {
      var start := Resync(s, m);
      ProbeSplitsEvents(s, e, m, start, FirstLine(s[start..]).value);
      HeaderLine(s, e);
      ResyncIsMonotone(s, e, m);
    }
    var _ := SearchKeeps(Prober(s, stopTime, after), e, |s|, ok, (_: nat) => true);
  }

  lemma {:induction false} ResyncIsMonotone(s: seq<byte>, a: nat, b: nat)
    requires a <= b <= |s|
    ensures Resync(s, a) <= Resync(s, b)
  {
    ResyncIsBoundary(s, b);
    if Boundary(s, Resync(s, b)) {
      ResyncIsFirst(s, a, Resync(s, b));
    }
  }

  /** A line in front of `t` is the first line of `t`. */
  lemma {:induction false} LineInFront(line: seq<byte>, t: seq<byte>)
    requires IsLine(line)
    ensures line <= t <==> FirstLine(t) == Some(line)
  {
    if line <= t {
      assert line == t[..|line|];
      LineLenUnique(t, |line|);
    }
  }

  lemma {:induction false} FirstLineBehind(header: seq<byte>, body: seq<byte>, line: seq<byte>)
    requires NEWLINE !in header && FirstLine(body) == Some(line)
    ensures FirstLine(header + body) == Some(header + line)
  {
    LineLenSpec(body);
    var t := header + line;
    assert IsLine(t) by {
      assert t[|t| - 1] == line[|line| - 1];
      assert forall i :: 0 <= i < |header| ==> t[i] == header[i] && header[i] in header;
    }
    LineInFront(t, header + body);
  }

  /** What stands in front of a header that was glued to `line`: the text of `s` only by coincidence. */
  lemma {:induction false} GluedLine(s: seq<byte>, e: nat, line: seq<byte>)
    requires e <= |s| && IsLine(line)
    ensures s[..e] + line <= s <==> FirstLine(s[e..]) == Some(line)
  {
    LineInFront(line, s[e..]);
    var t := s[..e] + line;
    if line <= s[e..] {
      assert line == s[e..][..|line|];
      assert t == s[..|t|];
    }
    if t <= s {
      assert t[e..] == s[..|t|][e..] == s[e..][..|line|];
    }
  }

  /** The first line of a copy is text of the file. */
  predicate NothingGlued(out: seq<byte>, s: seq<byte>) {
    out[..LineLen(out)] <= s
  }

  /** By the offset the search returns, for every file that begins with a header read without its newline. */
  lemma {:induction false} GluedByOffset(s: seq<byte>, e: nat, stopTime: StopTime, after: int)
    requires 0 < e <= |s| && NEWLINE !in s[..e]
    requires Emitted(s, e, s[..e], stopTime, after).Ok?
    ensures var start := Search(Prober(s, stopTime, after), e, |s|).value;
      && start <= |s|
      && (NothingGlued(Emitted(s, e, s[..e], stopTime, after).value, s) <==>
            start == e || CompleteLines(s[start..]) == [] || FirstLine(s[start..]) == FirstLine(s[e..]))
  {
    StaysOrLeavesHeader(s, stopTime, after, e);
    var start := Search(Prober(s, stopTime, after), e, |s|).value;
    assert start >= |s| ==> s[start..CompleteEnd(s, start)] == [];
    GluedIff(s, e, start);
  }

  lemma {:induction false} GluedIff(s: seq<byte>, e: nat, start: nat)
    requires e <= |s| && NEWLINE !in s[..e] && start <= |s|
    ensures NothingGlued(s[..e] + s[start..CompleteEnd(s, start)], s) <==>
      start == e || CompleteLines(s[start..]) == [] || FirstLine(s[start..]) == FirstLine(s[e..])
  {
    var body := s[start..CompleteEnd(s, start)];
    var out := s[..e] + body;
    if start == e || body == [] {
      CopiedText(s, start);
      NoTextNoLines(s[start..]);
      assert out == s[..|out|];
      NothingMissing(out, s);
    } else {
      CopiedBody(s, start);
      var line := FirstLine(s[start..]).value;
      FirstLineBehind(s[..e], body, line);
      GluedLine(s, e, line);
    }
  }

  lemma {:induction false} NoTextNoLines(t: seq<byte>)
    ensures Concat(CompleteLines(t)) == [] ==> CompleteLines(t) == []
  {
    ConcatAllLines(t[..LastBreak(t)]);
  }

  lemma {:induction false} NothingMissing(out: seq<byte>, s: seq<byte>)
    requires out <= s
    ensures NothingGlued(out, s)
  {
    assert out[..LineLen(out)] == s[..LineLen(out)];
  }

  /** A body that is not empty begins with the first line at its offset. */
  lemma {:induction false} CopiedBody(s: seq<byte>, start: nat)
    requires start <= |s| && s[start..CompleteEnd(s, start)] != []
    ensures var line := FirstLine(s[start..]);
      line.Some? && IsLine(line.value) && FirstLine(s[start..CompleteEnd(s, start)]) == line
    ensures CompleteLines(s[start..]) != []
  {
    var t := s[start..];
    if FirstLine(t).None? {
      NoFirstLine(t);
      NoLinesNoBreak(t);
    }
    var line := FirstLine(t).value;
    FirstLineSplits(t, line);
    LastBreakSpec(t);
    var body := s[start..CompleteEnd(s, start)];
    assert body == t[..LastBreak(t)];
    assert |line| <= |body| by {
      assert t[|line| - 1] == NEWLINE;
    }
    assert line == t[..|line|] == body[..|line|];
    LineInFront(line, body);
  }

  /** When qualifying events come last, the search stays at the header if and only if all complete events qualify. */
  lemma {:induction false} StaysAtHeaderIff(s: seq<byte>, stopTime: StopTime, after: int, e: nat)
    requires 0 < e <= |s| && NEWLINE !in s[..e]
    requires Partitioned(Events(s, LineLen(s)), Qualifies(stopTime, after))
    ensures var r := Search(Prober(s, stopTime, after), e, |s|);
      r.Ok? ==> (r.value == e <==> All(Events(s, LineLen(s)), Qualifies(stopTime, after)))
  {
    var q, p, probe := Qualifies(stopTime, after), LineLen(s), Prober(s, stopTime, after);
    HeaderLine(s, e);
    ResyncIsBoundary(s, e);
    forall m | e <= m < |s|
      ensures probe(m).Miss? || probe(m).Qualified? ==> High(s, m, q)
      ensures probe(m).TooOld? ==> !All(Events(s, p), q)
    {
      ResyncIsMonotone(s, e, m);
      ProbeKeepsSplit(s, stopTime, after, p, m);
      if probe(m).TooOld? {
        LowNotAll(s, p, probe(m).next, q);
      }
    }
    assert High(s, |s|, q) by {
      assert s[Resync(s, |s|)..] == [];
    }
    SearchStays(probe, e, |s|, All(Events(s, p), q), (h: nat) => High(s, h, q));
  }

  /** A search that meets no old line stays, and one that stays has brought `hi` down to `lo`. */
  lemma {:induction false} SearchStays(probe: nat -> Step, lo: nat, hi: nat, all: bool, high: nat -> bool)
    requires Progress(probe) && lo <= hi && high(hi)
    requires forall m :: lo <= m < hi && (probe(m).Miss? || probe(m).Qualified?) ==> high(m)
    requires forall m :: lo <= m < hi && probe(m).TooOld? ==> !all
    requires high(lo) ==> all
    ensures var r := Search(probe, lo, hi); r.Ok? ==> (r.value == lo <==> all)
  {
    var bound := SearchKeeps(probe, lo, hi, (x: nat) => x == lo || !all, (h: nat) => lo <= h && high(h));
  }

  /** Lines before `x` of which none qualifies: not all qualify. */
  lemma {:induction false} LowNotAll(s: seq<byte>, p: nat, x: nat, q: seq<byte> -> bool)
    requires Low(s, p, x, q) && p < x
    ensures !All(Events(s, p), q)
  {
    CutLines(s, p, x);
    var pre := AllLines(s[p..x]);
    assert pre != [];
    assert (pre + CompleteLines(s[x..]))[0] == pre[0];
  }

  /** Where the search ends behind an unterminated header: it stays, or it splits the complete events. */
  lemma {:induction false} StaysOrSplits(s: seq<byte>, stopTime: StopTime, after: int, e: nat)
    requires 0 < e <= |s| && NEWLINE !in s[..e] && Boundary(s, LineLen(s))
    requires Partitioned(Events(s, LineLen(s)), Qualifies(stopTime, after))
    ensures var r := Search(Prober(s, stopTime, after), e, |s|);
      r.Ok? && r.value != e ==> Splits(s, LineLen(s), r.value, Qualifies(stopTime, after))
  {
    var q, p, probe := Qualifies(stopTime, after), LineLen(s), Prober(s, stopTime, after);
    HeaderLine(s, e);
    forall m | e <= m < |s|
      ensures probe(m).Miss? || probe(m).Qualified? ==> High(s, m, q)
      ensures probe(m).TooOld? ==> Low(s, p, probe(m).next, q)
    {
      ResyncIsMonotone(s, e, m);
      ProbeKeepsSplit(s, stopTime, after, p, m);
    }
    assert High(s, |s|, q) by {
      assert s[Resync(s, |s|)..] == [];
    }
    var r := Search(probe, e, |s|);
    var h := SearchKeeps(probe, e, |s|, (x: nat) => x == e || Low(s, p, x, q), (h: nat) => High(s, h, q));
    if r.Ok? && r.value != e {
      CrossedBounds(s, r.value, h, q);
    }
  }

  /** An offset that splits the events is that of the first one that qualifies. */
  lemma {:induction false} FirstOfFilter(s: seq<byte>, p: nat, start: nat, q: seq<byte> -> bool)
    requires p <= |s| && Splits(s, p, start, q)
    ensures Filter(Events(s, p), q) == CompleteLines(s[start..])
    ensures CompleteLines(s[start..]) != [] ==> FirstLine(s[start..]) == Some(CompleteLines(s[start..])[0])
  {
    CutLines(s, p, start);
    FilterOfSplit(AllLines(s[p..start]), CompleteLines(s[start..]), q);
    match FirstLine(s[start..])
    case None => NoFirstLine(s[start..]);
    case Some(line) => FirstLineSplits(s[start..], line);
  }

  lemma {:induction false} NoneIffFilterEmpty(ls: seq<seq<byte>>, q: seq<byte> -> bool)
    ensures NoneOf(ls, q) <==> Filter(ls, q) == []
  {
    FilterMembers(ls, q);
    if Filter(ls, q) == [] {
      forall i | 0 <= i < |ls| ensures !q(ls[i]) {
        assert ls[i] in ls;
      }
    } else {
      assert Filter(ls, q)[0] in Filter(ls, q);
    }
  }

  /** The first complete event that qualifies is what the header line lacks. */
  ghost predicate Coincides(s: seq<byte>, e: nat, evs: seq<seq<byte>>, q: seq<byte> -> bool)
    requires e <= |s|
  {
    Filter(evs, q) != [] && FirstLine(s[e..]) == Some(Filter(evs, q)[0])
  }

  /**
   * The exact effect of a header read without its newline, on every file that begins with it and whose qualifying
   * events come last: the first line of the copy is text of the file if and only if all complete events qualify, or
   * none does, or the first that qualifies happens to be what is missing of the header line.
   */
  lemma {:induction false} UnterminatedHeaderIff(s: seq<byte>, e: nat, stopTime: StopTime, after: int)
    requires 0 < e <= |s| && NEWLINE !in s[..e]
    requires Emitted(s, e, s[..e], stopTime, after).Ok?
    requires Partitioned(Events(s, LineLen(s)), Qualifies(stopTime, after))
    ensures var evs, q := Events(s, LineLen(s)), Qualifies(stopTime, after);
      NothingGlued(Emitted(s, e, s[..e], stopTime, after).value, s) <==>
        All(evs, q) || NoneOf(evs, q) || Coincides(s, e, evs, q)
  {
    var evs, q, p := Events(s, LineLen(s)), Qualifies(stopTime, after), LineLen(s);
    var start := Search(Prober(s, stopTime, after), e, |s|).value;
    GluedByOffset(s, e, stopTime, after);
    StaysAtHeaderIff(s, stopTime, after, e);
    if start != e {
      StaysOrLeavesHeader(s, stopTime, after, e);
      LineLenSpec(s);
      StaysOrSplits(s, stopTime, after, e);
      FirstOfFilter(s, p, start, q);
      NoneIffFilterEmpty(evs, q);
    }
  }

  /**
   * The failing input: a log opened while its header line was still being written loses the rest of that line,
   * and the first event copied is glued to the header.
   */
  lemma {:induction false} UnterminatedHeaderGlues()
    ensures var s := [1, NEWLINE, 2, NEWLINE, 3, NEWLINE];
      Emitted(s, 1, [1], SampleTime, 5) == Ok([1, 3, NEWLINE]) && !NothingGlued([1, 3, NEWLINE], s)
  {
    var s := [1, NEWLINE, 2, NEWLINE, 3, NEWLINE];
    var probe := Prober(s, SampleTime, 5);
    assert probe(3) == Qualified by {
      LineLenUnique(s[2..], 2);
      LineLenUnique(s[4..], 2);
      assert s[4..][..2] == [3, NEWLINE];
    }
    assert probe(2) == TooOld(4) by {
      LineLenUnique(s[1..], 1);
      LineLenUnique(s[2..], 2);
      assert s[2..][..2] == [2, NEWLINE];
    }
    assert Search(probe, 1, 6) == Search(probe, 1, 3) == Search(probe, 4, 3) == Ok(4);
    LastBreakUnique(s[4..], 2);
    assert CompleteEnd(s, 4) == 6;
    assert [1] + s[4..6] == [1, 3, NEWLINE];
    LineLenUnique([1, 3, NEWLINE], 3);
    assert [1, 3, NEWLINE][1] != s[1];
  }

  // ---------- the code ----------

  /** readLineAtOrAfter: None is io.EOF. */
  method ReadLineAtOrAfter(f: File, offset: nat, fileSize: nat) returns (lineStart: nat, line: Option<seq<byte>>)
    requires fileSize <= |f.content|
    modifies f
    ensures old(f.content) <= f.content
    ensures offset >= fileSize ==> line == None
    ensures offset < fileSize ==>
      var s := old(f.content)[..fileSize];
      line == FirstLine(s[Resync(s, offset)..]) && (line.Some? ==> lineStart == Resync(s, offset))
  {
    ghost var s := f.content[..fileSize];
    lineStart, line := 0, None;
    if offset >= fileSize {
      return;
    }
    if offset > 0 {
      var prefix, eof := f.ReadBytes(offset - 1, fileSize);
      assert s[offset - 1..] == old(f.content)[offset - 1..fileSize];
      if prefix[0] == NEWLINE {
        lineStart := offset;
        LineLenUnique(s[offset - 1..], 1);
      } else {
        lineStart := offset - 1 + |prefix|;
        if eof {
          LineLenSpec(s[offset - 1..]);
          assert FirstLine(s[|s|..]) == None;
          return;
        }
      }
    }
    assert lineStart == Resync(s, offset);
    label beforeLine:
    var bytes, eof := f.ReadBytes(lineStart, fileSize);
    assert s[lineStart..] == old@beforeLine(f.content)[lineStart..fileSize];
    if !eof {
      line := Some(bytes);
    }
  }

  class DotnetGCLog {
    const file: File
    const header: seq<byte>
    const eventsOffset: nat
    const stopTime: StopTime

    /** The first line of the file is still the header that was read when the log was opened. */
    ghost predicate Valid()
      reads file
    {
      header != [] && eventsOffset == |header| && header <= file.content
    }

    constructor (file: File, header: seq<byte>, stopTime: StopTime)
      ensures this.file == file && this.header == header && this.stopTime == stopTime && eventsOffset == |header|
    {
      this.file, this.header, this.stopTime, this.eventsOffset := file, header, stopTime, |header|;
    }

    /** OpenDotnetGCLog: the header is the first line, refused when it is empty or not a .NET header. */
    static method Open(file: File, stopTime: StopTime, isHeader: seq<byte> -> bool) returns (log: Option<DotnetGCLog>)
      modifies file
      ensures old(file.content) <= file.content
      ensures var first := old(file.content)[..LineLen(old(file.content))];
        && (log.Some? <==> first != [] && isHeader(first))
        && (log.Some? ==>
              && log.value.Valid() && log.value.header == first
              && log.value.file == file && log.value.stopTime == stopTime)
    {
      var line, _ := file.ReadBytes(0, |file.content|);
      assert old(file.content)[0..|old(file.content)|] == old(file.content);
      if line == [] || !isHeader(line) {
        return None;
      }
      var d := new DotnetGCLog(file, line, stopTime);
      log := Some(d);
    }

    /** One turn of the search loop: read the line at or after `mid` and compare its stop time. */
    method ProbeFile(mid: nat, fileSize: nat, after: int, ghost s: seq<byte>) returns (step: Step)
      requires Valid() && mid < fileSize == |s| && s <= file.content
      modifies file
      ensures Valid() && s <= file.content
      ensures step == Probe(s, stopTime, after, mid)
    {
      assert file.content[..fileSize] == s;
      var lineStart, line := ReadLineAtOrAfter(file, mid, fileSize);
      match line {
        case None => step := Miss;
        case Some(bytes) =>
          match stopTime(bytes) {
            case None => step := Bad;
            case Some(t) => step := if t >= after then Qualified else TooOld(lineStart + |bytes|);
          }
      }
    }

    method FindOffsetAfter(after: int) returns (fileSize: nat, start: Result<nat>)
      requires Valid()
      modifies file
      ensures Valid() && old(file.content) <= file.content && fileSize == |old(file.content)|
      ensures start == Search(Prober(old(file.content), stopTime, after), eventsOffset, fileSize)
    {
      ghost var s := file.content;
      ghost var probe := Prober(s, stopTime, after);
      fileSize := |file.content|;
      var lo, hi := eventsOffset, fileSize;
      while lo < hi
        invariant eventsOffset <= lo && 0 <= hi <= fileSize && s <= file.content
        invariant Search(probe, lo, hi) == Search(probe, eventsOffset, fileSize)
        decreases hi - lo
      {
        var mid := (lo + hi) / 2;
        var step := ProbeFile(mid, fileSize, after, s);
        assert step == probe(mid);
        match step {
          case Miss => hi := mid;
          case Bad => return fileSize, Err;
          case Qualified => hi := mid;
          case TooOld(next) => lo := next;
        }
      }
      start := Ok(lo);
    }

    method CopyFromOffset(start: nat, fileSize: nat) returns (out: seq<byte>)
      requires Valid() && fileSize <= |file.content|
      modifies file
      ensures Valid() && old(file.content) <= file.content
      ensures out == if start >= fileSize then []
                     else old(file.content)[start..CompleteEnd(old(file.content)[..fileSize], start)]
    {
      var end := FindLastCompleteLineEnd(file, start, fileSize);
      if end <= start {
        return [];
      }
      out := file.ReadAt(start, end);
    }

    /** Copy: the header and every complete event line of the file as it was when the call began. */
    method Copy() returns (out: seq<byte>)
      requires Valid()
      modifies file
      ensures Valid() && old(file.content) <= file.content
      ensures out == header + Concat(Events(old(file.content), eventsOffset))
    {
      ghost var s := file.content;
      var fileSize := |file.content|;
      var body := CopyFromOffset(eventsOffset, fileSize);
      assert s[..fileSize] == s;
      CopiedText(s, eventsOffset);
      out := header + body;
    }

    /** CopyAfter: appends made while it runs do not show in what it writes. */
    method CopyAfter(after: int) returns (out: Result<seq<byte>>)
      requires Valid()
      modifies file
      ensures Valid() && old(file.content) <= file.content
      ensures out == Emitted(old(file.content), eventsOffset, header, stopTime, after)
    {
      ghost var s := file.content;
      var fileSize, start := FindOffsetAfter(after);
      match start {
        case Err => out := Err;
        case Ok(offset) =>
          assert file.content[..fileSize] == s;
          var body := CopyFromOffset(offset, fileSize);
          assert offset < fileSize ==> body == s[offset..CompleteEnd(s, offset)];
          out := Ok(header + body);
      }
    }

    /** CopyLast: the window must not be negative. */
    method CopyLast(now: int, window: int) returns (out: Result<seq<byte>>)
      requires Valid()
      modifies file
      ensures Valid() && old(file.content) <= file.content
      ensures out == if window < 0 then Err
                     else Emitted(old(file.content), eventsOffset, header, stopTime, now - window)
    {
      if window < 0 {
        return Err;
      }
      out := CopyAfter(now - window);
    }
  }
}
