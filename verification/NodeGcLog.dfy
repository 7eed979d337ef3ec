/** Incremental splitting of a Node.js stdout file into GC trace lines and everything else. */
module NodeGcLog {
  import opened Lines
  import opened LogFile

  // ": Scavenge " and ": Mark-"
  const SCAVENGE_TOKEN: seq<byte> := [58, 32, 83, 99, 97, 118, 101, 110, 103, 101, 32]
  const MARK_TOKEN: seq<byte> := [58, 32, 77, 97, 114, 107, 45]

  predicate Contains(s: seq<byte>, token: seq<byte>)
  {
    token <= s || (s != [] && Contains(s[1..], token))
  }

  predicate IsNodeGCLine(line: seq<byte>) {
    Contains(line, SCAVENGE_TOKEN) || Contains(line, MARK_TOKEN)
  }

  const IS_GC: seq<byte> -> bool := line => IsNodeGCLine(line)
  const IS_OTHER: seq<byte> -> bool := line => !IsNodeGCLine(line)

  /** The reference split of a byte range, with each side in line order. */
  function GcText(s: seq<byte>): seq<byte> { Concat(Filter(AllLines(s), IS_GC)) }

  function OtherText(s: seq<byte>): seq<byte> { Concat(Filter(AllLines(s), IS_OTHER)) }

  lemma {:induction false} SplitAppend(a: seq<byte>, b: seq<byte>)
    requires Terminated(a)
    ensures GcText(a + b) == GcText(a) + GcText(b)
    ensures OtherText(a + b) == OtherText(a) + OtherText(b)
  {
    AllLinesAppend(a, b);
    FilterAppend(AllLines(a), AllLines(b), IS_GC);
    FilterAppend(AllLines(a), AllLines(b), IS_OTHER);
    ConcatAppend(Filter(AllLines(a), IS_GC), Filter(AllLines(b), IS_GC));
    ConcatAppend(Filter(AllLines(a), IS_OTHER), Filter(AllLines(b), IS_OTHER));
  }

  lemma {:induction false} FilterConserves<T>(ls: seq<T>, keep: T -> bool, drop: T -> bool)
    requires forall l :: drop(l) == !keep(l)
    ensures multiset(Filter(ls, keep)) + multiset(Filter(ls, drop)) == multiset(ls)
  {
    if ls != [] {
      var l, rest := ls[0], ls[1..];
      FilterConserves(rest, keep, drop);
      assert ls == [l] + rest;
      assert multiset(ls) == multiset([l]) + multiset(rest);
      var kept, dropped := Filter(rest, keep), Filter(rest, drop);
      if keep(l) {
        assert Filter(ls, keep) == [l] + kept && Filter(ls, drop) == [] + dropped;
      } else {
        assert Filter(ls, drop) == [l] + dropped && Filter(ls, keep) == [] + kept;
      }
    }
  }

  /** No line of a byte range is lost, copied or sent to both sides. */
  lemma {:induction false} SplitConserves(s: seq<byte>)
    ensures multiset(Filter(AllLines(s), IS_GC)) + multiset(Filter(AllLines(s), IS_OTHER)) == multiset(AllLines(s))
    ensures Concat(AllLines(s)) == s
  {
    FilterConserves(AllLines(s), IS_GC, IS_OTHER);
    ConcatAllLines(s);
  }

  // ---------- the code ----------

  lemma {:induction false} FilterOne(line: seq<byte>, keep: seq<byte> -> bool)
    ensures Concat(Filter([line], keep)) == if keep(line) then line else []
  {
    assert [line][1..] == [];
    var f := Filter([line], keep);
    assert f == (if keep(line) then [line] else []) + Filter([line][1..], keep);
    assert f == if keep(line) then [line] else [];
  }

  lemma {:induction false} FirstOfRest(s: seq<byte>, i: nat, n: nat)
    requires i < |s| && n == LineLen(s[i..])
    ensures AllLines(s[i..i + n]) == [s[i..i + n]]
  {
    var line := s[i..i + n];
    LineLenSpec(s[i..]);
    assert line == s[i..][..n];
    LineLenUnique(line, n);
    assert line[..n] == line && line[n..] == [];
  }

  lemma {:induction false} LineEnds(s: seq<byte>, i: nat, n: nat)
    requires i < |s| && n == LineLen(s[i..]) && i + n < |s|
    ensures Terminated(s[..i + n])
  {
    LineLenSpec(s[i..]);
    assert s[i..][n - 1] == s[i + n - 1];
  }

  lemma {:induction false} OneMoreLine(s: seq<byte>, i: nat, n: nat)
    requires i < |s| && Terminated(s[..i]) && n == LineLen(s[i..])
    ensures GcText(s[..i + n]) == if IsNodeGCLine(s[i..i + n]) then GcText(s[..i]) + s[i..i + n] else GcText(s[..i])
    ensures OtherText(s[..i + n])
         == if IsNodeGCLine(s[i..i + n]) then OtherText(s[..i]) else OtherText(s[..i]) + s[i..i + n]
    ensures i + n < |s| ==> Terminated(s[..i + n])
  {
    if i + n < |s| {
      LineEnds(s, i, n);
    }
    var line := s[i..i + n];
    assert s[..i + n] == s[..i] + line;
    SplitAppend(s[..i], line);
    FirstOfRest(s, i, n);
    FilterOne(line, IS_GC);
    FilterOne(line, IS_OTHER);
    assert GcText(s[..i]) + [] == GcText(s[..i]) && OtherText(s[..i]) + [] == OtherText(s[..i]);
  }

  /** Where a split from line start `i` stops: at the first line whose write fails, else at the end. */
  function SplitEnd(s: seq<byte>, i: nat, writeFails: nat -> bool): (end: nat)
    requires i <= |s|
    ensures i <= end <= |s|
    decreases |s| - i
  {
    if i == |s| || writeFails(i) then i else SplitEnd(s, i + LineLen(s[i..]), writeFails)
  }

  /** The lines before line start `i` are routed, and none of their writes failed. */
  ghost predicate Routed(src: seq<byte>, writeFails: nat -> bool, i: nat, gc: seq<byte>, other: seq<byte>) {
    && i <= |src| && (i < |src| ==> Terminated(src[..i]))
    && SplitEnd(src, 0, writeFails) == SplitEnd(src, i, writeFails)
    && gc == GcText(src[..i]) && other == OtherText(src[..i])
  }

  lemma {:induction false} RoutedNext(src: seq<byte>, writeFails: nat -> bool, i: nat, n: nat, gc: seq<byte>,
                                      other: seq<byte>)
    requires Routed(src, writeFails, i, gc, other) && i < |src| && n == LineLen(src[i..]) && !writeFails(i)
    ensures var line := src[i..i + n];
      if IsNodeGCLine(line) then Routed(src, writeFails, i + n, gc + line, other)
      else Routed(src, writeFails, i + n, gc, other + line)
  {
    OneMoreLine(src, i, n);
  }

  lemma {:induction false} RoutedEnd(src: seq<byte>, writeFails: nat -> bool, i: nat, gc: seq<byte>, other: seq<byte>)
    requires Routed(src, writeFails, i, gc, other) && (i == |src| || writeFails(i))
    ensures SplitTo(src, SplitEnd(src, 0, writeFails), gc, other) && SplitEnd(src, 0, writeFails) == i
  {
  }

  /** The two sides hold the lines before `end`. */
  ghost predicate SplitTo(src: seq<byte>, end: nat, gc: seq<byte>, other: seq<byte>)
    requires end <= |src|
  {
    gc == GcText(src[..end]) && other == OtherText(src[..end])
  }

  /**
   * SplitGCLog; `writeFails` tells for the line at an offset whether writing it fails. What stands before the
   * failing line is routed, and a final line without newline is routed like any other.
   */
  method SplitGCLog(src: seq<byte>, writeFails: nat -> bool) returns (gc: seq<byte>, other: seq<byte>, err: bool)
    ensures var end := SplitEnd(src, 0, writeFails); SplitTo(src, end, gc, other) && (err <==> end < |src|)
  {
    gc, other, err := [], [], false;
    var i := 0;
    while i < |src|
      invariant 0 <= i <= |src| && Routed(src, writeFails, i, gc, other)
    {
      var n := LineLen(src[i..]);
      var line := src[i..i + n];
      if writeFails(i) {
        RoutedEnd(src, writeFails, i, gc, other);
        return gc, other, true;
      }
      RoutedNext(src, writeFails, i, n, gc, other);
      if IsNodeGCLine(line) {
        gc := gc + line;
      } else {
        other := other + line;
      }
      i := i + n;
    }
    RoutedEnd(src, writeFails, i, gc, other);
  }

  /** Where reading resumes: the start when the file is now shorter than the remembered offset. */
  function ResumeAt(s: seq<byte>, offset: nat): (p: nat)
    ensures p <= |s|
  {
    if offset > |s| then 0 else offset
  }

  /** What makes a split fail: the file cannot be opened, or a line of the region cannot be written. */
  predicate SplitFails(s: seq<byte>, startOffset: nat, openFails: bool, writeFails: nat -> bool) {
    var from := ResumeAt(s, startOffset);
    var region := s[from..CompleteEnd(s, from)];
    openFails || SplitEnd(region, 0, writeFails) < |region|
  }

  /** What a split of the file `s` from a remembered offset leaves: the new offset, and the two sides. */
  ghost predicate SplitFrom(s: seq<byte>, startOffset: nat, openFails: bool, newOffset: nat, gc: seq<byte>,
                            other: seq<byte>, err: bool)
  {
    var from := ResumeAt(s, startOffset);
    if err then newOffset == if openFails then startOffset else from
    else
      && newOffset == CompleteEnd(s, from)
      && gc == GcText(s[from..newOffset]) && other == OtherText(s[from..newOffset])
  }

  lemma {:induction false} NothingToSplit(s: seq<byte>, startOffset: nat, writeFails: nat -> bool)
    requires CompleteEnd(s, ResumeAt(s, startOffset)) == ResumeAt(s, startOffset)
    ensures SplitFrom(s, startOffset, false, ResumeAt(s, startOffset), [], [], false)
    ensures !SplitFails(s, startOffset, false, writeFails)
  {
    var from := ResumeAt(s, startOffset);
    assert s[from..from] == [];
  }

  lemma {:induction false} RegionSplit(s: seq<byte>, startOffset: nat, writeFails: nat -> bool, region: seq<byte>,
                                       gc: seq<byte>, other: seq<byte>)
    requires var from := ResumeAt(s, startOffset); region == s[from..CompleteEnd(s, from)]
    requires SplitTo(region, SplitEnd(region, 0, writeFails), gc, other)
    ensures var from := ResumeAt(s, startOffset);
      var err := SplitEnd(region, 0, writeFails) < |region|;
      && (err <==> SplitFails(s, startOffset, false, writeFails))
      && SplitFrom(s, startOffset, false, if err then from else CompleteEnd(s, from), gc, other, err)
  {
    assert region[..|region|] == region;
  }

  /** SplitNodeGCFrom: only lines that were complete when the size was taken are read. */
  method SplitNodeGCFrom(f: File, startOffset: nat, openFails: bool, writeFails: nat -> bool)
    returns (newOffset: nat, gc: seq<byte>, other: seq<byte>, err: bool)
    modifies f
    ensures old(f.content) <= f.content
    ensures err <==> SplitFails(old(f.content), startOffset, openFails, writeFails)
    ensures SplitFrom(old(f.content), startOffset, openFails, newOffset, gc, other, err)
  {
    ghost var s := f.content;
    if openFails {
      return startOffset, [], [], true;
    }
    var size := |f.content|;
    var start := if startOffset > size then 0 else startOffset;
    var end := FindLastCompleteLineEnd(f, start, size);
    assert s[..size] == s;
    if end <= start {
      NothingToSplit(s, startOffset, writeFails);
      return start, [], [], false;
    }
    var region := f.ReadAt(start, end);
    gc, other, err := SplitGCLog(region, writeFails);
    RegionSplit(s, startOffset, writeFails, region, gc, other);
    newOffset := if err then start else end;
  }

  datatype Key = Key(pid: int, path: string)

  class NodeGCTracker {
    var offsets: map<Key, nat>

    constructor ()
      ensures offsets == map[]
    {
      offsets := map[];
    }

    function Offset(pid: int, path: string): nat
      reads this
    {
      var k := Key(pid, path);
      if k in offsets then offsets[k] else 0
    }

    method SetOffset(pid: int, path: string, offset: nat)
      modifies this
      ensures offsets == old(offsets)[Key(pid, path) := offset]
    {
      offsets := offsets[Key(pid, path) := offset];
    }

    method InitIfAbsent(pid: int, path: string, offset: nat) returns (first: bool)
      modifies this
      ensures first <==> Key(pid, path) !in old(offsets)
      ensures offsets == if first then old(offsets)[Key(pid, path) := offset] else old(offsets)
    {
      var key := Key(pid, path);
      if key in offsets {
        return false;
      }
      offsets := offsets[key := offset];
      return true;
    }

    /** Forget: after a PID exits nothing of it is left, and nothing else is touched. */
    method Forget(pid: int)
      modifies this
      ensures forall k :: k in offsets <==> k in old(offsets) && k.pid != pid
      ensures forall k :: k in offsets ==> offsets[k] == old(offsets)[k]
    {
      offsets := map k | k in offsets && k.pid != pid :: offsets[k];
    }

    method RetainOnly(keep: set<int>)
      modifies this
      ensures forall k :: k in offsets <==> k in old(offsets) && k.pid in keep
      ensures forall k :: k in offsets ==> offsets[k] == old(offsets)[k]
    {
      offsets := map k | k in offsets && k.pid in keep :: offsets[k];
    }
  }

  /** What may go wrong in a cycle: taking the size, creating the artifacts, opening the file, writing a line. */
  datatype Faults = Faults(stat: bool, create: bool, open: bool, write: nat -> bool)

  /** NodeGC.Run in continuous M3 mode, with the artifacts it completes; `err` is a cycle that completed none. */
  method RunCycle(tracker: NodeGCTracker, pid: int, path: string, f: File, faults: Faults)
    returns (gc: seq<byte>, other: seq<byte>, err: bool)
    modifies tracker, f
    ensures old(f.content) <= f.content
    ensures tracker.offsets == old(tracker.offsets)[Key(pid, path) := tracker.Offset(pid, path)]
    ensures var tracked := Tracked(old(tracker.offsets), pid, path);
      var r := Cycle(old(f.content), tracked, !faults.stat, err);
      && gc == r.gc && other == r.other && Tracked(tracker.offsets, pid, path) == r.offset
      && (err <==>
            && (tracked.Some? || faults.stat)
            && (|| faults.create
                || SplitFails(old(f.content), if tracked.Some? then tracked.value else 0, faults.open, faults.write)))
  {
    if !faults.stat {
      var first := tracker.InitIfAbsent(pid, path, |f.content|);
      if first {
        return [], [], false;
      }
    }
    var startOffset := tracker.Offset(pid, path);
    var newOffset := startOffset;
    gc, other, err := [], [], true;
    if !faults.create {
      newOffset, gc, other, err := SplitNodeGCFrom(f, startOffset, faults.open, faults.write);
    }
    if err {
      // a failed split keeps the offset and posts nothing
      newOffset, gc, other := startOffset, [], [];
    }
    tracker.SetOffset(pid, path, newOffset);
  }

  // ---------- runs: the file grows or is truncated, and cycles happen in any order ----------

  function Tracked(offsets: map<Key, nat>, pid: int, path: string): Option<nat>
  {
    if Key(pid, path) in offsets then Some(offsets[Key(pid, path)]) else None
  }

  datatype CycleResult = CycleResult(offset: Option<nat>, gc: seq<byte>, other: seq<byte>)

  /**
   * One cycle against content `s`. The first one only records the size (unless the size cannot be taken: it then
   * reads from the start); a failed one delivers nothing and keeps the offset.
   */
  function Cycle(s: seq<byte>, offset: Option<nat>, statOk: bool, err: bool): CycleResult
  {
    if offset.None? && statOk then CycleResult(Some(|s|), [], [])
    else
      var o := if offset.Some? then offset.value else 0;
      if err then CycleResult(Some(o), [], [])
      else
        var from := ResumeAt(s, o);
        var end := CompleteEnd(s, from);
        CycleResult(Some(end), GcText(s[from..end]), OtherText(s[from..end]))
  }

  /** What happens to a file: it grows, it is truncated and written anew, or a cycle reads it. */
  datatype Event = Append(bytes: seq<byte>) | Truncate(content: seq<byte>) | CycleEvent(statOk: bool, err: bool)

  /**
   * The file, the remembered offset, and what was delivered of the file since it was last truncated: the split of a
   * range from `start`. `truncated` tells that no cycle has succeeded since.
   */
  datatype World =
    World(content: seq<byte>, offset: Option<nat>, start: nat, truncated: bool, gc: seq<byte>, other: seq<byte>)

  function Initial(content: seq<byte>): World
  {
    World(content, None, 0, false, [], [])
  }

  function AfterCycle(w: World, statOk: bool, err: bool): World
  {
    var r := Cycle(w.content, w.offset, statOk, err);
    if w.offset.None? then
      World(w.content, r.offset, if statOk then |w.content| else 0, false, w.gc + r.gc, w.other + r.other)
    else if err then w.(offset := r.offset)
    else
      World(w.content, r.offset, if w.truncated then ResumeAt(w.content, w.offset.value) else w.start, false,
            w.gc + r.gc, w.other + r.other)
  }

  function Next(w: World, e: Event): World
  {
    match e
    case Append(bytes) => w.(content := w.content + bytes)
    case Truncate(content) => World(content, w.offset, 0, true, [], [])
    case CycleEvent(statOk, err) => AfterCycle(w, statOk, err)
  }

  function Run(content: seq<byte>, events: seq<Event>): World
    decreases |events|
  {
    if events == [] then Initial(content)
    else Next(Run(content, events[..|events| - 1]), events[|events| - 1])
  }

  lemma {:induction false} RunSnoc(content: seq<byte>, events: seq<Event>, e: Event)
    ensures Run(content, events + [e]) == Next(Run(content, events), e)
  {
    assert (events + [e])[..|events|] == events;
  }

  /** The events in which cycles with the given faults happen. */
  ghost predicate Follows(events: seq<Event>, plan: seq<Faults>)
  {
    |Cycles(events)| == |plan| && forall k :: 0 <= k < |plan| ==> Cycles(events)[k].statOk == !plan[k].stat
  }

  ghost function Cycles(events: seq<Event>): (cycles: seq<Event>)
    ensures forall k :: 0 <= k < |cycles| ==> cycles[k].CycleEvent?
    decreases |events|
  {
    if events == [] then []
    else
      var e := events[|events| - 1];
      Cycles(events[..|events| - 1]) + if e.CycleEvent? then [e] else []
  }

  lemma {:induction false} CyclesSnoc(events: seq<Event>, e: Event)
    ensures Cycles(events + [e]) == Cycles(events) + if e.CycleEvent? then [e] else []
  {
    assert (events + [e])[..|events|] == events;
  }

  /** What another process does to the file between two cycles. */
  method Disturb(f: File) returns (ghost e: Event)
    modifies f
    ensures !e.CycleEvent?
    ensures match e
      case Append(bytes) => f.content == old(f.content) + bytes
      case Truncate(content) => f.content == content
      case _ => false
  {
    var truncated: bool := *;
    if truncated {
      f.content := *;
      e := Truncate(f.content);
    } else {
      f.Interfere();
      e := Append(f.content[|old(f.content)|..]);
    }
  }

  /** One round: something happens to the file, then a cycle, during which it grows. */
  method Round(tracker: NodeGCTracker, pid: int, path: string, f: File, faults: Faults, ghost w: World)
    returns (ghost before: Event, ghost cycle: Event, ghost after: Event, gc: seq<byte>, other: seq<byte>)
    requires w.content == f.content && w.offset == Tracked(tracker.offsets, pid, path)
    modifies tracker, f
    ensures !before.CycleEvent? && after.Append? && cycle.CycleEvent? && cycle.statOk == !faults.stat
    ensures var v := Next(w, before);
      var r := Cycle(v.content, v.offset, cycle.statOk, cycle.err);
      && gc == r.gc && other == r.other
      && Tracked(tracker.offsets, pid, path) == r.offset && f.content == v.content + after.bytes
  {
    before := Disturb(f);
    ghost var s := f.content;
    var err;
    gc, other, err := RunCycle(tracker, pid, path, f, faults);
    cycle := CycleEvent(!faults.stat, err);
    after := Append(f.content[|s|..]);
  }

  /** Memory and output of the program are those of the run of events. */
  ghost predicate InStep(s: seq<byte>, events: seq<Event>, content: seq<byte>, offset: Option<nat>, gc: seq<byte>,
                         other: seq<byte>)
  {
    var w := Run(s, events);
    w.content == content && w.offset == offset && WrittenSince(w, gc, other)
  }

  /** Successive cycles of the program: what they write is what the run of events delivers. */
  method RunCycles(tracker: NodeGCTracker, pid: int, path: string, f: File, plan: seq<Faults>)
    returns (ghost events: seq<Event>, gc: seq<byte>, other: seq<byte>)
    requires Tracked(tracker.offsets, pid, path) == None
    modifies tracker, f
    ensures Follows(events, plan)
    ensures InStep(old(f.content), events, f.content, Tracked(tracker.offsets, pid, path), gc, other)
  {
    ghost var s := f.content;
    events, gc, other := [], [], [];
    for i := 0 to |plan|
      invariant Follows(events, plan[..i])
      invariant InStep(s, events, f.content, Tracked(tracker.offsets, pid, path), gc, other)
    {
      events, gc, other := NextRound(tracker, pid, path, f, plan[i], s, events, plan[..i], gc, other);
      assert plan[..i] + [plan[i]] == plan[..i + 1];
    }
    assert plan[..|plan|] == plan;
  }

  method NextRound(tracker: NodeGCTracker, pid: int, path: string, f: File, faults: Faults, ghost s: seq<byte>,
                   ghost events: seq<Event>, ghost plan: seq<Faults>, gc: seq<byte>, other: seq<byte>)
    returns (ghost events': seq<Event>, gc': seq<byte>, other': seq<byte>)
    requires Follows(events, plan) && InStep(s, events, f.content, Tracked(tracker.offsets, pid, path), gc, other)
    modifies tracker, f
    ensures Follows(events', plan + [faults])
    ensures InStep(s, events', f.content, Tracked(tracker.offsets, pid, path), gc', other')
  {
    var newGc, newOther;
    ghost var before, cycle, after;
    before, cycle, after, newGc, newOther := Round(tracker, pid, path, f, faults, Run(s, events));
    RoundRuns(s, events, before, cycle, after, gc, other);
    FollowsNext(events, plan, before, cycle, after, faults);
    events' := events + [before] + [cycle] + [after];
    gc', other' := gc + newGc, other + newOther;
  }

  /** The text written since the file was last truncated ends what was written in all. */
  ghost predicate WrittenSince(w: World, gc: seq<byte>, other: seq<byte>) {
    Ends(gc, w.gc) && Ends(other, w.other)
  }

  ghost predicate Ends(all: seq<byte>, tail: seq<byte>) {
    |tail| <= |all| && all[|all| - |tail|..] == tail
  }

  lemma {:induction false} EndsMore(all: seq<byte>, tail: seq<byte>, more: seq<byte>)
    requires Ends(all, tail)
    ensures Ends(all + more, tail + more)
  {
  }

  lemma {:induction false} EndsAfterCycle(w: World, statOk: bool, err: bool, gc: seq<byte>, other: seq<byte>)
    requires WrittenSince(w, gc, other)
    ensures var r := Cycle(w.content, w.offset, statOk, err);
      WrittenSince(AfterCycle(w, statOk, err), gc + r.gc, other + r.other)
  {
    var r := Cycle(w.content, w.offset, statOk, err);
    EndsMore(gc, w.gc, r.gc);
    EndsMore(other, w.other, r.other);
    assert gc + [] == gc && other + [] == other;
  }

  lemma {:induction false} RoundRuns(s: seq<byte>, events: seq<Event>, before: Event, cycle: Event, after: Event,
                                     gc: seq<byte>, other: seq<byte>)
    requires !before.CycleEvent? && cycle.CycleEvent? && after.Append? && WrittenSince(Run(s, events), gc, other)
    ensures var v := Next(Run(s, events), before);
      var r := Cycle(v.content, v.offset, cycle.statOk, cycle.err);
      var w := Run(s, events + [before] + [cycle] + [after]);
      && w.content == v.content + after.bytes && w.offset == r.offset
      && WrittenSince(w, gc + r.gc, other + r.other)
  {
    RunSnoc(s, events, before);
    RunSnoc(s, events + [before], cycle);
    RunSnoc(s, events + [before] + [cycle], after);
    EndsAfterCycle(Next(Run(s, events), before), cycle.statOk, cycle.err, gc, other);
  }

  lemma {:induction false} FollowsNext(events: seq<Event>, plan: seq<Faults>, before: Event, cycle: Event,
                                       after: Event, f: Faults)
    requires Follows(events, plan)
    requires !before.CycleEvent? && after.Append? && cycle.CycleEvent? && cycle.statOk == !f.stat
    ensures Follows(events + [before] + [cycle] + [after], plan + [f])
  {
    CyclesSnoc(events, before);
    CyclesSnoc(events + [before], cycle);
    CyclesSnoc(events + [before] + [cycle], after);
  }

  /** All that was delivered of the file is the reference split of one contiguous range that began at `start`. */
  ghost predicate Delivered(w: World) {
    if w.offset.None? || w.truncated then w.gc == [] && w.other == []
    else
      && w.start <= w.offset.value <= |w.content|
      && SplitOf(w.content[w.start..w.offset.value], w.gc, w.other)
  }

  ghost predicate SplitOf(range: seq<byte>, gc: seq<byte>, other: seq<byte>) {
    Terminated(range) && gc == GcText(range) && other == OtherText(range)
  }

  lemma {:induction false} CompleteEndIs(s: seq<byte>, start: nat)
    requires start <= |s|
    ensures CompleteEnd(s, start) == start + LastBreak(s[start..])
  {
  }

  /** The last complete line of a range is found from any line start inside it. */
  lemma {:induction false} EndFromLater(s: seq<byte>, first: nat, o: nat)
    requires first <= o <= |s| && Terminated(s[first..o])
    ensures CompleteEnd(s, o) == CompleteEnd(s, first)
    ensures Terminated(s[first..CompleteEnd(s, o)])
  {
    EndIsSame(s, first, o);
    EndTerminates(s, first);
  }

  lemma {:induction false} EndIsSame(s: seq<byte>, first: nat, o: nat)
    requires first <= o <= |s| && Terminated(s[first..o])
    ensures CompleteEnd(s, o) == CompleteEnd(s, first)
  {
    assert s[first..] == s[first..o] + s[o..];
    LastBreakAppend(s[first..o], s[o..]);
    CompleteEndIs(s, o);
    CompleteEndIs(s, first);
  }

  lemma {:induction false} EndTerminates(s: seq<byte>, first: nat)
    requires first <= |s|
    ensures Terminated(s[first..CompleteEnd(s, first)])
  {
    CompleteEndIs(s, first);
    LastBreakSpec(s[first..]);
  }

  /** The split of a range, and of what is complete behind it, is the split of both. */
  lemma {:induction false} SplitExtends(s: seq<byte>, start: nat, o: nat, gc: seq<byte>, other: seq<byte>)
    requires start <= o <= |s| && SplitOf(s[start..o], gc, other)
    ensures var end := CompleteEnd(s, o);
      && end == CompleteEnd(s, start)
      && SplitOf(s[start..end], gc + GcText(s[o..end]), other + OtherText(s[o..end]))
  {
    var end := CompleteEnd(s, o);
    EndFromLater(s, start, o);
    SplitAppend(s[start..o], s[o..end]);
    assert s[start..end] == s[start..o] + s[o..end];
  }

  lemma {:induction false} EmptySplit(s: seq<byte>, o: nat)
    requires o <= |s|
    ensures SplitOf(s[o..o], [], [])
  {
    assert s[o..o] == [];
  }

  /** A successful cycle delivers up to the last complete line. */
  lemma {:induction false} CycleDelivers(w: World, statOk: bool)
    requires Delivered(w) && w.offset.Some?
    ensures var v := AfterCycle(w, statOk, false);
      Delivered(v) && v.start <= |v.content| && v.offset == Some(CompleteEnd(v.content, v.start))
  {
    var o := ResumeAt(w.content, w.offset.value);
    if w.truncated {
      EmptySplit(w.content, o);
      SplitExtends(w.content, o, o, [], []);
    } else {
      SplitExtends(w.content, w.start, o, w.gc, w.other);
    }
  }

  lemma {:induction false} FirstCycleDelivers(w: World, statOk: bool, err: bool)
    requires Delivered(w) && w.offset.None?
    ensures Delivered(AfterCycle(w, statOk, err))
  {
    var s := w.content;
    EmptySplit(s, if statOk then |s| else 0);
    EmptySplit(s, 0);
    SplitExtends(s, 0, 0, [], []);
  }

  lemma {:induction false} StepDelivers(w: World, e: Event)
    requires Delivered(w)
    ensures Delivered(Next(w, e))
  {
    match e
    case Append(bytes) =>
      if w.offset.Some? && !w.truncated {
        assert (w.content + bytes)[w.start..w.offset.value] == w.content[w.start..w.offset.value];
      }
    case Truncate(_) =>
    case CycleEvent(statOk, err) =>
      if w.offset.None? {
        FirstCycleDelivers(w, statOk, err);
      } else if !err {
        CycleDelivers(w, statOk);
      }
  }

  /** Exactly-once delivery: every run keeps the delivered text equal to one single split of one range of the file. */
  lemma {:induction false} EveryRunDeliversOnce(content: seq<byte>, events: seq<Event>)
    ensures Delivered(Run(content, events))
    decreases |events|
  {
    if events != [] {
      EveryRunDeliversOnce(content, events[..|events| - 1]);
      StepDelivers(Run(content, events[..|events| - 1]), events[|events| - 1]);
    }
  }

  // ---------- where the range begins ----------

  /** The size at the first cycle, or 0 when it could not be taken, as long as the file was not truncated since. */
  function FirstSize(content: seq<byte>, events: seq<Event>): Option<nat>
    decreases |events|
  {
    if events == [] then None
    else
      var before := events[..|events| - 1];
      match events[|events| - 1]
      case Append(_) => FirstSize(content, before)
      case Truncate(_) => None
      case CycleEvent(statOk, _) =>
        var w := Run(content, before);
        if w.offset.None? then Some(if statOk then |w.content| else 0) else FirstSize(content, before)
  }

  /** Where delivery ought to begin: at the size of the first cycle, at 0 after a truncation. */
  function ExpectedStart(content: seq<byte>, events: seq<Event>): nat
  {
    if FirstSize(content, events).Some? then FirstSize(content, events).value else 0
  }

  ghost predicate StartsRight(content: seq<byte>, events: seq<Event>) {
    var w := Run(content, events);
    w.offset.Some? && !w.truncated ==> w.start == ExpectedStart(content, events)
  }

  /** A successful cycle notices a truncation before it: the file is shorter than the offset, or nothing was read. */
  ghost predicate TruncationShows(w: World, e: Event) {
    e.CycleEvent? && !e.err && w.offset.Some? && w.truncated ==> |w.content| < w.offset.value || w.offset.value == 0
  }

  ghost predicate TruncationsShow(content: seq<byte>, events: seq<Event>) {
    forall k :: 0 <= k < |events| ==> TruncationShows(Run(content, events[..k]), events[k])
  }

  lemma {:induction false} NoFirstAfterTruncation(content: seq<byte>, events: seq<Event>)
    ensures Run(content, events).truncated || Run(content, events).offset.None? ==> FirstSize(content, events).None?
    ensures ExpectedStart(content, events) <= |Run(content, events).content|
    decreases |events|
  {
    if events != [] {
      NoFirstAfterTruncation(content, events[..|events| - 1]);
    }
  }

  lemma {:induction false} StartStep(content: seq<byte>, events: seq<Event>)
    requires events != [] && StartsRight(content, events[..|events| - 1])
    ensures var n := |events| - 1;
      StartsRight(content, events) <==> TruncationShows(Run(content, events[..n]), events[n])
  {
    NoFirstAfterTruncation(content, events[..|events| - 1]);
  }

  /** Over every run delivery begins right all along if and only if every truncation shows. */
  lemma {:induction false} StartsRightIff(content: seq<byte>, events: seq<Event>)
    ensures (forall k :: 0 <= k <= |events| ==> StartsRight(content, events[..k])) <==> TruncationsShow(content, events)
  {
    var holds := (k: nat) => k <= |events| && StartsRight(content, events[..k]);
    var good := (k: nat) => k < |events| && TruncationShows(Run(content, events[..k]), events[k]);
    forall k | 0 <= k < |events| && holds(k) ensures holds(k + 1) <==> good(k) {
      assert events[..k + 1][..k] == events[..k];
      StartStep(content, events[..k + 1]);
    }
    HoldsAllAlongIff(holds, good, |events|);
    assert forall k :: 0 <= k <= |events| ==> (holds(k) <==> StartsRight(content, events[..k]));
    assert forall k :: 0 <= k < |events| ==> (good(k) <==> TruncationShows(Run(content, events[..k]), events[k]));
  }

  /** The failing run: a file truncated and grown to the same size again, whose new line is not delivered. */
  lemma {:induction false} HiddenTruncation()
    ensures var events := [CycleEvent(true, false), Truncate([2, NEWLINE]), CycleEvent(true, false)];
      var w := Run([1, NEWLINE], events);
      w == World([2, NEWLINE], Some(2), 2, false, [], []) && !StartsRight([1, NEWLINE], events)
  {
    var a, b: seq<byte> := [1, NEWLINE], [2, NEWLINE];
    var e1 := [CycleEvent(true, false)];
    var e2 := e1 + [Truncate(b)];
    var e3 := e2 + [CycleEvent(true, false)];
    RunSnoc(a, [], CycleEvent(true, false));
    assert [] + e1 == e1;
    RunSnoc(a, e1, Truncate(b));
    RunSnoc(a, e2, CycleEvent(true, false));
    assert e3 == [CycleEvent(true, false), Truncate(b), CycleEvent(true, false)];
    assert Run(a, e1) == World(a, Some(2), 2, false, [], []);
    assert Run(a, e2) == World(b, Some(2), 0, true, [], []);
    assert b[2..2] == [];
    assert e3[..2] == e2 && FirstSize(a, e2) == None;
  }

  predicate AppendOnly(events: seq<Event>) {
    forall k :: 0 <= k < |events| ==> !events[k].Truncate?
  }

  lemma {:induction false} NeverTruncated(content: seq<byte>, events: seq<Event>)
    requires AppendOnly(events)
    ensures !Run(content, events).truncated
    decreases |events|
  {
    if events != [] {
      NeverTruncated(content, events[..|events| - 1]);
    }
  }

  /** Append-only runs: nothing is delivered before the first cycle, and all after it is one range from its size on. */
  lemma {:induction false} EveryRunFromStart(content: seq<byte>, events: seq<Event>)
    requires AppendOnly(events)
    ensures var w := Run(content, events);
      && Delivered(w)
      && (w.offset.Some? ==> !w.truncated && w.start == ExpectedStart(content, events))
  {
    EveryRunDeliversOnce(content, events);
    NeverTruncated(content, events);
    forall k | 0 <= k < |events| ensures TruncationShows(Run(content, events[..k]), events[k]) {
      NeverTruncated(content, events[..k]);
    }
    StartsRightIff(content, events);
    assert events[..|events|] == events;
  }

  /** A successful cycle, all truncations showing, has delivered every complete line from the right start. */
  lemma {:induction false} EveryRunCatchesUp(content: seq<byte>, events: seq<Event>, statOk: bool)
    requires Run(content, events).offset.Some? && TruncationsShow(content, events + [CycleEvent(statOk, false)])
    ensures var all := events + [CycleEvent(statOk, false)];
      var s, start := Run(content, events).content, ExpectedStart(content, all);
      && start <= |s|
      && Run(content, all) == Caught(s, start)
  {
    var all := events + [CycleEvent(statOk, false)];
    RunSnoc(content, events, CycleEvent(statOk, false));
    EveryRunDeliversOnce(content, events);
    CycleDelivers(Run(content, events), statOk);
    StartsRightIff(content, all);
    assert all[..|all|] == all;
    NoFirstAfterTruncation(content, all);
  }

  /** The state in which all complete lines of `s` from `start` on are delivered. */
  function Caught(s: seq<byte>, start: nat): World
    requires start <= |s|
  {
    var end := CompleteEnd(s, start);
    World(s, Some(end), start, false, GcText(s[start..end]), OtherText(s[start..end]))
  }

  /**
   * The schedule does not show: two runs that end with the same file and began delivery at the same place, however
   * the cycles and the failures fall, agree on everything delivered once each has made one more successful cycle.
   */
  lemma {:induction false} ScheduleIndependence(content: seq<byte>, xs: seq<Event>, ys: seq<Event>)
    requires Run(content, xs).offset.Some? && Run(content, ys).offset.Some?
    requires var last := [CycleEvent(true, false)];
      TruncationsShow(content, xs + last) && TruncationsShow(content, ys + last)
    requires Run(content, xs).content == Run(content, ys).content
    requires ExpectedStart(content, xs) == ExpectedStart(content, ys)
    ensures Run(content, xs + [CycleEvent(true, false)]) == Run(content, ys + [CycleEvent(true, false)])
  {
    EveryRunCatchesUp(content, xs, true);
    EveryRunCatchesUp(content, ys, true);
    StartStays(content, xs);
    StartStays(content, ys);
  }

  lemma {:induction false} StartStays(content: seq<byte>, events: seq<Event>)
    requires Run(content, events).offset.Some?
    ensures ExpectedStart(content, events + [CycleEvent(true, false)]) == ExpectedStart(content, events)
  {
    assert (events + [CycleEvent(true, false)])[..|events|] == events;
  }
}
