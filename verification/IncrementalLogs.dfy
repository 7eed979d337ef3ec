/**
 * Incremental capture of application and access logs: per file, the size seen last and the position read to,
 * while other processes append to the files and rotate them.
 */
module IncrementalLogs {
  import opened Lines

  datatype ReadStat = ReadStat(fileSize: nat, readPosition: nat)

  // ---------- one file over time ----------

  /** What has been delivered of the current generation of a file: one range, from `start`. */
  datatype Delivery = Delivery(start: nat, out: seq<byte>, rotated: bool)

  /** A file (None: absent), what the agent remembers of it, and what it delivered since the last rotation. */
  datatype World = World(content: Option<seq<byte>>, stat: Option<ReadStat>, delivery: Delivery)

  /** What other processes do to a path between taking its size and opening it. */
  datatype Swap = Same | Swapped(content: Option<seq<byte>>)

  /**
   * Append and Rotate are the environment. A visit takes the size, then the file may be swapped, and grows by `grow`
   * before it is copied; `ok` is false when opening, creating or copying failed.
   */
  datatype Event =
    | Append(path: string, bytes: seq<byte>)
    | Rotate(path: string, content: Option<seq<byte>>)
    | Visit(path: string, swap: Swap, grow: seq<byte>, ok: bool)

  const UNSEEN := World(None, None, Delivery(0, [], false))

  /** Rotation is recognised only by a size below the one recorded last. */
  function ReadFrom(stat: ReadStat, size: nat): nat
  {
    if size < stat.fileSize then 0 else stat.readPosition
  }

  /** The copy after a seek: nothing when the position lies past the end. */
  function From(s: seq<byte>, p: nat): (t: seq<byte>)
    ensures p <= |s| ==> t == s[p..]
  {
    if p <= |s| then s[p..] else []
  }

  /** The file that is opened and copied. */
  function Opened(content: seq<byte>, swap: Swap, grow: seq<byte>): Option<seq<byte>>
  {
    match swap
    case Same => Some(content + grow)
    case Swapped(None) => None
    case Swapped(Some(other)) => Some(other + grow)
  }

  function Visited(w: World, swap: Swap, grow: seq<byte>, ok: bool): World
    requires w.content.Some?
  {
    var size, now := |w.content.value|, Opened(w.content.value, swap, grow);
    var d := if swap.Same? then w.delivery else Delivery(0, [], true);
    match w.stat
    case None =>
      if ok then World(now, Some(ReadStat(size, size)), Delivery(size, [], now.None?)) else World(now, None, d)
    case Some(stat) =>
      if !ok || now.None? then World(now, Some(stat), d)
      else
        var from := ReadFrom(stat, size);
        var copied := From(now.value, from);
        World(now, Some(ReadStat(size, from + |copied|)),
              Delivery(if d.out == [] then from else d.start, d.out + copied, false))
  }

  function Next(w: World, e: Event): World
  {
    match e
    case Append(_, bytes) => if w.content.Some? then w.(content := Some(w.content.value + bytes)) else w
    case Rotate(_, content) => World(content, w.stat, Delivery(0, [], true))
    case Visit(_, swap, grow, ok) => if w.content.Some? then Visited(w, swap, grow, ok) else w
  }

  /** The state of the file `path` after a trace of events on all files. */
  function Replay(trace: seq<Event>, path: string): World
    decreases |trace|
  {
    if trace == [] then UNSEEN
    else
      var e := trace[|trace| - 1];
      var w := Replay(trace[..|trace| - 1], path);
      if e.path == path then Next(w, e) else w
  }

  /**
   * At most once and in order: what was delivered of the current generation is one contiguous range of it. The range
   * is empty, and may lie past the end, when a rotation was not noticed.
   */
  ghost predicate AtMostOnce(w: World) {
    && (w.stat.None? || w.delivery.rotated ==> w.delivery.out == [])
    && (w.content.None? ==> w.delivery.rotated || w.stat.None?)
    && (w.content.Some? && w.stat.Some? && !w.delivery.rotated ==>
          OneRange(w.content.value, w.stat.value.readPosition, w.delivery.start, w.delivery.out))
  }

  ghost predicate OneRange(content: seq<byte>, position: nat, start: nat, out: seq<byte>) {
    || (start == position && out == [])
    || (start <= position <= |content| && out == content[start..position])
  }

  lemma {:induction false} GrowthKeepsRange(content: seq<byte>, more: seq<byte>, position: nat, start: nat,
                                            out: seq<byte>)
    requires OneRange(content, position, start, out)
    ensures OneRange(content + more, position, start, out)
  {
    if start <= position <= |content| {
      assert (content + more)[start..position] == content[start..position];
    }
  }

  /** A copy that goes on where the last one ended extends the range. */
  lemma {:induction false} CopyExtendsRange(now: seq<byte>, position: nat, start: nat, out: seq<byte>)
    requires OneRange(now, position, start, out)
    ensures var copied := From(now, position);
      OneRange(now, position + |copied|, if out == [] then position else start, out + copied)
  {
    if position <= |now| {
      assert now[position..] == now[position..|now|];
      if out != [] {
        assert now[start..position] + now[position..] == now[start..|now|];
      }
    }
  }

  /** The file is shorter than the size recorded although it is the one delivered from: the size was another file's. */
  ghost predicate Overtaken(w: World) {
    w.content.Some? && w.stat.Some? && !w.delivery.rotated && w.delivery.out != [] &&
    |w.content.value| < w.stat.value.fileSize
  }

  /** A visit that takes such a file for rotated and copies it once more. */
  ghost predicate Redelivers(w: World, e: Event) {
    e.Visit? && e.ok && e.swap.Same? && Overtaken(w)
  }

  lemma {:induction false} SameVisitKeeps(w: World, grow: seq<byte>)
    requires w.content.Some? && w.stat.Some? && !w.delivery.rotated && AtMostOnce(w) && !Overtaken(w)
    ensures AtMostOnce(Visited(w, Same, grow, true))
  {
    var now, d := w.content.value + grow, w.delivery;
    GrowthKeepsRange(w.content.value, grow, w.stat.value.readPosition, d.start, d.out);
    var from := ReadFrom(w.stat.value, |w.content.value|);
    if d.out == [] {
      CopyExtendsRange(now, from, from, []);
    } else {
      CopyExtendsRange(now, from, d.start, d.out);
    }
  }

  lemma {:induction false} FreshVisitKeeps(w: World, swap: Swap, grow: seq<byte>)
    requires w.content.Some? && w.stat.Some? && AtMostOnce(w) && (w.delivery.rotated || swap.Swapped?)
    ensures AtMostOnce(Visited(w, swap, grow, true))
  {
    var now := Opened(w.content.value, swap, grow);
    if now.Some? {
      var from := ReadFrom(w.stat.value, |w.content.value|);
      CopyExtendsRange(now.value, from, from, []);
    }
  }

  /** Copying a file once more breaks the range for good. */
  lemma {:induction false} RedeliveryBreaks(w: World, grow: seq<byte>)
    requires AtMostOnce(w) && Overtaken(w)
    ensures !AtMostOnce(Visited(w, Same, grow, true))
  {
    var now := w.content.value + grow;
    assert From(now, 0) == now;
    assert |w.delivery.out + now| > |now|;
  }

  lemma {:induction false} VisitKeepsIff(w: World, e: Event)
    requires w.content.Some? && AtMostOnce(w) && e.Visit?
    ensures AtMostOnce(Visited(w, e.swap, e.grow, e.ok)) <==> !Redelivers(w, e)
  {
    if w.stat.Some? && e.ok {
      if w.delivery.rotated || e.swap.Swapped? {
        FreshVisitKeeps(w, e.swap, e.grow);
      } else if Overtaken(w) {
        RedeliveryBreaks(w, e.grow);
      } else {
        SameVisitKeeps(w, e.grow);
      }
    } else if w.stat.Some? && e.swap.Same? && !w.delivery.rotated {
      GrowthKeepsRange(w.content.value, e.grow, w.stat.value.readPosition, w.delivery.start, w.delivery.out);
    }
  }

  lemma {:induction false} StepKeepsIff(w: World, e: Event)
    requires AtMostOnce(w)
    ensures AtMostOnce(Next(w, e)) <==> !Redelivers(w, e)
  {
    match e
    case Append(_, bytes) =>
      if w.content.Some? && w.stat.Some? && !w.delivery.rotated {
        GrowthKeepsRange(w.content.value, bytes, w.stat.value.readPosition, w.delivery.start, w.delivery.out);
      }
    case Rotate(_, _) =>
    case Visit(_, _, _, _) =>
      if w.content.Some? {
        VisitKeepsIff(w, e);
      }
  }

  ghost predicate NoneRedelivers(trace: seq<Event>, path: string) {
    forall k :: 0 <= k < |trace| && trace[k].path == path ==> !Redelivers(Replay(trace[..k], path), trace[k])
  }

  /** The exact condition: delivery is at most once and in order all along a run if and only if no visit redelivers. */
  lemma {:induction false} AtMostOnceIff(trace: seq<Event>, path: string)
    ensures (forall k :: 0 <= k <= |trace| ==> AtMostOnce(Replay(trace[..k], path))) <==> NoneRedelivers(trace, path)
  {
    var holds := (k: nat) => k <= |trace| && AtMostOnce(Replay(trace[..k], path));
    var good := (k: nat) => k < |trace| && (trace[k].path == path ==> !Redelivers(Replay(trace[..k], path), trace[k]));
    forall k | 0 <= k < |trace| && holds(k) ensures holds(k + 1) <==> good(k) {
      PrefixSnoc(trace, k, path);
      StepKeepsIff(Replay(trace[..k], path), trace[k]);
    }
    HoldsAllAlongIff(holds, good, |trace|);
    assert forall k :: 0 <= k <= |trace| ==> (holds(k) <==> AtMostOnce(Replay(trace[..k], path)));
    assert forall k :: 0 <= k < |trace| ==>
      (good(k) <==> (trace[k].path == path ==> !Redelivers(Replay(trace[..k], path), trace[k])));
  }

  lemma {:induction false} PrefixSnoc(trace: seq<Event>, k: nat, path: string)
    requires k < |trace|
    ensures var w := Replay(trace[..k], path);
      Replay(trace[..k + 1], path) == if trace[k].path == path then Next(w, trace[k]) else w
  {
    assert trace[..k + 1][..k] == trace[..k];
  }

  /** No file is swapped between taking its size and opening it. */
  ghost predicate NoSwaps(trace: seq<Event>, path: string) {
    forall k :: 0 <= k < |trace| && trace[k].path == path && trace[k].Visit? ==> trace[k].swap.Same?
  }

  lemma {:induction false} NeverOvertaken(trace: seq<Event>, path: string)
    requires NoSwaps(trace, path)
    ensures var w := Replay(trace, path);
      w.content.Some? && w.stat.Some? && !w.delivery.rotated ==> w.stat.value.fileSize <= |w.content.value|
    ensures Replay(trace, path).content.None? ==> Replay(trace, path).delivery.rotated || Replay(trace, path).stat.None?
    decreases |trace|
  {
    if trace != [] {
      NeverOvertaken(trace[..|trace| - 1], path);
    }
  }

  /** At most once and in order, for every file and every trace in which it is not swapped in a visit. */
  lemma {:induction false} EveryRunAtMostOnce(trace: seq<Event>, path: string)
    requires NoSwaps(trace, path)
    ensures AtMostOnce(Replay(trace, path))
  {
    forall k | 0 <= k < |trace| && trace[k].path == path ensures !Redelivers(Replay(trace[..k], path), trace[k]) {
      NeverOvertaken(trace[..k], path);
    }
    AtMostOnceIff(trace, path);
    assert trace[..|trace|] == trace;
  }

  // ---------- where delivery starts ----------

  /** The size at which the agent first saw the file, as long as the file was not rotated since. */
  function FirstSeen(trace: seq<Event>, path: string): Option<nat>
    decreases |trace|
  {
    if trace == [] then None
    else
      var e, before := trace[|trace| - 1], trace[..|trace| - 1];
      var w := Replay(before, path);
      if e.path != path || e.Append? then FirstSeen(before, path)
      else if e.Rotate? then None
      else if w.content.None? then FirstSeen(before, path)
      else if e.swap.Swapped? then None
      else if e.ok && w.stat.None? then Some(|w.content.value|)
      else FirstSeen(before, path)
  }

  /** Where delivery of the current generation ought to start: at the size first seen, at 0 after a rotation. */
  function ExpectedStart(trace: seq<Event>, path: string): nat
  {
    if FirstSeen(trace, path).Some? then FirstSeen(trace, path).value else 0
  }

  ghost predicate StartsRight(trace: seq<Event>, path: string) {
    var w := Replay(trace, path);
    w.content.Some? && w.stat.Some? && !w.delivery.rotated ==> w.delivery.start == ExpectedStart(trace, path)
  }

  /**
   * A visit that completes notices a rotation before or within it: by a size below the recorded one, or nothing was
   * read yet; a first visit has nothing to notice it by unless the file was empty.
   */
  ghost predicate RotationShows(w: World, e: Event) {
    e.Visit? && e.ok && w.content.Some? && e.swap != Swapped(None) ==>
      match w.stat
      case None => e.swap.Swapped? ==> w.content.value == []
      case Some(stat) =>
        w.delivery.rotated || e.swap.Swapped? ==> |w.content.value| < stat.fileSize || stat.readPosition == 0
  }

  ghost predicate RotationsShow(trace: seq<Event>, path: string) {
    forall k :: 0 <= k < |trace| && trace[k].path == path ==> RotationShows(Replay(trace[..k], path), trace[k])
  }

  /** What a file that is not known to be rotated tells about its start. */
  ghost predicate StartFacts(w: World, first: Option<nat>) {
    && (w.delivery.rotated || w.stat.None? ==> first.None?)
    && (w.content.None? ==> w.delivery.rotated || w.stat.None?)
    && (w.stat.None? || w.delivery.rotated ==> w.delivery.out == [])
    && (w.content.Some? && first.Some? ==> first.value <= |w.content.value|)
    && (w.content.Some? && w.stat.Some? && first.Some? ==> w.stat.value.fileSize <= |w.content.value|)
    && (w.content.Some? && w.stat.Some? && !w.delivery.rotated && w.delivery.out == [] ==>
          w.delivery.start == w.stat.value.readPosition)
  }

  lemma {:induction false} EveryRunStartFacts(trace: seq<Event>, path: string)
    ensures StartFacts(Replay(trace, path), FirstSeen(trace, path))
    decreases |trace|
  {
    if trace != [] {
      EveryRunStartFacts(trace[..|trace| - 1], path);
    }
  }

  /** One event more: delivery goes on starting right exactly when the event shows the rotation it comes with. */
  lemma {:induction false} StartStep(trace: seq<Event>, path: string)
    requires trace != [] && StartsRight(trace[..|trace| - 1], path)
    ensures var n := |trace| - 1;
      StartsRight(trace, path) <==> (trace[n].path == path ==> RotationShows(Replay(trace[..n], path), trace[n]))
  {
    EveryRunStartFacts(trace[..|trace| - 1], path);
  }

  /** Over every run delivery starts right all along if and only if every rotation shows. */
  lemma {:induction false} StartsRightIff(trace: seq<Event>, path: string)
    ensures (forall k :: 0 <= k <= |trace| ==> StartsRight(trace[..k], path)) <==> RotationsShow(trace, path)
  {
    var holds := (k: nat) => k <= |trace| && StartsRight(trace[..k], path);
    var good := (k: nat) =>
      k < |trace| && (trace[k].path == path ==> RotationShows(Replay(trace[..k], path), trace[k]));
    forall k | 0 <= k < |trace| && holds(k) ensures holds(k + 1) <==> good(k) {
      assert trace[..k + 1][..k] == trace[..k];
      StartStep(trace[..k + 1], path);
    }
    HoldsAllAlongIff(holds, good, |trace|);
    assert forall k :: 0 <= k <= |trace| ==> (holds(k) <==> StartsRight(trace[..k], path));
    assert forall k :: 0 <= k < |trace| ==>
      (good(k) <==> (trace[k].path == path ==> RotationShows(Replay(trace[..k], path), trace[k])));
  }

  /** Nothing is skipped inside a generation: a visit that completes has delivered everything from the right start. */
  lemma {:induction false} EveryRunCatchesUp(trace: seq<Event>, path: string, grow: seq<byte>)
    requires Replay(trace, path).content.Some? && Replay(trace, path).stat.Some?
    requires var all := trace + [Visit(path, Same, grow, true)]; RotationsShow(all, path) && NoneRedelivers(all, path)
    ensures var all := trace + [Visit(path, Same, grow, true)];
      var v := Replay(all, path);
      && v.content.Some? && ExpectedStart(all, path) <= |v.content.value|
      && v.delivery.out == v.content.value[ExpectedStart(all, path)..]
  {
    var all := trace + [Visit(path, Same, grow, true)];
    assert all[..|trace|] == trace && all[..|all|] == all;
    StartsRightIff(all, path);
    AtMostOnceIff(all, path);
    assert StartsRight(all[..|all|], path) && StartsRight(all[..|trace|], path);
    assert AtMostOnce(Replay(all[..|trace|], path));
    var w, v := Replay(trace, path), Replay(all, path);
    ReplaySnoc(trace, Visit(path, Same, grow, true), path);
    assert RotationShows(Replay(all[..|trace|], path), all[|trace|]);
    assert !Redelivers(Replay(all[..|trace|], path), all[|trace|]);
    EveryRunStartFacts(trace, path);
    CatchesUp(w, grow);
  }

  lemma {:induction false} CatchesUp(w: World, grow: seq<byte>)
    requires w.content.Some? && w.stat.Some? && AtMostOnce(w) && !Overtaken(w)
    requires if w.delivery.rotated then ReadFrom(w.stat.value, |w.content.value|) == 0
             else w.stat.value.readPosition <= |w.content.value|
    ensures var v := Visited(w, Same, grow, true);
      v.delivery.start <= |v.content.value| && v.delivery.out == v.content.value[v.delivery.start..]
  {
    var now := w.content.value + grow;
    var from := ReadFrom(w.stat.value, |w.content.value|);
    if w.delivery.out != [] {
      var start := w.delivery.start;
      assert now[start..from] == w.content.value[start..from];
      assert now[start..from] + now[from..] == now[start..];
    }
  }

  /** A failed visit leaves the memory as it was, so the next one reads from the same place. */
  lemma {:induction false} FailedVisitsLoseNothing(w: World, grow: seq<byte>, more: seq<byte>)
    requires w.content.Some? && w.stat.Some? && !w.delivery.rotated && w.stat.value.fileSize <= |w.content.value|
    ensures Visited(Visited(w, Same, grow, false), Same, more, true).delivery
         == Visited(w, Same, grow + more, true).delivery
  {
    assert w.content.value + grow + more == w.content.value + (grow + more);
  }

  /** A rotation that is lost: the new file is as long as the old one, and nothing of it is delivered. */
  lemma {:induction false} LostRotation(path: string)
    ensures var visit := Visit(path, Same, [], true);
      var trace := [Rotate(path, Some([1, 2])), visit, Rotate(path, Some([3, 4])), visit];
      var w := Replay(trace, path);
      w.content == Some([3, 4]) && w.delivery == Delivery(2, [], false) && !StartsRight(trace, path)
  {
    var a, b: seq<byte> := [1, 2], [3, 4];
    var visit := Visit(path, Same, [], true);
    var t1 := [Rotate(path, Some(a))];
    var t2 := t1 + [visit];
    var t3 := t2 + [Rotate(path, Some(b))];
    var t4 := t3 + [visit];
    ReplaySnoc([], Rotate(path, Some(a)), path);
    assert [] + t1 == t1;
    ReplaySnoc(t1, visit, path);
    assert a + [] == a && b + [] == b;
    ReplaySnoc(t2, Rotate(path, Some(b)), path);
    ReplaySnoc(t3, visit, path);
    assert t4 == [Rotate(path, Some(a)), visit, Rotate(path, Some(b)), visit];
    assert t4[..3] == t3 && t3[..2] == t2;
    assert FirstSeen(t4, path) == FirstSeen(t3, path) == None;
  }

  /** A file delivered twice: it takes the place of a longer one between size and opening. */
  lemma {:induction false} DeliveredTwice(path: string)
    ensures var visit := Visit(path, Same, [], true);
      var swap := Visit(path, Swapped(Some([7, 8])), [], true);
      var trace := [Rotate(path, Some([1])), visit, Append(path, [2, 3]), swap, visit];
      var w := Replay(trace, path);
      w.content == Some([7, 8]) && w.delivery.out == [8, 7, 8] && !AtMostOnce(w)
  {
    var a, b, c: seq<byte> := [1], [1, 2, 3], [7, 8];
    var visit, swap := Visit(path, Same, [], true), Visit(path, Swapped(Some(c)), [], true);
    var t1 := [Rotate(path, Some(a))];
    var t2 := t1 + [visit];
    var t3 := t2 + [Append(path, [2, 3])];
    var t4 := t3 + [swap];
    var t5 := t4 + [visit];
    ReplaySnoc([], Rotate(path, Some(a)), path);
    assert [] + t1 == t1 && a + [] == a && a + [2, 3] == b && c + [] == c;
    ReplaySnoc(t1, visit, path);
    ReplaySnoc(t2, Append(path, [2, 3]), path);
    assert Replay(t3, path) == World(Some(b), Some(ReadStat(1, 1)), Delivery(1, [], false));
    ReplaySnoc(t3, swap, path);
    assert c[1..] == [8] && [] + [8 as byte] == [8];
    assert Replay(t4, path) == World(Some(c), Some(ReadStat(3, 2)), Delivery(1, [8], false));
    ReplaySnoc(t4, visit, path);
    assert c[0..] == c && [8 as byte] + c == [8, 7, 8];
    assert t5 == [Rotate(path, Some(a)), visit, Append(path, [2, 3]), swap, visit];
  }

  /** The hypothesis is exact: the first copy after a rotation is the whole new file if and only if it shows. */
  lemma {:induction false} RotationDeliveredIff(w: World, grow: seq<byte>)
    requires w.content.Some? && w.stat.Some? && w.delivery.rotated && w.delivery.out == []
    ensures var v := Visited(w, Same, grow, true);
      v.delivery.out == v.content.value <==>
        || |w.content.value| < w.stat.value.fileSize
        || w.stat.value.readPosition == 0
        || w.content.value + grow == []
  {
    var now := w.content.value + grow;
    var p := ReadFrom(w.stat.value, |w.content.value|);
    assert [] + From(now, p) == From(now, p);
    if p == 0 {
      assert now[0..] == now;
    } else {
      assert now != [] ==> |From(now, p)| < |now|;
    }
  }

  // ---------- the code ----------

  /**
   * A path that a configured pattern matched, with the header lines its artifact starts with; `openOk` tells whether
   * the file can be opened, `copyOk` whether the artifact can be created and the copy completed.
   */
  datatype Match = Match(path: string, headers: seq<byte>, openOk: bool, copyOk: bool)

  function Paths(matches: seq<Match>): seq<string>
  {
    seq(|matches|, i requires 0 <= i < |matches| => matches[i].path)
  }

  datatype Outcome = Missing | Failed | Initialized | Copied(artifact: seq<byte>)

  /** The visit `e` of a file in state `w`, and what it returns; without `openFirst` a first visit needs no I/O. */
  ghost predicate VisitGives(w: World, e: Event, m: Match, openFirst: bool, r: Outcome) {
    && e.Visit? && e.path == m.path
    && if w.content.None? then r == Missing && !e.ok
       else
         var now := Opened(w.content.value, e.swap, e.grow);
         && (e.ok <==> if w.stat.None? then !openFirst || (m.openOk && now.Some?)
                       else m.openOk && m.copyOk && now.Some?)
         && r == if !e.ok then Failed
                 else if w.stat.None? then Initialized
                 else Copied(m.headers + From(now.value, ReadFrom(w.stat.value, |w.content.value|)))
  }

  class FileSystem {
    var files: map<string, seq<byte>>

    /** Other processes, between two of our calls: any number of appends and rotations. */
    method Interfere() returns (ghost events: seq<Event>)
      modifies this
      ensures forall e :: e in events ==> !e.Visit?
      ensures forall p :: ContentAfter(old(Content(p)), events, p) == Content(p)
    {
      events := [];
      var n: nat := *;
      while n > 0
        invariant forall e :: e in events ==> !e.Visit?
        invariant forall p :: ContentAfter(old(Content(p)), events, p) == Content(p)
      {
        var path: string := *;
        var kind: nat := *;
        var bytes: seq<byte> := *;
        ghost var before := events;
        if kind == 0 {
          events := events + [Rotate(path, Some(bytes))];
          files := files[path := bytes];
        } else if kind == 1 {
          events := events + [Rotate(path, None)];
          files := map p | p in files && p != path :: files[p];
        } else {
          events := events + [Append(path, bytes)];
          if path in files {
            files := files[path := files[path] + bytes];
          }
        }
        assert events[..|events| - 1] == before;
        n := n - 1;
      }
    }

    ghost function Content(path: string): Option<seq<byte>>
      reads this
    {
      if path in files then Some(files[path]) else None
    }

    /** Other processes at one file, between taking its size and the end of the copy. */
    method Between(path: string) returns (ghost swap: Swap, ghost grow: seq<byte>)
      requires path in files
      modifies this
      ensures Content(path) == Opened(old(files)[path], swap, grow)
      ensures forall p :: p != path ==> Content(p) == old(Content(p))
    {
      var kind: nat := *;
      var bytes: seq<byte> := *;
      swap := Same;
      if kind == 0 {
        swap := Swapped(None);
        files := map p | p in files && p != path :: files[p];
      } else {
        if kind == 1 {
          var other: seq<byte> := *;
          swap := Swapped(Some(other));
          files := files[path := other];
        }
        files := files[path := files[path] + bytes];
      }
      grow := bytes;
    }
  }

  /** The content of one file after environment events. */
  ghost function ContentAfter(content: Option<seq<byte>>, events: seq<Event>, path: string): Option<seq<byte>>
    decreases |events|
  {
    if events == [] then content
    else
      var e := events[|events| - 1];
      var c := ContentAfter(content, events[..|events| - 1], path);
      if e.path != path then c
      else match e
        case Append(_, bytes) => if c.Some? then Some(c.value + bytes) else c
        case Rotate(_, now) => now
        case Visit(_, _, _, _) => c
  }

  /** Environment events do to a replayed file what they do to its content, and leave the memory alone. */
  lemma {:induction false} EnvironmentReplay(trace: seq<Event>, events: seq<Event>, path: string)
    requires forall e :: e in events ==> !e.Visit?
    ensures Replay(trace + events, path).content == ContentAfter(Replay(trace, path).content, events, path)
    ensures Replay(trace + events, path).stat == Replay(trace, path).stat
    decreases |events|
  {
    if events == [] {
      assert trace + events == trace;
    } else {
      var init := events[..|events| - 1];
      var all := trace + events;
      assert all[..|all| - 1] == trace + init && all[|all| - 1] == events[|events| - 1];
      assert events[|events| - 1] in events;
      EnvironmentReplay(trace, init, path);
    }
  }

  lemma {:induction false} ReplaySnoc(trace: seq<Event>, e: Event, path: string)
    ensures Replay(trace + [e], path) == if e.path == path then Next(Replay(trace, path), e) else Replay(trace, path)
  {
    assert (trace + [e])[..|trace|] == trace;
  }

  /** The paths visited in a trace, in order. */
  ghost function Visits(trace: seq<Event>): seq<string>
    decreases |trace|
  {
    if trace == [] then []
    else
      var e := trace[|trace| - 1];
      Visits(trace[..|trace| - 1]) + if e.Visit? then [e.path] else []
  }

  lemma {:induction false} VisitsAppend(xs: seq<Event>, ys: seq<Event>)
    ensures Visits(xs + ys) == Visits(xs) + Visits(ys)
    decreases |ys|
  {
    if ys == [] {
      assert xs + ys == xs;
    } else {
      var all := xs + ys;
      assert all[..|all| - 1] == xs + ys[..|ys| - 1] && all[|all| - 1] == ys[|ys| - 1];
      VisitsAppend(xs, ys[..|ys| - 1]);
    }
  }

  lemma {:induction false} NoVisits(events: seq<Event>)
    requires forall e :: e in events ==> !e.Visit?
    ensures Visits(events) == []
    decreases |events|
  {
    if events != [] {
      assert events[|events| - 1] in events;
      NoVisits(events[..|events| - 1]);
    }
  }

  /** AppLogM3 and AccessLogM3: they differ in the headers of the artifact and in when the file is opened. */
  class LogM3 {
    const fs: FileSystem
    var readStats: map<string, ReadStat>
    ghost var trace: seq<Event>

    ghost predicate Valid()
      reads this, fs
    {
      forall p :: Replay(trace, p).content == fs.Content(p) && Replay(trace, p).stat == Stat(p)
    }

    ghost function Stat(path: string): Option<ReadStat>
      reads this
    {
      if path in readStats then Some(readStats[path]) else None
    }

    constructor ()
      ensures Valid() && readStats == map[] && fresh(fs)
    {
      var f := new FileSystem;
      f.files := map[];
      fs, readStats, trace := f, map[], [];
    }

    /** One visit, after whatever other processes did since the last one. */
    method CaptureSingle(m: Match, openFirst: bool) returns (r: Outcome)
      requires Valid()
      modifies this, fs
      ensures Valid() && old(trace) < trace && Visits(trace) == Visits(old(trace)) + [m.path]
      ensures var n := |trace| - 1; VisitGives(Replay(trace[..n], m.path), trace[n], m, openFirst, r)
    {
      ghost var events := fs.Interfere();
      forall p {
        EnvironmentReplay(trace, events, p);
      }
      VisitsAppend(trace, events);
      NoVisits(events);
      trace := trace + events;
      r := VisitFile(m, openFirst);
    }

    /** The visit itself, with the artifact it leaves behind. */
    method VisitFile(m: Match, openFirst: bool) returns (r: Outcome)
      requires Valid()
      modifies this, fs
      ensures Valid()
      ensures |trace| == |old(trace)| + 1 && trace[..|old(trace)|] == old(trace)
      ensures Visits(trace) == Visits(old(trace)) + [m.path]
      ensures VisitGives(Replay(old(trace), m.path), trace[|old(trace)|], m, openFirst, r)
    {
      var path := m.path;
      if path !in fs.files {
        Record(Visit(path, Same, [], false));
        return Missing;
      }
      var size := |fs.files[path]|;
      ghost var swap, grow := fs.Between(path);
      var readable := m.openOk && path in fs.files;
      if path !in readStats {
        // the access log reader initializes without opening the file
        if openFirst && !readable {
          Record(Visit(path, swap, grow, false));
          return Failed;
        }
        readStats := readStats[path := ReadStat(size, size)];
        Record(Visit(path, swap, grow, true));
        return Initialized;
      }
      if !readable || !m.copyOk {
        Record(Visit(path, swap, grow, false));
        return Failed;
      }
      var stat := readStats[path];
      var position := if size < stat.fileSize then 0 else stat.readPosition;
      var copied := From(fs.files[path], position);
      readStats := readStats[path := ReadStat(size, position + |copied|)];
      Record(Visit(path, swap, grow, true));
      return Copied(m.headers + copied);
    }

    ghost method Record(e: Event)
      requires e.Visit?
      requires forall p :: p != e.path ==> Replay(trace, p).content == fs.Content(p) && Replay(trace, p).stat == Stat(p)
      requires var w := Next(Replay(trace, e.path), e); w.content == fs.Content(e.path) && w.stat == Stat(e.path)
      modifies this`trace
      ensures Valid() && trace == old(trace) + [e] && Visits(trace) == Visits(old(trace)) + [e.path]
    {
      ghost var before := trace;
      trace := trace + [e];
      assert trace[..|before|] == before;
      forall p {
        ReplaySnoc(before, e, p);
      }
    }

    /**
     * Run: every match of every pattern is visited, a path matched twice is visited twice; `at` is where the
     * visits stand in the trace.
     */
    method Run(matches: seq<Match>, openFirst: bool) returns (results: seq<Outcome>, ghost at: seq<nat>)
      requires Valid()
      modifies this, fs
      ensures Valid() && old(trace) <= trace
      ensures |at| == |results| == |matches| && Visits(trace) == Visits(old(trace)) + Paths(matches)
      ensures forall i :: 0 <= i < |matches| ==>
        && |old(trace)| <= at[i] < |trace|
        && VisitGives(Replay(trace[..at[i]], matches[i].path), trace[at[i]], matches[i], openFirst, results[i])
    {
      results, at := [], [];
      for i := 0 to |matches|
        invariant Valid() && old(trace) <= trace
        invariant |at| == |results| == i && Visits(trace) == Visits(old(trace)) + Paths(matches)[..i]
        invariant forall k :: 0 <= k < i ==>
          && |old(trace)| <= at[k] < |trace|
          && VisitGives(Replay(trace[..at[k]], matches[k].path), trace[at[k]], matches[k], openFirst, results[k])
      {
        ghost var before := trace;
        var r := CaptureSingle(matches[i], openFirst);
        forall k | 0 <= k < i ensures trace[..at[k]] == before[..at[k]] && trace[at[k]] == before[at[k]] {
          assert before == trace[..|before|];
        }
        results, at := results + [r], at + [|trace| - 1];
      }
    }
  }
}
