/**
 * Per-task history of the process scanner: two record arrays and two chained hash tables that change roles at
 * every frame, so that each task's counters can be compared with those of the frame before.
 */
module PidsHistory {
  import opened Lines

  const HHASH_SIZE := 4096
  const NEWOLD_INIT := 1024
  const NEWOLD_GROW := 128

  const TWO32 := 0x1_0000_0000
  const TWO64 := 0x1_0000_0000_0000_0000

  /** Conversion of an unsigned 64-bit difference to a C int. */
  function ToInt32(x: int): int
  {
    var m := x % TWO32;
    if m < 0x8000_0000 then m else m - TWO32
  }

  /** A task as read; `start` is its start time, which tells it from another task with the same number. */
  datatype Proc = Proc(tid: int, start: nat, utime: nat, stime: nat, majFlt: nat, minFlt: nat, state: char)

  /** What a frame remembers of one task. */
  datatype Entry = Entry(pid: int, tics: nat, maj: nat, min: nat)

  /** A record of the history arrays: an entry and the link to the next record on its hash chain. */
  datatype HST = HST(entry: Entry, lnk: int)

  /** The int fields of a task that the comparison fills in. */
  datatype Deltas = Deltas(pcpu: int, majDelta: int, minDelta: int)

  /** What a caller reads from them: the tics as an unsigned int, the page faults as signed ones. */
  datatype Items = Items(ticsAllDelta: nat, fltMajDelta: int, fltMinDelta: int)

  function ItemsOf(d: Deltas): Items { Items(d.pcpu % TWO32, d.majDelta, d.minDelta) }

  function Tics(p: Proc): nat { (p.utime + p.stime) % TWO64 }

  function EntryOf(p: Proc): Entry { Entry(p.tid, Tics(p), p.majFlt, p.minFlt) }

  /** The most recent entry for `pid` in a frame, as an index; -1 when there is none. */
  function LastIndex(frame: seq<Entry>, n: nat, pid: int): (i: int)
    requires n <= |frame|
    ensures -1 <= i < n && (i >= 0 ==> frame[i].pid == pid)
  {
    if n == 0 then -1 else if frame[n - 1].pid == pid then n - 1 else LastIndex(frame, n - 1, pid)
  }

  /** The reference: differences to the previous frame; all tics for a task that was not in it. */
  function Reported(prev: seq<Entry>, p: Proc): Deltas
  {
    var i := LastIndex(prev, |prev|, p.tid);
    if i < 0 then Deltas(ToInt32(Tics(p)), 0, 0) else Since(prev[i], p)
  }

  /** The differences to an entry, as 64-bit numbers cut to ints. */
  function Since(was: Entry, p: Proc): Deltas
  {
    Deltas(ToInt32((Tics(p) - was.tics) % TWO64),
           ToInt32((p.majFlt - was.maj) % TWO64),
           ToInt32((p.minFlt - was.min) % TWO64))
  }

  // ---------- hash chains ----------

  function Bucket(pid: int): (b: nat)
    ensures b < HHASH_SIZE
  {
    pid % HHASH_SIZE
  }

  /** The last of the first `n` records that falls into bucket `b`, -1 when there is none. */
  function LastInBucket(hist: seq<HST>, n: nat, b: nat): (i: int)
    requires n <= |hist|
    ensures -1 <= i < n && (i >= 0 ==> Bucket(hist[i].entry.pid) == b)
  {
    if n == 0 then -1 else if Bucket(hist[n - 1].entry.pid) == b then n - 1 else LastInBucket(hist, n - 1, b)
  }

  /** Every link leads to the record before in the same bucket, so links strictly decrease. */
  ghost predicate Links(hist: seq<HST>, frame: seq<Entry>) {
    && |frame| <= |hist|
    && (forall i :: 0 <= i < |frame| ==> hist[i].entry == frame[i])
    && (forall i {:trigger hist[i].lnk} :: 0 <= i < |frame| ==>
          hist[i].lnk == LastInBucket(hist, i, Bucket(frame[i].pid)))
  }

  /** The table points to the latest record of each bucket. */
  ghost predicate Heads(hash: seq<int>, hist: seq<HST>, n: nat)
    requires n <= |hist|
  {
    |hash| == HHASH_SIZE && forall b :: 0 <= b < HHASH_SIZE ==> hash[b] == LastInBucket(hist, n, b)
  }

  ghost predicate Chained(hash: seq<int>, hist: seq<HST>, frame: seq<Entry>) {
    Links(hist, frame) && Heads(hash, hist, |frame|)
  }

  /** Records outside a task's bucket are not its records: the search may jump along the chain. */
  lemma {:induction false} SkipToBucket(hist: seq<HST>, frame: seq<Entry>, n: nat, pid: int)
    requires n <= |frame| <= |hist| && forall i :: 0 <= i < |frame| ==> hist[i].entry == frame[i]
    ensures LastIndex(frame, n, pid) == LastIndex(frame, LastInBucket(hist, n, Bucket(pid)) + 1, pid)
  {
    if n > 0 && Bucket(hist[n - 1].entry.pid) != Bucket(pid) {
      SkipToBucket(hist, frame, n - 1, pid);
    }
  }

  lemma {:induction false} SameBuckets(h: seq<HST>, h': seq<HST>, n: nat, b: nat)
    requires n <= |h| && n <= |h'| && forall i :: 0 <= i < n ==> h[i].entry == h'[i].entry
    ensures LastInBucket(h, n, b) == LastInBucket(h', n, b)
  {
    if n > 0 {
      SameBuckets(h, h', n - 1, b);
    }
  }

  lemma {:induction false} SameHeads(hash: seq<int>, h: seq<HST>, h': seq<HST>, n: nat)
    requires n <= |h| && n <= |h'| && (forall i :: 0 <= i < n ==> h[i].entry == h'[i].entry) && Heads(hash, h, n)
    ensures Heads(hash, h', n)
  {
    forall b | 0 <= b < HHASH_SIZE ensures hash[b] == LastInBucket(h', n, b) {
      SameBuckets(h, h', n, b);
    }
  }

  lemma {:induction false} SameLinks(h: seq<HST>, h': seq<HST>, frame: seq<Entry>)
    requires Links(h, frame) && |frame| <= |h'| && forall i :: 0 <= i < |frame| ==> h[i] == h'[i]
    ensures Links(h', frame)
  {
    forall i | 0 <= i < |frame| ensures h'[i].lnk == LastInBucket(h', i, Bucket(frame[i].pid)) {
      SameBuckets(h, h', i, Bucket(frame[i].pid));
    }
  }

  /** A longer copy of the records chains the same frame. */
  lemma {:induction false} GrownChains(hash: seq<int>, hist: seq<HST>, grown: seq<HST>, frame: seq<Entry>)
    requires Chained(hash, hist, frame) && hist <= grown
    ensures Chained(hash, grown, frame)
  {
    SameHeads(hash, hist, grown, |frame|);
    SameLinks(hist, grown, frame);
  }

  lemma {:induction false} PushHead(hash: seq<int>, hist: seq<HST>, n: nat, b: nat)
    requires n < |hist| && Heads(hash, hist, n) && b == Bucket(hist[n].entry.pid)
    ensures Heads(hash[b := n], hist, n + 1)
  {
    var heads := hash[b := n];
    forall c | 0 <= c < HHASH_SIZE ensures heads[c] == LastInBucket(hist, n + 1, c) {
      assert c != b ==> heads[c] == hash[c];
    }
  }

  /** Pushing one more record on its chain. */
  lemma {:induction false} PushChains(hash: seq<int>, hist: seq<HST>, frame: seq<Entry>, e: Entry, b: nat)
    requires Chained(hash, hist, frame) && |frame| < |hist| && b == Bucket(e.pid)
    ensures Chained(hash[b := |frame|], hist[|frame| := HST(e, hash[b])], frame + [e])
  {
    var n := |frame|;
    var h' := hist[n := HST(e, hash[b])];
    SameHeads(hash, hist, h', n);
    PushHead(hash, h', n, b);
    SameLinks(hist, h', frame);
    assert h'[n].lnk == LastInBucket(h', n, b);
    PushLink(h', frame, e);
  }

  lemma {:induction false} PushLink(hist: seq<HST>, frame: seq<Entry>, e: Entry)
    requires Links(hist, frame) && |frame| < |hist| && hist[|frame|].entry == e
    requires hist[|frame|].lnk == LastInBucket(hist, |frame|, Bucket(e.pid))
    ensures Links(hist, frame + [e])
  {
  }

  lemma {:induction false} ChainHead(hash: seq<int>, hist: seq<HST>, frame: seq<Entry>, pid: int)
    requires Chained(hash, hist, frame)
    ensures var v := hash[Bucket(pid)];
      && -1 <= v < |frame| && (v >= 0 ==> Bucket(frame[v].pid) == Bucket(pid))
      && LastIndex(frame, |frame|, pid) == LastIndex(frame, v + 1, pid)
  {
    SkipToBucket(hist, frame, |frame|, pid);
  }

  /** One step along the chain: the link is lower, in the same bucket, and nothing between matters. */
  lemma {:induction false} ChainStep(hist: seq<HST>, frame: seq<Entry>, v: nat, pid: int)
    requires Links(hist, frame) && v < |frame| && Bucket(frame[v].pid) == Bucket(pid) && frame[v].pid != pid
    ensures var w := hist[v].lnk;
      && -1 <= w < v && (w >= 0 ==> Bucket(frame[w].pid) == Bucket(pid))
      && LastIndex(frame, v + 1, pid) == LastIndex(frame, w + 1, pid)
  {
    SkipToBucket(hist, frame, v, pid);
  }

  lemma {:induction false} EmptyChains(hash: seq<int>, hist: seq<HST>)
    requires |hash| == HHASH_SIZE && forall b :: 0 <= b < HHASH_SIZE ==> hash[b] == -1
    ensures Chained(hash, hist, [])
  {
  }

  // ---------- the code ----------

  class History {
    var numTasks: nat
    var histSize: nat
    var histSav: array<HST>
    var histNew: array<HST>
    var hashSav: array<int>
    var hashNew: array<int>
    ghost var sav: seq<Entry>   // the previous frame
    ghost var cur: seq<Entry>   // the frame being read

    ghost function Arrays(): set<object>
      reads this
    {
      {histSav as object, histNew, hashSav, hashNew}
    }

    ghost predicate Shape()
      reads this
    {
      && histSav != histNew && hashSav != hashNew
      && histSav.Length == histSize && histNew.Length == histSize
      && hashSav.Length == HHASH_SIZE && hashNew.Length == HHASH_SIZE
      && numTasks == |cur| < histSize && |sav| <= histSize
    }

    ghost predicate Valid()
      reads this, histSav, histNew, hashSav, hashNew
    {
      && Shape()
      && Chained(hashSav[..], histSav[..], sav)
      && Chained(hashNew[..], histNew[..], cur)
    }

    /** The part of procps_pids_new that sets the history up, and pids_config_history. */
    constructor ()
      ensures Valid() && sav == [] && cur == []
      ensures fresh(Arrays())
    {
      numTasks, histSize := 0, NEWOLD_INIT;
      var zero := HST(Entry(0, 0, 0, 0), 0);
      histSav := new HST[NEWOLD_INIT](_ => zero);
      histNew := new HST[NEWOLD_INIT](_ => zero);
      hashSav := new int[HHASH_SIZE](_ => -1);
      hashNew := new int[HHASH_SIZE](_ => -1);
      sav, cur := [], [];
      new;
      EmptyChains(hashSav[..], histSav[..]);
      EmptyChains(hashNew[..], histNew[..]);
    }

    /** pids_histget: walks the chain of the previous frame; the link indices only ever fall. */
    method HistGet(pid: int) returns (v: int)
      requires Valid()
      ensures v == LastIndex(sav, |sav|, pid)
      ensures v >= 0 ==> v < histSav.Length && histSav[v].entry == sav[v]
    {
      ghost var hist := histSav[..];
      ChainHead(hashSav[..], hist, sav, pid);
      v := hashSav[Bucket(pid)];
      while v > -1
        invariant -1 <= v < |sav|
        invariant v >= 0 ==> Bucket(sav[v].pid) == Bucket(pid)
        invariant LastIndex(sav, |sav|, pid) == LastIndex(sav, v + 1, pid)
        decreases v
      {
        assert histSav[v] == hist[v];
        if histSav[v].entry.pid == pid {
          return;
        }
        ChainStep(hist, sav, v, pid);
        v := histSav[v].lnk;
      }
    }

    /** Both record arrays get room for NEWOLD_GROW more records; what they hold is kept. */
    method Grow()
      requires Valid()
      modifies this
      ensures Valid() && sav == old(sav) && cur == old(cur) && hashSav == old(hashSav) && hashNew == old(hashNew)
      ensures fresh(histSav) && fresh(histNew) && histSize == old(histSize) + NEWOLD_GROW
    {
      ghost var oldSav, oldNew := histSav[..], histNew[..];
      var s := Realloc(histSav, NEWOLD_GROW);
      var n := Realloc(histNew, NEWOLD_GROW);
      histSize := histSize + NEWOLD_GROW;
      histSav, histNew := s, n;
      GrownChains(hashSav[..], oldSav, histSav[..], sav);
      GrownChains(hashNew[..], oldNew, histNew[..], cur);
    }

    /** pids_histput, after the record of the new task was filled in. */
    method HistPut(e: Entry)
      requires Valid() && numTasks + 1 < histSize
      modifies this`numTasks, this`cur, histNew, hashNew
      ensures Valid() && cur == old(cur) + [e]
    {
      var slot := numTasks;
      var b := Bucket(e.pid);
      PushChains(hashNew[..], histNew[..], cur, e, b);
      assert hashNew[..][b] == hashNew[b];
      histNew[slot] := HST(e, hashNew[b]);
      hashNew[b] := slot;
      assert histNew[..] == old(histNew[..])[slot := HST(e, old(hashNew[..])[b])];
      assert hashNew[..] == old(hashNew[..])[b := slot];
      cur := cur + [e];
      numTasks := numTasks + 1;
    }

    /** pids_make_hist: records the task in the new frame and compares it with the previous one. */
    method MakeHist(p: Proc) returns (d: Deltas)
      requires Valid()
      modifies this, histNew, hashNew
      ensures Valid() && sav == old(sav) && cur == old(cur) + [EntryOf(p)]
      ensures fresh(Arrays() - old(Arrays()))
      ensures d == Reported(old(sav), p)
    {
      if numTasks + 1 >= histSize {
        Grow();
      }
      HistPut(EntryOf(p));
      d := Compare(p);
    }

    method Compare(p: Proc) returns (d: Deltas)
      requires Valid()
      ensures d == Reported(sav, p)
    {
      var h := HistGet(p.tid);
      if h >= 0 {
        d := Since(histSav[h].entry, p);
      } else {
        d := Deltas(ToInt32(Tics(p)), 0, 0);
      }
    }

    /** pids_toggle_history: the frame just read becomes the previous one. */
    method Toggle()
      requires Valid()
      modifies this, hashSav
      ensures Valid() && sav == old(cur) && cur == []
      ensures Arrays() == old(Arrays())
    {
      histSav, histNew := histNew, histSav;
      hashSav, hashNew := hashNew, hashSav;
      sav, cur := cur, [];
      numTasks := 0;
      Clear(hashNew);
      assert hashSav[..] == old(hashNew[..]) && histSav[..] == old(histNew[..]);
      EmptyChains(hashNew[..], histNew[..]);
    }
  }

  /** The copy of the empty table image. */
  method Clear(hash: array<int>)
    modifies hash
    ensures forall b :: 0 <= b < hash.Length ==> hash[b] == -1
  {
    forall b | 0 <= b < hash.Length {
      hash[b] := -1;
    }
  }

  method Realloc(a: array<HST>, extra: nat) returns (b: array<HST>)
    ensures fresh(b) && b.Length == a.Length + extra && b[..a.Length] == a[..]
  {
    var zero := HST(Entry(0, 0, 0, 0), 0);
    b := new HST[a.Length + extra](_ => zero);
    forall i | 0 <= i < a.Length {
      b[i] := a[i];
    }
  }

  // ---------- runs of frames ----------

  function Frame(procs: seq<Proc>): seq<Entry>
  {
    seq(|procs|, i requires 0 <= i < |procs| => EntryOf(procs[i]))
  }

  ghost predicate Placed(frames: seq<seq<Proc>>, at: seq<nat>) {
    |frames| == |at| && forall f :: 0 <= f < |frames| ==> at[f] < |frames[f]|
  }

  /** Task `tid` stands at `at[f]` in frame `f` and nowhere else in it, and not in the frame before the first. */
  ghost predicate Present(frames: seq<seq<Proc>>, at: seq<nat>, tid: int, absent: seq<Entry>) {
    && Placed(frames, at)
    && (forall f, i {:trigger frames[f][i]} :: 0 <= f < |frames| && 0 <= i < |frames[f]| ==>
          (frames[f][i].tid == tid <==> i == at[f]))
    && forall i :: 0 <= i < |absent| ==> absent[i].pid != tid
  }

  /** The tics of the task frame by frame. */
  ghost function TicsOver(frames: seq<seq<Proc>>, at: seq<nat>): seq<nat>
    requires Placed(frames, at)
  {
    seq(|frames|, k requires 0 <= k < |frames| => Tics(frames[k][at[k]]))
  }

  function FrameBefore(frames: seq<seq<Proc>>, absent: seq<Entry>, k: nat): seq<Entry>
    requires k <= |frames|
  {
    if k == 0 then absent else Frame(frames[k - 1])
  }

  function TicsItem(prev: seq<Entry>, p: Proc): nat
  {
    ItemsOf(Reported(prev, p)).ticsAllDelta
  }

  /** The item reported for the task frame by frame, each against the frame before. */
  ghost function ReportedOver(frames: seq<seq<Proc>>, at: seq<nat>, absent: seq<Entry>): seq<nat>
    requires Placed(frames, at)
  {
    seq(|frames|, k requires 0 <= k < |frames| => TicsItem(FrameBefore(frames, absent, k), frames[k][at[k]]))
  }

  function Sum(xs: seq<nat>, n: nat): nat
    requires n <= |xs|
  {
    if n == 0 then 0 else Sum(xs, n - 1) + xs[n - 1]
  }

  /** The value before place `k`, 0 before the first. */
  function Before(xs: seq<nat>, k: nat): nat
    requires k <= |xs|
  {
    if k == 0 then 0 else xs[k - 1]
  }

  lemma {:induction false} OnlyIndex(frame: seq<Entry>, n: nat, pid: int, i: nat)
    requires i < n <= |frame| && frame[i].pid == pid
    requires forall j :: i < j < n ==> frame[j].pid != pid
    ensures LastIndex(frame, n, pid) == i
  {
    if n - 1 > i {
      OnlyIndex(frame, n - 1, pid, i);
    }
  }

  lemma {:induction false} NoIndex(frame: seq<Entry>, n: nat, pid: int)
    requires n <= |frame| && forall j :: 0 <= j < n ==> frame[j].pid != pid
    ensures LastIndex(frame, n, pid) == -1
  {
    if n > 0 {
      NoIndex(frame, n - 1, pid);
    }
  }

  /** What is gained between two readings, modulo the width of the item. */
  function Gain(was: int, now: int): nat
  {
    (now - was) % TWO32
  }

  /** What a task is reported with in a frame: what it gained since the frame before, modulo the width of the item. */
  lemma {:induction false} TaskReports(frames: seq<seq<Proc>>, at: seq<nat>, tid: int, absent: seq<Entry>, k: nat)
    requires Present(frames, at, tid, absent) && k < |frames|
    ensures var tics := TicsOver(frames, at);
      ReportedOver(frames, at, absent)[k] == Gain(Before(tics, k), tics[k])
  {
    ItemIs(frames, at, tid, absent, k, TicsOver(frames, at));
  }

  lemma {:induction false} ItemIs(frames: seq<seq<Proc>>, at: seq<nat>, tid: int, absent: seq<Entry>, k: nat,
                                  tics: seq<nat>)
    requires Present(frames, at, tid, absent) && k < |frames| && tics == TicsOver(frames, at)
    ensures TicsItem(FrameBefore(frames, absent, k), frames[k][at[k]]) == Gain(Before(tics, k), tics[k])
  {
    var prev := FrameBefore(frames, absent, k);
    if k == 0 {
      NoIndex(prev, |prev|, tid);
      NewTask(prev, frames[k][at[k]]);
    } else {
      OnlyIndex(prev, |prev|, tid, at[k - 1]);
      KnownTask(prev, frames[k][at[k]], at[k - 1]);
    }
  }

  lemma {:induction false} NewTask(prev: seq<Entry>, p: Proc)
    requires LastIndex(prev, |prev|, p.tid) < 0
    ensures TicsItem(prev, p) == Gain(0, Tics(p))
  {
    assert Tics(p) % TWO64 == Tics(p);
    Widths(Tics(p));
  }

  lemma {:induction false} KnownTask(prev: seq<Entry>, p: Proc, i: nat)
    requires LastIndex(prev, |prev|, p.tid) == i
    ensures TicsItem(prev, p) == Gain(prev[i].tics, Tics(p))
  {
    Widths(Tics(p) - prev[i].tics);
  }

  lemma {:induction false} Remainder(x: int, q: int, t: int)
    requires x == q * TWO32 + t && 0 <= t < TWO32
    ensures x % TWO32 == t
  {
  }

  /** The 64-bit difference, as an int and read as an unsigned int, is the difference modulo 2^32. */
  lemma {:induction false} Widths(x: int)
    ensures ToInt32(x % TWO64) % TWO32 == x % TWO32
  {
    var q, m := x / TWO64, x % TWO64;
    var r, t := m / TWO32, m % TWO32;
    Remainder(x, q * TWO32 + r, t);
    Remainder(ToInt32(m), if t < 0x8000_0000 then 0 else -1, t);
  }

  /** Each place holds what was gained. */
  ghost predicate Gains(xs: seq<nat>, tics: seq<nat>) {
    |xs| == |tics| && forall k {:trigger xs[k]} :: 0 <= k < |xs| ==> xs[k] == Gain(Before(tics, k), tics[k])
  }

  /** The multiples of 2^32 that the items leave out: positive for wide gains, negative for tics that fall. */
  function Carry(tics: seq<nat>, n: nat): int
    requires n <= |tics|
  {
    if n == 0 then 0 else Carry(tics, n - 1) + (tics[n - 1] - Before(tics, n - 1)) / TWO32
  }

  lemma {:induction false} GainsAndCarry(xs: seq<nat>, tics: seq<nat>, n: nat)
    requires Gains(xs, tics) && n <= |xs|
    ensures Sum(xs, n) + TWO32 * Carry(tics, n) == Before(tics, n)
  {
    if n > 0 {
      GainsAndCarry(xs, tics, n - 1);
      CarryStep(Before(tics, n - 1), tics[n - 1]);
    }
  }

  lemma {:induction false} CarryStep(was: int, now: int)
    ensures was + Gain(was, now) + TWO32 * ((now - was) / TWO32) == now
  {
  }

  /** Frame `k` adds fewer than 2^32 tics, and takes none away. */
  ghost predicate Narrow(tics: seq<nat>, k: nat)
    requires k < |tics|
  {
    0 <= tics[k] - Before(tics, k) < TWO32
  }

  lemma {:induction false} ExactStep(was: int, now: int)
    ensures was + Gain(was, now) == now <==> 0 <= now - was < TWO32
  {
  }

  lemma {:induction false} GainsExactIff(xs: seq<nat>, tics: seq<nat>)
    requires Gains(xs, tics)
    ensures (forall m :: 0 <= m <= |xs| ==> Sum(xs, m) == Before(tics, m)) <==>
      forall k :: 0 <= k < |xs| ==> Narrow(tics, k)
  {
    var exact := (m: nat) => m <= |xs| && Sum(xs, m) == Before(tics, m);
    var narrow := (k: nat) => k < |xs| && Narrow(tics, k);
    forall k | 0 <= k < |xs| && exact(k) ensures exact(k + 1) <==> narrow(k) {
      ExactStep(Before(tics, k), tics[k]);
    }
    HoldsAllAlongIff(exact, narrow, |xs|);
    assert forall m :: 0 <= m <= |xs| ==> (exact(m) <==> Sum(xs, m) == Before(tics, m));
    assert forall k :: 0 <= k < |xs| ==> (narrow(k) <==> Narrow(tics, k));
  }

  lemma {:induction false} ReportsAreGains(frames: seq<seq<Proc>>, at: seq<nat>, tid: int, absent: seq<Entry>)
    requires Present(frames, at, tid, absent)
    ensures Gains(ReportedOver(frames, at, absent), TicsOver(frames, at))
  {
    forall k | 0 <= k < |frames|
      ensures ReportedOver(frames, at, absent)[k] == Gain(Before(TicsOver(frames, at), k), TicsOver(frames, at)[k])
    {
      TaskReports(frames, at, tid, absent, k);
    }
  }

  /**
   * Conservation: what is reported over a run of frames adds up to the current tics, but for the multiples of 2^32
   * that the width of the item leaves out.
   */
  lemma {:induction false} DeltasAddUp(frames: seq<seq<Proc>>, at: seq<nat>, tid: int, absent: seq<Entry>)
    requires Present(frames, at, tid, absent)
    ensures var tics := TicsOver(frames, at);
      Sum(ReportedOver(frames, at, absent), |frames|) + TWO32 * Carry(tics, |frames|) == Before(tics, |frames|)
  {
    ReportsAreGains(frames, at, tid, absent);
    GainsAndCarry(ReportedOver(frames, at, absent), TicsOver(frames, at), |frames|);
  }

  /** The sum is exact all along a run if and only if no frame adds 2^32 tics or more, and none takes any away. */
  lemma {:induction false} DeltasExactIff(frames: seq<seq<Proc>>, at: seq<nat>, tid: int, absent: seq<Entry>)
    requires Present(frames, at, tid, absent)
    ensures var xs, tics := ReportedOver(frames, at, absent), TicsOver(frames, at);
      (forall m :: 0 <= m <= |frames| ==> Sum(xs, m) == Before(tics, m)) <==>
        forall k :: 0 <= k < |frames| ==> Narrow(tics, k)
  {
    ReportsAreGains(frames, at, tid, absent);
    GainsExactIff(ReportedOver(frames, at, absent), TicsOver(frames, at));
  }

  /** A failing input: 2^32 tics in one frame are reported as none. */
  lemma {:induction false} WideDeltaLost(absent: seq<Entry>)
    requires forall i :: 0 <= i < |absent| ==> absent[i].pid != 1
    ensures var frames := [[Proc(1, 0, TWO32, 0, 0, 0, 'R')]];
      TicsOver(frames, [0]) == [TWO32] && ReportedOver(frames, [0], absent) == [0]
  {
    var frames := [[Proc(1, 0, TWO32, 0, 0, 0, 'R')]];
    TaskReports(frames, [0], 1, absent, 0);
  }

  /** Another: a number used again between two frames, by a task that has run for 5 tics after one that ran for 10. */
  lemma {:induction false} ReusedPid(absent: seq<Entry>)
    requires forall i :: 0 <= i < |absent| ==> absent[i].pid != 1
    ensures var frames := [[Proc(1, 100, 10, 0, 0, 0, 'R')], [Proc(1, 200, 5, 0, 0, 0, 'R')]];
      var xs := ReportedOver(frames, [0, 0], absent);
      TicsOver(frames, [0, 0]) == [10, 5] && xs == [10, TWO32 - 5] && Sum(xs, 2) != 5
  {
    var frames := [[Proc(1, 100, 10, 0, 0, 0, 'R')], [Proc(1, 200, 5, 0, 0, 0, 'R')]];
    assert Present(frames, [0, 0], 1, absent);
    TaskReports(frames, [0, 0], 1, absent, 0);
    TaskReports(frames, [0, 0], 1, absent, 1);
    var xs := ReportedOver(frames, [0, 0], absent);
    assert Sum(xs, 2) == Sum(xs, 1) + xs[1] && Sum(xs, 1) == Sum(xs, 0) + xs[0];
  }

  // ---------- a task's own gain ----------

  /** Where the frame before holds the number of a task, -1 if it does not. */
  function PlaceBefore(prev: seq<Proc>, p: Proc): (i: int)
    ensures -1 <= i < |prev|
  {
    LastIndex(Frame(prev), |prev|, p.tid)
  }

  /** What the task itself, by number and start time, had in the frame before. */
  function OwnBefore(prev: seq<Proc>, p: Proc): nat
  {
    var i := PlaceBefore(prev, p);
    if i >= 0 && prev[i].start == p.start then Tics(prev[i]) else 0
  }

  lemma {:induction false} OwnStep(was: int, own: int, now: int)
    requires own == was || own == 0
    ensures Gain(was, now) == now - own <==> 0 <= now - own < TWO32 && (own == was || was % TWO32 == 0)
  {
    if own == 0 {
      var q, t := (now - was) / TWO32, Gain(was, now);
      assert now - was == q * TWO32 + t;
      if was % TWO32 == 0 {
        var k := was / TWO32;
        assert now == (q + k) * TWO32 + t;
        if 0 <= now < TWO32 {
          Remainder(now, 0, now);
          Remainder(now, q + k, t);
        }
      }
      if t == now {
        Remainder(was, -q, 0);
      }
    }
  }

  /**
   * When the item is the task's own gain: a gain that fits it, and the number was not in the frame before, or was
   * the same task's, or another's whose tics were a multiple of 2^32.
   */
  lemma {:induction false} OwnGainIff(prev: seq<Proc>, p: Proc)
    ensures var i, own := PlaceBefore(prev, p), Tics(p) - OwnBefore(prev, p);
      TicsItem(Frame(prev), p) == own <==>
        0 <= own < TWO32 && (i < 0 || prev[i].start == p.start || Tics(prev[i]) % TWO32 == 0)
  {
    var i := PlaceBefore(prev, p);
    if i < 0 {
      NewTask(Frame(prev), p);
      OwnStep(0, 0, Tics(p));
    } else {
      KnownTask(Frame(prev), p, i);
      OwnStep(Tics(prev[i]), OwnBefore(prev, p), Tics(p));
    }
  }
}
