/** Fetching all processes into result stacks: extents of stacks, the anchor that strings them together, and counts. */
module PidsFetch {
  import opened PidsHistory

  const STACKS_INIT := 1024
  const STACKS_GROW := 128

  /** What the items of a stack are assigned from. */
  datatype Row = Unassigned | Row(proc: Proc, items: Items)

  /** The row of a process: with history, its items against the previous frame. */
  function RowFor(p: Proc, history: bool, prev: seq<Entry>): Row
  {
    Row(p, if history then ItemsOf(Reported(prev, p)) else Items(0, 0, 0))
  }

  ghost function RowsFor(procs: seq<Proc>, history: bool, prev: seq<Entry>): (rows: seq<Row>)
    ensures |rows| == |procs|
  {
    seq(|procs|, i requires 0 <= i < |procs| => RowFor(procs[i], history, prev))
  }

  ghost predicate IsRow(rows: seq<Row>, procs: seq<Proc>, history: bool, prev: seq<Entry>, i: nat)
    requires i < |procs| == |rows|
  {
    rows[i] == RowFor(procs[i], history, prev)
  }

  ghost predicate AreRows(rows: seq<Row>, procs: seq<Proc>, history: bool, prev: seq<Entry>) {
    |rows| == |procs| && forall i {:trigger IsRow(rows, procs, history, prev, i)} ::
      0 <= i < |procs| ==> IsRow(rows, procs, history, prev, i)
  }

  class Stack {
    ghost const slot: nat   // its place among all stacks
    var row: Row

    constructor (ghost slot: nat)
      ensures row == Unassigned && this.slot == slot
    {
      row := Unassigned;
      this.slot := slot;
    }
  }

  datatype Counts = Counts(total: nat, running: nat, sleeping: nat, stopped: nat, zombied: nat, other: nat)

  const NO_COUNTS := Counts(0, 0, 0, 0, 0, 0)

  ghost predicate Distinct(s: seq<Stack>) {
    forall i, j :: 0 <= i < j < |s| ==> s[i] != s[j]
  }

  /** Every stack knows its place, counted from `base`, so no two are the same. */
  ghost predicate InSlots(s: seq<Stack>, base: nat) {
    forall i :: 0 <= i < |s| ==> s[i].slot == base + i
  }

  lemma {:induction false} InSlotsDistinct(s: seq<Stack>, base: nat)
    requires InSlots(s, base)
    ensures Distinct(s)
  {
  }

  /** Processes whose state letter is one of `states`. */
  function Count(procs: seq<Proc>, states: set<char>): nat
  {
    if procs == [] then 0
    else Count(procs[..|procs| - 1], states) + if procs[|procs| - 1].state in states then 1 else 0
  }

  const KNOWN_STATES := {'R', 'D', 'S', 't', 'T', 'Z'}

  /** The counts are those of the processes read, and the five of them make up the total. */
  ghost predicate CountsOf(c: Counts, procs: seq<Proc>) {
    && c.total == |procs|
    && c.running == Count(procs, {'R'}) && c.sleeping == Count(procs, {'D', 'S'})
    && c.stopped == Count(procs, {'t', 'T'}) && c.zombied == Count(procs, {'Z'})
    && c.total == c.running + c.sleeping + c.stopped + c.zombied + c.other
  }

  /** Hence the fifth count is what is left over. */
  lemma {:induction false} OtherCounts(c: Counts, procs: seq<Proc>)
    requires CountsOf(c, procs)
    ensures c.other == |procs| - Count(procs, KNOWN_STATES)
  {
    KnownAddUp(procs);
  }

  lemma {:induction false} KnownAddUp(procs: seq<Proc>)
    ensures Count(procs, KNOWN_STATES) ==
      Count(procs, {'R'}) + Count(procs, {'D', 'S'}) + Count(procs, {'t', 'T'}) + Count(procs, {'Z'})
    decreases |procs|
  {
    if procs != [] {
      KnownAddUp(procs[..|procs| - 1]);
    }
  }

  /** The switch of pids_proc_tally. */
  function Tally(c: Counts, p: Proc): Counts
  {
    var t := c.(total := c.total + 1);
    match p.state
    case 'R' => t.(running := c.running + 1)
    case 'D' => t.(sleeping := c.sleeping + 1)
    case 'S' => t.(sleeping := c.sleeping + 1)
    case 't' => t.(stopped := c.stopped + 1)
    case 'T' => t.(stopped := c.stopped + 1)
    case 'Z' => t.(zombied := c.zombied + 1)
    case _ => t.(other := c.other + 1)
  }

  function TallyAll(procs: seq<Proc>): Counts
  {
    if procs == [] then NO_COUNTS else Tally(TallyAll(procs[..|procs| - 1]), procs[|procs| - 1])
  }

  lemma {:induction false} TallyCounts(procs: seq<Proc>)
    ensures CountsOf(TallyAll(procs), procs)
    decreases |procs|
  {
    if procs != [] {
      TallyCounts(procs[..|procs| - 1]);
    }
  }

  lemma {:induction false} TallyNext(procs: seq<Proc>, n: nat)
    requires n < |procs|
    ensures TallyAll(procs[..n + 1]) == Tally(TallyAll(procs[..n]), procs[n])
  {
    assert procs[..n + 1][..n] == procs[..n];
  }

  /** pids_stacks_alloc: new stacks, all different. */
  method StacksAlloc(n: nat, ghost base: nat) returns (ext: seq<Stack>)
    ensures |ext| == n && InSlots(ext, base) && Distinct(ext)
    ensures forall k :: 0 <= k < |ext| ==> fresh(ext[k])
  {
    ext := [];
    for i := 0 to n
      invariant |ext| == i && InSlots(ext, base)
      invariant forall k :: 0 <= k < |ext| ==> fresh(ext[k])
    {
      var s := new Stack(base + i);
      ext := ext + [s];
    }
    InSlotsDistinct(ext, base);
  }

  lemma {:induction false} FrameNext(procs: seq<Proc>, n: nat)
    requires n < |procs|
    ensures Frame(procs)[..n] + [EntryOf(procs[n])] == Frame(procs)[..n + 1]
  {
  }

  class PidsInfo {
    const hist: History
    var anchor: seq<Stack>        // consolidated extents
    var extents: seq<seq<Stack>>  // newest first
    var results: seq<Stack>       // handed to the caller
    var savedRoom: nat            // room for results and their NULL delimiter
    var counts: Counts
    const historyYes: bool
    ghost var repr: set<object>

    ghost predicate Valid()
      reads this, hist, hist.Arrays()
    {
      && this in repr && hist in repr && hist.Arrays() <= repr && (forall i :: 0 <= i < |anchor| ==> anchor[i] in repr)
      && hist.Valid()
      && InSlots(anchor, 0) && anchor == Consolidated(extents)
    }

    constructor (historyYes: bool)
      ensures Valid() && fresh(repr) && hist.cur == [] && this.historyYes == historyYes
    {
      var h := new History();
      hist := h;
      anchor, extents, results, savedRoom, counts := [], [], [], 0, NO_COUNTS;
      this.historyYes := historyYes;
      repr := {this, h} + h.Arrays();
    }

    /** The growth of anchor and extents, on first use and whenever all stacks are in use. */
    method MoreStacks(n: nat)
      requires Valid()
      modifies this`anchor, this`extents, this`repr
      ensures Valid() && old(anchor) <= anchor && |anchor| == |old(anchor)| + n
      ensures fresh(repr - old(repr)) && old(repr) <= repr
    {
      var ext := StacksAlloc(n, |anchor|);
      repr := repr + set s | s in ext;
      extents := [ext] + extents;
      anchor := anchor + ext;
      assert extents[1..] == old(extents);
    }

    /** History and rows after `n` processes, whose rows are to be `rows`. */
    ghost predicate Noted(procs: seq<Proc>, n: nat, prev: seq<Entry>, rows: seq<Row>)
      requires n <= |procs| == |rows|
      reads this, hist, anchor
    {
      && n <= |anchor| && hist.sav == prev
      && hist.cur == (if historyYes then Frame(procs)[..n] else [])
      && (forall i :: 0 <= i < n ==> anchor[i].row == rows[i])
    }

    /** The fetch after `n` processes. */
    ghost predicate Fetched(procs: seq<Proc>, n: nat, prev: seq<Entry>, rows: seq<Row>)
      requires n <= |procs| == |rows|
      reads this, hist, anchor
    {
      Noted(procs, n, prev, rows) && counts == TallyAll(procs[..n])
    }

    /** pids_make_hist where it is wanted, then pids_assign_results. */
    method Assign(p: Proc, k: nat)
      requires Valid() && k < |anchor|
      modifies this`repr, hist, hist.Arrays(), anchor[k]
      ensures Valid() && fresh(repr - old(repr))
      ensures hist.sav == old(hist.sav) && anchor[k].row == RowFor(p, historyYes, old(hist.sav))
      ensures hist.cur == if historyYes then old(hist.cur) + [EntryOf(p)] else old(hist.cur)
    {
      var d := Deltas(0, 0, 0);
      if historyYes {
        d := hist.MakeHist(p);
        repr := repr + hist.Arrays();
      }
      anchor[k].row := Row(p, ItemsOf(d));
    }

    /** One process: note its history, assign it to the next stack. */
    method AssignNext(procs: seq<Proc>, n: nat, ghost prev: seq<Entry>, ghost rows: seq<Row>)
      requires Valid() && n < |procs| == |rows| && Noted(procs, n, prev, rows) && n < |anchor|
      requires IsRow(rows, procs, historyYes, prev, n)
      modifies this`repr, hist, hist.Arrays(), anchor[n]
      ensures Valid() && fresh(repr - old(repr)) && Noted(procs, n + 1, prev, rows)
    {
      FrameNext(procs, n);
      Assign(procs[n], n);
      forall i | 0 <= i < n ensures anchor[i].row == rows[i] {
        assert anchor[i] != anchor[n];
      }
    }

    /** One process: make room for it, tally it, note and assign it. */
    method FetchOne(procs: seq<Proc>, n: nat, ghost prev: seq<Entry>, ghost rows: seq<Row>)
      requires Valid() && n < |procs| == |rows| && Fetched(procs, n, prev, rows)
      requires IsRow(rows, procs, historyYes, prev, n)
      modifies repr
      ensures Valid() && Fetched(procs, n + 1, prev, rows)
      ensures fresh(repr - old(repr)) && old(anchor) <= anchor
    {
      MakeRoom(procs, n, prev, rows);
      TallyAndAssign(procs, n, prev, rows);
    }

    method TallyAndAssign(procs: seq<Proc>, n: nat, ghost prev: seq<Entry>, ghost rows: seq<Row>)
      requires Valid() && n < |procs| == |rows| && Fetched(procs, n, prev, rows) && n < |anchor|
      requires IsRow(rows, procs, historyYes, prev, n)
      modifies repr
      ensures Valid() && Fetched(procs, n + 1, prev, rows)
      ensures fresh(repr - old(repr)) && anchor == old(anchor)
    {
      TallyNext(procs, n);
      counts := Tally(counts, procs[n]);
      AssignNext(procs, n, prev, rows);
    }

    method MakeRoom(ghost procs: seq<Proc>, n: nat, ghost prev: seq<Entry>, ghost rows: seq<Row>)
      requires Valid() && n < |procs| == |rows| && Fetched(procs, n, prev, rows)
      modifies this`anchor, this`extents, this`repr
      ensures Valid() && n < |anchor| && Fetched(procs, n, prev, rows)
      ensures fresh(repr - old(repr)) && old(anchor) <= anchor
    {
      if !(n < |anchor|) {
        MoreStacks(STACKS_GROW);
      }
    }

    /** The first allocation, and the turn of the history. */
    method Begin(ghost procs: seq<Proc>, ghost rows: seq<Row>)
      requires Valid() && |procs| == |rows|
      modifies this`anchor, this`extents, this`counts, this`repr, hist, hist.hashSav
      ensures Valid() && Fetched(procs, 0, old(hist.cur), rows)
      ensures fresh(repr - old(repr)) && old(anchor) <= anchor
    {
      if anchor == [] {
        MoreStacks(STACKS_INIT);
      }
      hist.Toggle();
      counts := NO_COUNTS;
    }

    /**
     * pids_stacks_fetch: distinct stacks, the i-th assigned from the i-th process read, with deltas against the
     * previous fetch; the processes read become the frame for the next one.
     */
    method Fetch(procs: seq<Proc>) returns (n: nat)
      requires Valid()
      modifies repr
      ensures Valid() && fresh(repr - old(repr)) && old(anchor) <= anchor
      ensures n == |procs| == |results| && Distinct(results) && |results| < savedRoom
      ensures CountsOf(counts, procs)
      ensures forall i :: 0 <= i < n ==> results[i].row == RowFor(procs[i], historyYes, old(hist.cur))
      ensures hist.cur == if historyYes then Frame(procs) else []
    {
      FetchRows(procs, RowsFor(procs, historyYes, hist.cur));
      n := |procs|;
    }

    method FetchRows(procs: seq<Proc>, ghost rows: seq<Row>)
      requires Valid() && AreRows(rows, procs, historyYes, hist.cur)
      modifies repr
      ensures Valid() && fresh(repr - old(repr)) && old(anchor) <= anchor
      ensures |procs| == |results| && Distinct(results) && |results| < savedRoom
      ensures CountsOf(counts, procs)
      ensures forall i :: 0 <= i < |procs| ==> results[i].row == rows[i]
      ensures hist.cur == if historyYes then Frame(procs) else []
    {
      ghost var prev := hist.cur;
      Begin(procs, rows);
      ReadAndFinish(procs, prev, rows);
    }

    method ReadAndFinish(procs: seq<Proc>, ghost prev: seq<Entry>, ghost rows: seq<Row>)
      requires Valid() && AreRows(rows, procs, historyYes, prev) && Fetched(procs, 0, prev, rows)
      modifies repr
      ensures Valid() && fresh(repr - old(repr)) && old(anchor) <= anchor
      ensures |procs| == |results| && Distinct(results) && |results| < savedRoom
      ensures CountsOf(counts, procs)
      ensures forall i :: 0 <= i < |procs| ==> results[i].row == rows[i]
      ensures hist.cur == if historyYes then Frame(procs) else []
    {
      ReadAll(procs, prev, rows);
      Finish(procs, prev, rows);
    }

    /** The read loop. */
    method ReadAll(procs: seq<Proc>, ghost prev: seq<Entry>, ghost rows: seq<Row>)
      requires Valid() && AreRows(rows, procs, historyYes, prev) && Fetched(procs, 0, prev, rows)
      modifies repr
      ensures Valid() && Fetched(procs, |procs|, prev, rows)
      ensures fresh(repr - old(repr)) && old(anchor) <= anchor
    {
      var n := 0;
      while n < |procs|
        invariant 0 <= n <= |procs| && Valid() && Fetched(procs, n, prev, rows)
        invariant fresh(repr - old(repr)) && old(anchor) <= anchor
      {
        assert IsRow(rows, procs, historyYes, prev, n);
        FetchOne(procs, n, prev, rows);
        n := n + 1;
      }
    }

    method Finish(procs: seq<Proc>, ghost prev: seq<Entry>, ghost rows: seq<Row>)
      requires Valid() && |rows| == |procs| && Fetched(procs, |procs|, prev, rows)
      modifies this`results, this`savedRoom
      ensures Valid() && CountsOf(counts, procs) && hist.cur == (if historyYes then Frame(procs) else [])
      ensures |procs| == |results| && Distinct(results) && |results| < savedRoom
      ensures forall i :: 0 <= i < |procs| ==> results[i].row == rows[i]
    {
      var n := |procs|;
      assert procs[..n] == procs;
      TallyCounts(procs);
      if savedRoom < n + 1 {
        savedRoom := n + 1;
      }
      results := anchor[..n];
      InSlotsDistinct(results, 0);
      assert Frame(procs)[..n] == Frame(procs);
    }
  }

  /** One fetch, and the tics it reports for the i-th process. */
  method FetchTics(info: PidsInfo, procs: seq<Proc>, i: nat) returns (tics: nat)
    requires info.Valid() && info.historyYes && i < |procs|
    modifies info.repr
    ensures info.Valid() && fresh(info.repr - old(info.repr))
    ensures info.hist.cur == Frame(procs)
    ensures tics == TicsItem(old(info.hist.cur), procs[i])
  {
    var n := info.Fetch(procs);
    tics := info.results[i].row.items.ticsAllDelta;
  }

  /** A caller that adds up the tics of one task over successive fetches. */
  method FetchRun(info: PidsInfo, frames: seq<seq<Proc>>, at: seq<nat>, tid: int) returns (total: nat)
    requires info.Valid() && info.historyYes && Present(frames, at, tid, info.hist.cur)
    modifies info.repr
    ensures total == Sum(ReportedOver(frames, at, old(info.hist.cur)), |frames|)
    ensures total + TWO32 * Carry(TicsOver(frames, at), |frames|) == Before(TicsOver(frames, at), |frames|)
    ensures total == Before(TicsOver(frames, at), |frames|) <==> Carry(TicsOver(frames, at), |frames|) == 0
    ensures (forall k :: 0 <= k < |frames| ==> Narrow(TicsOver(frames, at), k)) ==>
      total == Before(TicsOver(frames, at), |frames|)
  {
    DeltasAddUp(frames, at, tid, info.hist.cur);
    DeltasExactIff(frames, at, tid, info.hist.cur);
    total := FetchSum(info, frames, at, 0, info.hist.cur);
  }

  /** From frame `k` on. */
  method FetchSum(info: PidsInfo, frames: seq<seq<Proc>>, at: seq<nat>, k: nat, ghost absent: seq<Entry>)
    returns (total: nat)
    requires info.Valid() && info.historyYes && Placed(frames, at) && k <= |frames|
    requires info.hist.cur == FrameBefore(frames, absent, k)
    modifies info.repr
    ensures total == Sum(ReportedOver(frames, at, absent), |frames|) - Sum(ReportedOver(frames, at, absent), k)
    decreases |frames| - k
  {
    total := 0;
    if k < |frames| {
      total := FetchTics(info, frames[k], at[k]);
      ReportedNext(frames, at, absent, k);
      var rest := FetchSum(info, frames, at, k + 1, absent);
      total := total + rest;
    }
  }

  lemma {:induction false} ReportedNext(frames: seq<seq<Proc>>, at: seq<nat>, absent: seq<Entry>, k: nat)
    requires Placed(frames, at) && k < |frames|
    ensures var xs := ReportedOver(frames, at, absent);
      Sum(xs, k + 1) == Sum(xs, k) + TicsItem(FrameBefore(frames, absent, k), frames[k][at[k]])
  {
  }

  /** All stacks ever allocated, oldest extent first. */
  ghost function Consolidated(extents: seq<seq<Stack>>): seq<Stack>
  {
    if extents == [] then [] else Consolidated(extents[1..]) + extents[0]
  }
}
