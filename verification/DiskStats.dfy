/** The device list of the disk statistics reader: nodes are added, refreshed in place, and cut when found stale. */
module DiskStats {
  import opened Lines

  datatype DevData = DevData(readCount: nat, readsMerged: nat, readSectors: nat, readTime: nat,
                             writeCount: nat, writesMerged: nat, writeSectors: nat, writeTime: nat,
                             ioInProgress: nat, ioTime: nat, ioWtime: nat)

  /** One parsed line of /proc/diskstats. */
  datatype Reading = Reading(name: string, major: int, minor: int, data: DevData)

  /** What a node holds besides its link. */
  datatype Row = Row(name: string, kind: int, major: int, minor: int, stamped: int, current: DevData, previous: DevData)

  /** node_classify: disk or partition, as /sys/block says when the node is created. */
  type Classifier = string -> int

  // ---------- the list as a value ----------

  function Find(rows: seq<Row>, name: string): (i: nat)
    ensures i <= |rows|
    ensures i < |rows| ==> rows[i].name == name
    ensures forall j :: 0 <= j < i ==> rows[j].name != name
  {
    if rows == [] then 0 else if rows[0].name == name then 0 else 1 + Find(rows[1..], name)
  }

  predicate Fresh(row: Row, oldStamp: int, newStamp: int) {
    row.stamped == oldStamp || row.stamped == newStamp
  }

  function Cut(rows: seq<Row>, i: nat): seq<Row>
    requires i < |rows|
  {
    rows[..i] + rows[i + 1..]
  }

  /** node_get: a stale node is removed and counts as not found. */
  function AfterGet(rows: seq<Row>, name: string, oldStamp: int, newStamp: int): seq<Row>
  {
    var i := Find(rows, name);
    if i < |rows| && !Fresh(rows[i], oldStamp, newStamp) then Cut(rows, i) else rows
  }

  function NewRow(r: Reading, stamp: int, classify: Classifier): Row
  {
    Row(r.name, classify(r.name), r.major, r.minor, stamp, r.data, r.data)
  }

  function Refreshed(row: Row, r: Reading, stamp: int): Row
  {
    Row(r.name, row.kind, r.major, r.minor, stamp, r.data, row.current)
  }

  function Update(rows: seq<Row>, r: Reading, oldStamp: int, newStamp: int, classify: Classifier): seq<Row>
  {
    var i := Find(rows, r.name);
    if i < |rows| && Fresh(rows[i], oldStamp, newStamp) then rows[i := Refreshed(rows[i], r, newStamp)]
    else AfterGet(rows, r.name, oldStamp, newStamp) + [NewRow(r, newStamp, classify)]
  }

  function UpdateAll(rows: seq<Row>, rs: seq<Reading>, oldStamp: int, newStamp: int, classify: Classifier): seq<Row>
    decreases |rs|
  {
    if rs == [] then rows
    else Update(UpdateAll(rows, rs[..|rs| - 1], oldStamp, newStamp, classify), rs[|rs| - 1], oldStamp, newStamp,
                classify)
  }

  lemma {:induction false} UpdateNext(rows: seq<Row>, rs: seq<Reading>, k: nat, o: int, n: int, classify: Classifier)
    requires k < |rs|
    ensures UpdateAll(rows, rs[..k + 1], o, n, classify)
         == Update(UpdateAll(rows, rs[..k], o, n, classify), rs[k], o, n, classify)
  {
    assert rs[..k + 1][..k] == rs[..k];
  }

  // ---------- the list as a map from names ----------

  ghost predicate UniqueNames(rows: seq<Row>) {
    forall i, j :: 0 <= i < j < |rows| ==> rows[i].name != rows[j].name
  }

  function Lookup(rows: seq<Row>, name: string): Option<Row>
  {
    var i := Find(rows, name);
    if i < |rows| then Some(rows[i]) else None
  }

  lemma {:induction false} LookupIs(rows: seq<Row>, i: nat)
    requires i < |rows| && UniqueNames(rows)
    ensures Lookup(rows, rows[i].name) == Some(rows[i])
  {
    var k := Find(rows, rows[i].name);
    assert k == i;
  }

  lemma {:induction false} LookupNone(rows: seq<Row>, name: string)
    requires forall i :: 0 <= i < |rows| ==> rows[i].name != name
    ensures Lookup(rows, name) == None
  {
  }

  lemma {:induction false} LookupCut(rows: seq<Row>, i: nat, name: string)
    requires i < |rows| && UniqueNames(rows)
    ensures UniqueNames(Cut(rows, i))
    ensures Lookup(Cut(rows, i), name) == if name == rows[i].name then None else Lookup(rows, name)
  {
    var cut := Cut(rows, i);
    assert forall k :: 0 <= k < |cut| ==> cut[k] == if k < i then rows[k] else rows[k + 1];
    var k := Find(rows, name);
    if name == rows[i].name || k == |rows| {
      LookupNone(cut, name);
    } else {
      var at := if k < i then k else k - 1;
      assert cut[at] == rows[k];
      LookupIs(cut, at);
    }
  }

  lemma {:induction false} LookupAppend(rows: seq<Row>, row: Row, name: string)
    requires UniqueNames(rows) && Lookup(rows, row.name) == None
    ensures UniqueNames(rows + [row])
    ensures Lookup(rows + [row], name) == if name == row.name then Some(row) else Lookup(rows, name)
  {
    var all := rows + [row];
    assert UniqueNames(all);
    if name == row.name {
      assert all[|rows|] == row;
      LookupIs(all, |rows|);
    } else if Lookup(rows, name).None? {
      LookupNone(all, name);
    } else {
      assert all[Find(rows, name)] == rows[Find(rows, name)];
      LookupIs(all, Find(rows, name));
    }
  }

  lemma {:induction false} LookupReplace(rows: seq<Row>, i: nat, row: Row, name: string)
    requires UniqueNames(rows) && i < |rows| && row.name == rows[i].name
    ensures UniqueNames(rows[i := row])
    ensures Lookup(rows[i := row], name) == if name == row.name then Some(row) else Lookup(rows, name)
  {
    var all := rows[i := row];
    if name == row.name {
      LookupIs(all, i);
    } else if Lookup(rows, name).None? {
      LookupNone(all, name);
    } else {
      LookupIs(all, Find(rows, name));
    }
  }

  /** What the row of a device becomes; a stale or missing row gives a zero delta. */
  function Expected(was: Option<Row>, r: Reading, oldStamp: int, newStamp: int, classify: Classifier): Row
  {
    if was.Some? && Fresh(was.value, oldStamp, newStamp) then Refreshed(was.value, r, newStamp)
    else NewRow(r, newStamp, classify)
  }

  /** An update is a map update: it touches the device it reads and no other. */
  lemma {:induction false} UpdateIsMapUpdate(rows: seq<Row>, r: Reading, o: int, n: int, classify: Classifier,
                                             name: string)
    requires UniqueNames(rows)
    ensures var rows' := Update(rows, r, o, n, classify);
      && UniqueNames(rows')
      && Lookup(rows', name) ==
           if name == r.name then Some(Expected(Lookup(rows, r.name), r, o, n, classify)) else Lookup(rows, name)
  {
    var i := Find(rows, r.name);
    if i < |rows| {
      if Fresh(rows[i], o, n) {
        LookupReplace(rows, i, Refreshed(rows[i], r, n), name);
      } else {
        LookupCut(rows, i, r.name);
        LookupCut(rows, i, name);
        LookupAppend(Cut(rows, i), NewRow(r, n, classify), name);
      }
    } else {
      LookupAppend(rows, NewRow(r, n, classify), name);
    }
  }

  ghost predicate DistinctReadings(rs: seq<Reading>) {
    forall i, j :: 0 <= i < j < |rs| ==> rs[i].name != rs[j].name
  }

  /** One whole read: listed devices get their expected row, all others keep theirs. */
  lemma {:induction false} ReadRows(rows: seq<Row>, rs: seq<Reading>, o: int, n: int, classify: Classifier,
                                    name: string, k: nat)
    requires UniqueNames(rows) && DistinctReadings(rs)
    requires if k < |rs| then rs[k].name == name else forall i :: 0 <= i < |rs| ==> rs[i].name != name
    ensures var rows' := UpdateAll(rows, rs, o, n, classify);
      && UniqueNames(rows')
      && Lookup(rows', name) ==
           if k < |rs| then Some(Expected(Lookup(rows, name), rs[k], o, n, classify)) else Lookup(rows, name)
    decreases |rs|
  {
    if rs != [] {
      var last := |rs| - 1;
      var init := rs[..last];
      ReadRows(rows, init, o, n, classify, name, if k < last then k else |init|);
      UpdateIsMapUpdate(UpdateAll(rows, init, o, n, classify), rs[last], o, n, classify, name);
    }
  }

  // ---------- runs of reads ----------

  /** Reads in order, each with the clock second it was made in. */
  datatype Read = Read(stamp: int, readings: seq<Reading>)

  function RowsAfter(run: seq<Read>, classify: Classifier): seq<Row>
    decreases |run|
  {
    if run == [] then []
    else
      var last := |run| - 1;
      UpdateAll(RowsAfter(run[..last], classify), run[last].readings,
                StampBefore(run, last), run[last].stamp, classify)
  }

  function ReadingOf(rs: seq<Reading>, name: string): Option<Reading>
  {
    if rs == [] then None else if rs[0].name == name then Some(rs[0]) else ReadingOf(rs[1..], name)
  }

  lemma {:induction false} ReadingIndex(rs: seq<Reading>, name: string) returns (k: nat)
    ensures if k < |rs| then rs[k].name == name else k == |rs| && forall i :: 0 <= i < |rs| ==> rs[i].name != name
    ensures ReadingOf(rs, name) == if k < |rs| then Some(rs[k]) else None
  {
    if rs == [] || rs[0].name == name {
      k := 0;
    } else {
      k := ReadingIndex(rs[1..], name);
      assert forall i :: 1 <= i < |rs| ==> rs[i] == rs[1..][i - 1];
      k := k + 1;
    }
  }

  /** No device is listed twice in one read. */
  ghost predicate ProperRun(run: seq<Read>) {
    forall k :: 0 <= k < |run| ==> DistinctReadings(run[k].readings)
  }

  /** The last of the first `n` reads that lists the device, -1 when there is none. */
  function LastListed(run: seq<Read>, n: nat, name: string): (m: int)
    requires n <= |run|
    ensures -1 <= m < n && (m >= 0 ==> ReadingOf(run[m].readings, name).Some?)
  {
    if n == 0 then -1
    else if ReadingOf(run[n - 1].readings, name).Some? then n - 1
    else LastListed(run, n - 1, name)
  }

  /** The stamp of the read before read `k`; the reader starts with 0. */
  function StampBefore(run: seq<Read>, k: nat): int
    requires k < |run|
  {
    if k == 0 then 0 else run[k - 1].stamp
  }

  /** Read `k` lists the device and still knows what read `m` said of it: that was in one of the last two seconds. */
  predicate Remembered(run: seq<Read>, m: int, k: nat)
    requires m < k < |run|
  {
    m >= 0 && (run[m].stamp == StampBefore(run, k) || run[m].stamp == run[k].stamp)
  }

  function DataAt(run: seq<Read>, m: nat, name: string): DevData
    requires m < |run| && ReadingOf(run[m].readings, name).Some?
  {
    ReadingOf(run[m].readings, name).value.data
  }

  /** What the list holds of a device after a run: the last read that lists it, against the one before if remembered. */
  ghost predicate Known(run: seq<Read>, row: Option<Row>, name: string) {
    var k := LastListed(run, |run|, name);
    if k < 0 then row.None?
    else
      var m := LastListed(run, k, name);
      && row.Some? && row.value.stamped == run[k].stamp && row.value.current == DataAt(run, k, name)
      && row.value.previous == DataAt(run, if Remembered(run, m, k) then m else k, name)
  }

  lemma {:induction false} LastListedPrefix(run: seq<Read>, n: nat, name: string)
    requires n < |run|
    ensures LastListed(run[..|run| - 1], n, name) == LastListed(run, n, name)
  {
    if n > 0 {
      LastListedPrefix(run, n - 1, name);
    }
  }

  /** A read that does not list the device leaves what is known of it. */
  lemma {:induction false} KnownUnlisted(run: seq<Read>, row: Option<Row>, name: string)
    requires run != [] && Known(run[..|run| - 1], row, name) && ReadingOf(run[|run| - 1].readings, name).None?
    ensures Known(run, row, name)
  {
    var init := run[..|run| - 1];
    LastListedPrefix(run, |init|, name);
    var k := LastListed(run, |init|, name);
    if k >= 0 {
      LastListedPrefix(run, k, name);
      assert init[k] == run[k] && StampBefore(init, k) == StampBefore(run, k);
    }
  }

  /** A read that lists it makes it the expected row. */
  lemma {:induction false} KnownListed(run: seq<Read>, was: Option<Row>, now: Reading, classify: Classifier,
                                       name: string)
    requires run != [] && Known(run[..|run| - 1], was, name) && ReadingOf(run[|run| - 1].readings, name) == Some(now)
    ensures Known(run, Some(Expected(was, now, StampBefore(run, |run| - 1), run[|run| - 1].stamp, classify)), name)
  {
    var last := |run| - 1;
    LastListedPrefix(run, last, name);
  }

  /** What the list knows after every run, whatever the clock does. */
  lemma {:induction false} EveryRunKnows(run: seq<Read>, classify: Classifier, name: string)
    requires ProperRun(run)
    ensures UniqueNames(RowsAfter(run, classify))
    ensures Known(run, Lookup(RowsAfter(run, classify), name), name)
    decreases |run|
  {
    if run != [] {
      var last := |run| - 1;
      var init, rs := run[..last], run[last].readings;
      EveryRunKnows(init, classify, name);
      var rows := RowsAfter(init, classify);
      var k := ReadingIndex(rs, name);
      ReadRows(rows, rs, StampBefore(run, last), run[last].stamp, classify, name, k);
      if k < |rs| {
        KnownListed(run, Lookup(rows, name), rs[k], classify, name);
      } else {
        KnownUnlisted(run, Lookup(rows, name), name);
      }
    }
  }

  /** The row of a listed device shows the current reading as new, and the previous read's as old if it was in it. */
  ghost predicate TrueDelta(run: seq<Read>, row: Option<Row>, name: string)
    requires run != [] && ReadingOf(run[|run| - 1].readings, name).Some?
  {
    var last := |run| - 1;
    var inPrevious := last > 0 && ReadingOf(run[last - 1].readings, name).Some?;
    && row.Some? && row.value.current == DataAt(run, last, name)
    && row.value.previous == DataAt(run, if inPrevious then last - 1 else last, name)
  }

  /**
   * The exact condition: the delta after a run is true, with none for a device that was not in the previous read,
   * if and only if no earlier sighting with other values is taken for the previous read's, by a clock that stood.
   */
  lemma {:induction false} TrueDeltaIff(run: seq<Read>, classify: Classifier, name: string)
    requires ProperRun(run) && run != [] && ReadingOf(run[|run| - 1].readings, name).Some?
    ensures var last := |run| - 1;
      var m := LastListed(run, last, name);
      TrueDelta(run, Lookup(RowsAfter(run, classify), name), name) <==>
        m == last - 1 || !Remembered(run, m, last) || DataAt(run, m, name) == DataAt(run, last, name)
  {
    EveryRunKnows(run, classify, name);
  }

  ghost predicate ClockMoves(run: seq<Read>) {
    forall k, m :: 0 <= k < m < |run| ==> run[k].stamp < run[m].stamp
  }

  /** True deltas after every read of a run whose clock moves; a device new or reappearing shows no difference. */
  lemma {:induction false} EveryRunTracks(run: seq<Read>, classify: Classifier, name: string)
    requires ProperRun(run) && ClockMoves(run) && run != [] && ReadingOf(run[|run| - 1].readings, name).Some?
    ensures TrueDelta(run, Lookup(RowsAfter(run, classify), name), name)
  {
    var last := |run| - 1;
    var m := LastListed(run, last, name);
    TrueDeltaIff(run, classify, name);
    if 0 <= m < last - 1 {
      assert run[m].stamp < run[last - 1].stamp < run[last].stamp;
    }
  }

  /** The failing run: two reads in second 5, of which only the first lists the device, then one in second 6. */
  lemma {:induction false} SameSecondShowsDelta(name: string, a: DevData, b: DevData, classify: Classifier)
    requires a != b
    ensures var run := [Read(5, [Reading(name, 8, 0, a)]), Read(5, []), Read(6, [Reading(name, 8, 0, b)])];
      var row := Lookup(RowsAfter(run, classify), name);
      row.Some? && row.value.current == b && row.value.previous == a && !TrueDelta(run, row, name)
  {
    var run := [Read(5, [Reading(name, 8, 0, a)]), Read(5, []), Read(6, [Reading(name, 8, 0, b)])];
    assert ReadingOf(run[1].readings, name) == None;
    assert LastListed(run, 2, name) == LastListed(run, 1, name) == 0;
    TrueDeltaIff(run, classify, name);
    EveryRunKnows(run, classify, name);
  }

  // ---------- the code ----------

  class DevNode {
    var row: Row
    var next: DevNode?

    constructor (row: Row)
      ensures this.row == row && next == null
    {
      this.row, next := row, null;
    }
  }

  class DiskstatsInfo {
    var oldStamp: int
    var newStamp: int
    var nodes: DevNode?
    ghost var list: seq<DevNode>
    ghost var run: seq<Read>      // the reads so far

    /** The nodes form one chain without repetition. */
    ghost predicate Linked()
      reads this, list
    {
      && nodes == (if list == [] then null else list[0])
      && (forall i {:trigger list[i].next} :: 0 <= i < |list| ==>
            list[i].next == if i + 1 < |list| then list[i + 1] else null)
      && (forall i, j :: 0 <= i < j < |list| ==> list[i] != list[j])
    }

    ghost function Rows(): (rows: seq<Row>)
      reads this, list
      ensures |rows| == |list| && forall i :: 0 <= i < |rows| ==> rows[i] == list[i].row
    {
      seq(|list|, i requires 0 <= i < |list| reads this, list => list[i].row)
    }

    /** List and stamp are those of the run of reads so far. */
    ghost predicate Follows(classify: Classifier)
      reads this, list
    {
      && Linked() && Rows() == RowsAfter(run, classify)
      && newStamp == (if run == [] then 0 else run[|run| - 1].stamp)
    }

    constructor ()
      ensures Linked() && list == [] && oldStamp == 0 && newStamp == 0 && run == []
      ensures forall classify :: Follows(classify)
    {
      oldStamp, newStamp, nodes, list, run := 0, 0, null, [], [];
    }

    /** node_add: walk to the last node and link the new one behind it. */
    method NodeAdd(node: DevNode)
      requires Linked() && node !in list && node.next == null
      modifies this`nodes, this`list, list
      ensures Linked() && list == old(list) + [node]
      ensures Rows() == old(Rows()) + [old(node.row)] && node.row == old(node.row)
    {
      if nodes == null {
        nodes := node;
      } else {
        var walk := nodes;
        ghost var i := 0;
        while walk.next != null
          invariant 0 <= i < |list| && walk == list[i]
          decreases |list| - i
        {
          walk := walk.next;
          i := i + 1;
        }
        walk.next := node;
      }
      list := list + [node];
    }

    /** node_cut: unlink the node at position `i` of the chain. */
    method NodeCut(node: DevNode, ghost i: nat)
      requires Linked() && i < |list| && list[i] == node
      modifies this`nodes, this`list, list
      ensures Linked() && list == old(list)[..i] + old(list)[i + 1..]
      ensures Rows() == Cut(old(Rows()), i)
    {
      if node == nodes {
        nodes := node.next;
      } else {
        var prev := nodes;
        ghost var k := 0;
        while prev.next != node
          invariant 0 <= k < i && prev == list[k]
          decreases i - k
        {
          prev := prev.next;
          k := k + 1;
        }
        prev.next := node.next;
      }
      list := list[..i] + list[i + 1..];
    }

    /** The walk of node_get. */
    method NodeFind(name: string) returns (node: DevNode?, ghost i: nat)
      requires Linked()
      ensures i == Find(Rows(), name)
      ensures if i < |list| then node == list[i] else node == null
    {
      node := nodes;
      i := 0;
      while node != null && node.row.name != name
        invariant 0 <= i <= |list| && node == if i < |list| then list[i] else null
        invariant forall j :: 0 <= j < i ==> Rows()[j].name != name
        decreases |list| - i
      {
        node := node.next;
        i := i + 1;
      }
    }

    /** node_get: a node whose stamp is neither of the last two is cut and not returned. */
    method NodeGet(name: string) returns (node: DevNode?, ghost i: nat)
      requires Linked()
      modifies this`nodes, this`list, list
      ensures Linked() && i == Find(old(Rows()), name)
      ensures Rows() == AfterGet(old(Rows()), name, oldStamp, newStamp)
      ensures forall k :: 0 <= k < |list| ==> list[k] in old(list)
      ensures if i < |old(list)| && Fresh(old(Rows())[i], oldStamp, newStamp)
              then list == old(list) && node == list[i] else node == null
    {
      node, i := NodeFind(name);
      if node != null && node.row.stamped != oldStamp && node.row.stamped != newStamp {
        NodeCut(node, i);
        node := null;
      }
    }

    /** node_update: refresh the node of the device in place, or add a new one at the end. */
    method NodeUpdate(r: Reading, classify: Classifier)
      requires Linked()
      modifies this`nodes, this`list, list
      ensures Linked() && Rows() == Update(old(Rows()), r, oldStamp, newStamp, classify)
      ensures forall k :: 0 <= k < |list| ==> list[k] in old(list) || fresh(list[k])
    {
      var target, i := NodeGet(r.name);
      if target == null {
        var node := new DevNode(NewRow(r, newStamp, classify));
        NodeAdd(node);
      } else {
        SetRow(target, i, Refreshed(target.row, r, newStamp));
      }
    }

    method SetRow(target: DevNode, ghost i: nat, row: Row)
      requires Linked() && i < |list| && target == list[i]
      modifies target`row
      ensures Linked() && Rows() == old(Rows())[i := row]
    {
      target.row := row;
    }

    /**
     * diskstats_read_failed: the stamps move on and the lines are applied in order, up to the first that does not
     * parse (None), which fails the read.
     */
    method Read(lines: seq<Option<Reading>>, now: int, classify: Classifier) returns (failed: bool)
      requires Linked()
      modifies this`oldStamp, this`newStamp, this`nodes, this`list, list
      ensures Linked() && oldStamp == old(newStamp) && newStamp == now
      ensures failed <==> None in lines
      ensures Rows() == UpdateAll(old(Rows()), Parsed(lines), old(newStamp), now, classify)
    {
      oldStamp := newStamp;
      newStamp := now;
      ghost var rows := Rows();
      assert rows == old(Rows());
      ghost var rs := Parsed(lines);
      ParsedSpec(lines);
      var k := 0;
      while k < |lines|
        invariant 0 <= k <= |rs| && Linked() && oldStamp == old(newStamp) && newStamp == now
        invariant Rows() == UpdateAll(rows, rs[..k], oldStamp, newStamp, classify)
        invariant forall j :: 0 <= j < |list| ==> list[j] in old(list) || fresh(list[j])
        decreases |lines| - k
      {
        if lines[k] == None {
          assert rs[..k] == rs;
          return true;
        }
        NodeUpdate(lines[k].value, classify);
        UpdateNext(rows, rs, k, oldStamp, newStamp, classify);
        k := k + 1;
      }
      assert rs[..k] == rs;
      return false;
    }

    /** A read in a run: what every run of reads keeps holds of the list in memory. */
    method ReadNext(lines: seq<Option<Reading>>, now: int, classify: Classifier) returns (failed: bool)
      requires Follows(classify)
      modifies this, list
      ensures Follows(classify) && run == old(run) + [ReadOf(now, lines)] && (failed <==> None in lines)
    {
      ghost var before := run;
      failed := Read(lines, now, classify);
      run := before + [ReadOf(now, lines)];
      RowsSnoc(before, run[|before|], classify);
    }
  }

  lemma {:induction false} RowsSnoc(run: seq<Read>, r: Read, classify: Classifier)
    ensures RowsAfter(run + [r], classify)
         == UpdateAll(RowsAfter(run, classify), r.readings, if run == [] then 0 else run[|run| - 1].stamp, r.stamp,
                      classify)
  {
    assert (run + [r])[..|run|] == run;
  }

  ghost function ReadOf(now: int, lines: seq<Option<Reading>>): Read
  {
    Read(now, Parsed(lines))
  }

  /** The readings before the first line that does not parse. */
  ghost function Parsed(lines: seq<Option<Reading>>): seq<Reading>
  {
    if lines == [] || lines[0] == None then [] else [lines[0].value] + Parsed(lines[1..])
  }

  lemma {:induction false} ParsedSpec(lines: seq<Option<Reading>>)
    ensures |Parsed(lines)| <= |lines|
    ensures forall i :: 0 <= i < |Parsed(lines)| ==> lines[i] == Some(Parsed(lines)[i])
    ensures |Parsed(lines)| < |lines| ==> lines[|Parsed(lines)|] == None
  {
    if lines != [] && lines[0] != None {
      ParsedSpec(lines[1..]);
      assert forall i :: 1 <= i < |lines| ==> lines[i] == lines[1..][i - 1];
    }
  }
}
