/**
 * Capture tasks: one goroutine and one unbuffered channel each, wait groups between tasks, and a main routine
 * that takes the results one by one. Tasks are numbered in the order in which main drains them.
 */
module CaptureProtocol {

  /** Where the goroutine of a task is. `Waiting(k)`: it has passed the first `k` tasks of its wait list. */
  datatype Phase = NotLaunched | Waiting(passed: nat) | Running | Sending | Sent | Closed | Finished

  /** `cmd` says that the task has set its command, which is what makes waiting on it effective. */
  datatype Task = Task(phase: Phase, cmd: bool, wg: int, result: int)

  datatype State = State(tasks: seq<Task>, received: seq<int>)

  datatype Action =
    | Launch(task: nat)              // GoCapture
    | PassWait(task: nat)            // WaitWaitGroup returns
    | Start(task: nat)               // InitWaitGroup, then Run
    | SetCmd(task: nat)              // Run sets Cmd
    | Finish(task: nat, result: int) // Run returns
    | Handoff(task: nat)             // c <- result meets main's <-c
    | Close(task: nat)               // close(c)
    | Done(task: nat)                // DoneWaitGroup

  type WaitLists = seq<seq<nat>>

  /** Wait lists name existing tasks. */
  ghost predicate Lists(wait: WaitLists) {
    forall i, k :: 0 <= i < |wait| && 0 <= k < |wait[i]| ==> wait[i][k] < |wait|
  }

  function Fresh(): Task { Task(NotLaunched, false, 0, 0) }

  function Initial(wait: WaitLists): State
  {
    State(seq(|wait|, _ => Fresh()), [])
  }

  /** WaitWaitGroup blocks only on a task that has a command and a positive counter. */
  predicate Blocks(t: Task) {
    t.cmd && t.wg > 0
  }

  predicate Enabled(wait: WaitLists, s: State, a: Action)
    requires |s.tasks| == |wait| && Lists(wait)
  {
    a.task < |wait| &&
    var t := s.tasks[a.task];
    match a
    case Launch(_) => t.phase.NotLaunched?
    case PassWait(i) =>
      t.phase.Waiting? && t.phase.passed < |wait[i]| && !Blocks(s.tasks[wait[i][t.phase.passed]])
    case Start(i) => t.phase == Waiting(|wait[i]|)
    case SetCmd(_) => t.phase.Running? && !t.cmd
    case Finish(_, _) => t.phase.Running?
    case Handoff(i) =>
      && t.phase.Sending? && i == |s.received|
      && forall j :: 0 <= j < |s.tasks| ==> !s.tasks[j].phase.NotLaunched?
    case Close(_) => t.phase.Sent?
    case Done(_) => t.phase.Closed?
  }

  function Moved(t: Task, a: Action): Task
    requires a.PassWait? ==> t.phase.Waiting?
  {
    match a
    case Launch(_) => t.(phase := Waiting(0))
    case PassWait(_) => t.(phase := Waiting(t.phase.passed + 1))
    case Start(_) => t.(phase := Running, wg := t.wg + 1)
    case SetCmd(_) => t.(cmd := true)
    case Finish(_, r) => t.(phase := Sending, result := r)
    case Handoff(_) => t.(phase := Sent)
    case Close(_) => t.(phase := Closed)
    case Done(_) => t.(phase := Finished, wg := t.wg - 1)
  }

  function Apply(wait: WaitLists, s: State, a: Action): (s': State)
    requires |s.tasks| == |wait| && Lists(wait) && Enabled(wait, s, a)
    ensures |s'.tasks| == |wait|
  {
    var t := s.tasks[a.task];
    State(s.tasks[a.task := Moved(t, a)], if a.Handoff? then s.received + [t.result] else s.received)
  }

  /** `acts` leads from `s` to `s'`. */
  ghost predicate Runs(wait: WaitLists, s: State, acts: seq<Action>, s': State)
    requires |s.tasks| == |wait| && Lists(wait)
    decreases |acts|
  {
    if acts == [] then s == s'
    else Enabled(wait, s, acts[0]) && Runs(wait, Apply(wait, s, acts[0]), acts[1..], s')
  }

  ghost predicate Final(wait: WaitLists, s: State) {
    |s.received| == |wait| && forall i :: 0 <= i < |s.tasks| ==> s.tasks[i].phase.Finished?
  }

  ghost predicate Stuck(wait: WaitLists, s: State)
    requires |s.tasks| == |wait| && Lists(wait)
  {
    forall a :: !Enabled(wait, s, a)
  }

  ghost predicate DeadlockFree(wait: WaitLists)
    requires Lists(wait)
  {
    forall acts: seq<Action>, s: State ::
      |s.tasks| == |wait| && Runs(wait, Initial(wait), acts, s) && Stuck(wait, s) ==> Final(wait, s)
  }

  /** No task waits for one that main drains later. */
  ghost predicate WellOrdered(wait: WaitLists) {
    forall i, k :: 0 <= i < |wait| && 0 <= k < |wait[i]| ==> wait[i][k] <= i
  }

  // ---------- what every step keeps ----------

  predicate HandedOver(p: Phase) {
    p.Sent? || p.Closed? || p.Finished?
  }

  /** The wait group counts exactly the stretch between InitWaitGroup and DoneWaitGroup; it never goes negative. */
  predicate TaskInv(t: Task, waits: nat) {
    && t.wg == (if t.phase.Running? || t.phase.Sending? || t.phase.Sent? || t.phase.Closed? then 1 else 0)
    && (t.phase.Waiting? ==> t.phase.passed <= waits)
    && (t.cmd ==> !t.phase.NotLaunched? && !t.phase.Waiting?)
  }

  /** Main holds exactly one result of each task it has drained, and that task's own. */
  ghost predicate Inv(wait: WaitLists, s: State) {
    && |s.tasks| == |wait| && |s.received| <= |wait|
    && (forall i :: 0 <= i < |s.tasks| ==> TaskInv(s.tasks[i], |wait[i]|))
    && (forall i :: 0 <= i < |s.tasks| ==> (HandedOver(s.tasks[i].phase) <==> i < |s.received|))
    && (forall i :: 0 <= i < |s.received| ==> s.received[i] == s.tasks[i].result)
  }

  lemma {:induction false} StepKeepsInv(wait: WaitLists, s: State, a: Action)
    requires Lists(wait) && Inv(wait, s) && Enabled(wait, s, a)
    ensures Inv(wait, Apply(wait, s, a))
  {
  }

  // ---------- the measure ----------

  /** Steps a task still has before it. */
  function Rank(t: Task, waits: nat): nat
    requires TaskInv(t, waits)
  {
    match t.phase
    case NotLaunched => waits + 8
    case Waiting(k) => waits - k + 7
    case Running => if t.cmd then 5 else 6
    case Sending => 4
    case Sent => 3
    case Closed => 2
    case Finished => 1
  }

  function Measure(wait: WaitLists, tasks: seq<Task>): nat
    requires |wait| == |tasks| && forall i :: 0 <= i < |tasks| ==> TaskInv(tasks[i], |wait[i]|)
  {
    if tasks == [] then 0
    else
      var n := |tasks| - 1;
      assert forall i :: 0 <= i < n ==> tasks[..n][i] == tasks[i] && wait[..n][i] == wait[i];
      Measure(wait[..n], tasks[..n]) + Rank(tasks[n], |wait[n]|)
  }

  lemma {:induction false} MeasureOfUpdate(wait: WaitLists, tasks: seq<Task>, i: nat, t: Task)
    requires |wait| == |tasks| && i < |tasks| && TaskInv(t, |wait[i]|)
    requires forall k :: 0 <= k < |tasks| ==> TaskInv(tasks[k], |wait[k]|)
    ensures Measure(wait, tasks[i := t]) == Measure(wait, tasks) - Rank(tasks[i], |wait[i]|) + Rank(t, |wait[i]|)
    decreases |tasks|
  {
    var n := |tasks| - 1;
    var after := tasks[i := t];
    if i == n {
      assert after[..n] == tasks[..n];
    } else {
      assert after[..n] == tasks[..n][i := t];
      MeasureOfUpdate(wait[..n], tasks[..n], i, t);
    }
  }

  /** Every step of every interleaving decreases the measure. */
  lemma {:induction false} StepDecreases(wait: WaitLists, s: State, a: Action)
    requires Lists(wait) && Inv(wait, s) && Enabled(wait, s, a)
    ensures Inv(wait, Apply(wait, s, a))
    ensures Measure(wait, Apply(wait, s, a).tasks) < Measure(wait, s.tasks)
  {
    StepKeepsInv(wait, s, a);
    var i := a.task;
    var t := Moved(s.tasks[i], a);
    assert Apply(wait, s, a).tasks[i] == t;
    MeasureOfUpdate(wait, s.tasks, i, t);
  }

  lemma {:induction false} RunKeepsInv(wait: WaitLists, s: State, acts: seq<Action>, s': State)
    requires Lists(wait) && Inv(wait, s) && Runs(wait, s, acts, s')
    ensures Inv(wait, s')
    ensures |acts| <= Measure(wait, s.tasks) - Measure(wait, s'.tasks)
    decreases |acts|
  {
    if acts != [] {
      StepDecreases(wait, s, acts[0]);
      RunKeepsInv(wait, Apply(wait, s, acts[0]), acts[1..], s');
    }
  }

  // ---------- deadlock freedom ----------

  lemma {:induction false} InitialInv(wait: WaitLists)
    ensures Inv(wait, Initial(wait))
  {
  }

  /** Some task can always move; when no other can, it is the one main is waiting for. */
  lemma {:induction false} Progress(wait: WaitLists, s: State) returns (a: Action)
    requires Lists(wait) && WellOrdered(wait) && Inv(wait, s) && !Final(wait, s)
    ensures Enabled(wait, s, a)
  {
    if i :| 0 <= i < |s.tasks| && s.tasks[i].phase.NotLaunched? {
      a := Launch(i);
    } else if i :| 0 <= i < |s.tasks| && s.tasks[i].phase == Waiting(|wait[i]|) {
      a := Start(i);
    } else if i :| 0 <= i < |s.tasks| && s.tasks[i].phase.Running? {
      a := Finish(i, 0);
    } else if i :| 0 <= i < |s.tasks| && s.tasks[i].phase.Sent? {
      a := Close(i);
    } else if i :| 0 <= i < |s.tasks| && s.tasks[i].phase.Closed? {
      a := Done(i);
    } else {
      var d := |s.received|;
      assert d < |wait|;
      a := if s.tasks[d].phase.Sending? then Handoff(d) else PassWait(d);
    }
  }

  lemma {:induction false} StuckIsFinal(wait: WaitLists, s: State)
    requires Lists(wait) && WellOrdered(wait) && Inv(wait, s) && Stuck(wait, s)
    ensures Final(wait, s)
  {
    if !Final(wait, s) {
      var a := Progress(wait, s);
    }
  }

  lemma {:induction false} WellOrderedIsDeadlockFree(wait: WaitLists)
    requires Lists(wait) && WellOrdered(wait)
    ensures DeadlockFree(wait)
  {
    InitialInv(wait);
    forall acts: seq<Action>, s: State | |s.tasks| == |wait| && Runs(wait, Initial(wait), acts, s) && Stuck(wait, s)
      ensures Final(wait, s)
    {
      RunKeepsInv(wait, Initial(wait), acts, s);
      StuckIsFinal(wait, s);
    }
  }

  /** A run that cannot go on has given main one result per task, in drain order, each the task's own. */
  lemma {:induction false} MaximalRunsDeliver(wait: WaitLists, acts: seq<Action>, s: State)
    requires Lists(wait) && WellOrdered(wait) && |s.tasks| == |wait|
    requires Runs(wait, Initial(wait), acts, s) && Stuck(wait, s)
    ensures |s.received| == |wait| && forall i :: 0 <= i < |wait| ==> s.received[i] == s.tasks[i].result
    ensures forall i :: 0 <= i < |wait| ==> s.tasks[i].phase.Finished? && s.tasks[i].wg == 0
    ensures |acts| <= Measure(wait, Initial(wait).tasks)
  {
    InitialInv(wait);
    RunKeepsInv(wait, Initial(wait), acts, s);
    StuckIsFinal(wait, s);
    forall i | 0 <= i < |wait| ensures s.tasks[i].phase.Finished? && s.tasks[i].wg == 0 {
      assert TaskInv(s.tasks[i], |wait[i]|);
    }
  }

  // ---------- the order is necessary ----------

  lemma {:induction false} RunsSnoc(wait: WaitLists, s: State, acts: seq<Action>, m: State, a: Action)
    requires Lists(wait) && |s.tasks| == |wait| && |m.tasks| == |wait|
    requires Runs(wait, s, acts, m) && Enabled(wait, m, a)
    ensures Runs(wait, s, acts + [a], Apply(wait, m, a))
    decreases |acts|
  {
    if acts == [] {
      assert (acts + [a])[1..] == [];
    } else {
      assert (acts + [a])[0] == acts[0] && (acts + [a])[1..] == acts[1..] + [a];
      RunsSnoc(wait, Apply(wait, s, acts[0]), acts[1..], m, a);
    }
  }

  ghost predicate Reachable(wait: WaitLists, s: State)
    requires Lists(wait)
  {
    |s.tasks| == |wait| && exists acts :: Runs(wait, Initial(wait), acts, s)
  }

  lemma {:induction false} ReachableStep(wait: WaitLists, s: State, a: Action)
    requires Lists(wait) && Reachable(wait, s) && Enabled(wait, s, a)
    ensures Reachable(wait, Apply(wait, s, a))
  {
    var acts :| Runs(wait, Initial(wait), acts, s);
    RunsSnoc(wait, Initial(wait), acts, s, a);
  }

  /** Nothing blocks a wait, and main has taken nothing yet. */
  ghost predicate Quiet(s: State) {
    s.received == [] && forall i :: 0 <= i < |s.tasks| ==> !s.tasks[i].cmd
  }

  /** In a quiet state a task can be brought to any point of its wait list. */
  lemma {:induction false} PassWaits(wait: WaitLists, s: State, i: nat, k: nat) returns (s': State)
    requires Lists(wait) && Reachable(wait, s) && Quiet(s) && i < |wait| && s.tasks[i] == Fresh() && k <= |wait[i]|
    ensures Reachable(wait, s') && s' == s.(tasks := s.tasks[i := Task(Waiting(k), false, 0, 0)])
    decreases k
  {
    if k == 0 {
      s' := Apply(wait, s, Launch(i));
      ReachableStep(wait, s, Launch(i));
    } else {
      var m := PassWaits(wait, s, i, k - 1);
      assert !Blocks(m.tasks[wait[i][k - 1]]);
      ReachableStep(wait, m, PassWait(i));
      s' := Apply(wait, m, PassWait(i));
    }
  }

  /** A step of task `i` from a known point, as an update of that task alone. */
  lemma {:induction false} MoveOne(wait: WaitLists, s: State, a: Action, t: Task) returns (s': State)
    requires Lists(wait) && Reachable(wait, s) && Enabled(wait, s, a) && !a.Handoff?
    requires t == Moved(s.tasks[a.task], a)
    ensures Reachable(wait, s') && s' == s.(tasks := s.tasks[a.task := t])
  {
    ReachableStep(wait, s, a);
    s' := Apply(wait, s, a);
  }

  /** ... and on to the point where it offers its result, with or without a command. */
  lemma {:induction false} ToSending(wait: WaitLists, s: State, i: nat, cmd: bool) returns (s': State)
    requires Lists(wait) && Reachable(wait, s) && Quiet(s) && i < |wait| && s.tasks[i] == Fresh()
    ensures Reachable(wait, s') && s' == s.(tasks := s.tasks[i := Task(Sending, cmd, 1, 0)])
  {
    var m := PassWaits(wait, s, i, |wait[i]|);
    m := MoveOne(wait, m, Start(i), Task(Running, false, 1, 0));
    if cmd {
      m := MoveOne(wait, m, SetCmd(i), Task(Running, true, 1, 0));
    }
    s' := MoveOne(wait, m, Finish(i, 0), Task(Sending, cmd, 1, 0));
  }

  lemma {:induction false} Drain(wait: WaitLists, s: State, d: nat) returns (s': State)
    requires Lists(wait) && Reachable(wait, s) && d < |wait| && |s.received| == d
    requires s.tasks[d] == Task(Sending, false, 1, 0)
    requires forall i :: 0 <= i < |wait| ==> !s.tasks[i].phase.NotLaunched?
    ensures Reachable(wait, s')
    ensures s' == State(s.tasks[d := Task(Finished, false, 0, 0)], s.received + [0])
  {
    ReachableStep(wait, s, Handoff(d));
    var m := Apply(wait, s, Handoff(d));
    m := MoveOne(wait, m, Close(d), Task(Closed, false, 1, 0));
    s' := MoveOne(wait, m, Done(d), Task(Finished, false, 0, 0));
  }

  /** All tasks but `i` and `j` offer their results; `i` and `j` have not begun. */
  lemma {:induction false} OthersOffer(wait: WaitLists, i: nat, j: nat) returns (s: State)
    requires Lists(wait) && i < |wait| && j < |wait|
    ensures Reachable(wait, s) && s.received == []
    ensures forall t :: 0 <= t < |wait| ==>
      s.tasks[t] == if t == i || t == j then Fresh() else Task(Sending, false, 1, 0)
  {
    s := Initial(wait);
    assert Runs(wait, s, [], s);
    var n := 0;
    while n < |wait|
      invariant 0 <= n <= |wait| && Reachable(wait, s) && s.received == []
      invariant forall t :: 0 <= t < |wait| ==>
        s.tasks[t] == if t >= n || t == i || t == j then Fresh() else Task(Sending, false, 1, 0)
    {
      if n != i && n != j {
        s := ToSending(wait, s, n, false);
      }
      n := n + 1;
    }
  }

  /** Task `i` is held at its `k`-th wait by task `j`, which offers its result; main has drained `d` tasks. */
  ghost predicate Held(wait: WaitLists, s: State, i: nat, k: nat, j: nat, d: nat)
    requires i < |wait| && j < |wait|
  {
    && |s.tasks| == |wait| && |s.received| == d
    && s.tasks[i] == Task(Waiting(k), false, 0, 0) && s.tasks[j] == Task(Sending, true, 1, 0)
    && forall t :: 0 <= t < |wait| && t != i && t != j ==>
         s.tasks[t] == if t < d then Task(Finished, false, 0, 0) else Task(Sending, false, 1, 0)
  }

  lemma {:induction false} HeldDrains(wait: WaitLists, s: State, i: nat, k: nat, j: nat, d: nat) returns (s': State)
    requires Lists(wait) && d < i < j < |wait| && Reachable(wait, s) && Held(wait, s, i, k, j, d)
    ensures Reachable(wait, s') && Held(wait, s', i, k, j, d + 1)
  {
    s' := Drain(wait, s, d);
  }

  lemma {:induction false} HeldIsStuck(wait: WaitLists, s: State, i: nat, k: nat, j: nat)
    requires Lists(wait) && i < j < |wait| && k < |wait[i]| && wait[i][k] == j && Held(wait, s, i, k, j, i)
    ensures Stuck(wait, s) && !Final(wait, s)
  {
    forall a ensures !Enabled(wait, s, a) {
      if a.task < |wait| {
        var t := s.tasks[a.task];
        assert a.task == i || t.phase.Finished? || (t.phase.Sending? && a.task > i);
      }
    }
    assert !s.tasks[i].phase.Finished?;
  }

  lemma {:induction false} LaterWaitDeadlocks(wait: WaitLists, i: nat, k: nat) returns (s: State)
    requires Lists(wait) && i < |wait| && k < |wait[i]| && wait[i][k] > i
    ensures Reachable(wait, s) && Stuck(wait, s) && !Final(wait, s)
  {
    var j := wait[i][k];
    s := OthersOffer(wait, i, j);
    s := PassWaits(wait, s, i, k);
    s := ToSending(wait, s, j, true);
    var d := 0;
    while d < i
      invariant 0 <= d <= i && Reachable(wait, s) && Held(wait, s, i, k, j, d)
    {
      s := HeldDrains(wait, s, i, k, j, d);
      d := d + 1;
    }
    HeldIsStuck(wait, s, i, k, j);
  }

  /** The exact condition: every interleaving runs to completion if and only if no wait points to a later drain. */
  lemma {:induction false} DeadlockFreeIff(wait: WaitLists)
    requires Lists(wait)
    ensures DeadlockFree(wait) <==> WellOrdered(wait)
  {
    if WellOrdered(wait) {
      WellOrderedIsDeadlockFree(wait);
    } else {
      var i, k :| 0 <= i < |wait| && 0 <= k < |wait[i]| && wait[i][k] > i;
      var s := LaterWaitDeadlocks(wait, i, k);
      var acts :| Runs(wait, Initial(wait), acts, s);
      assert Stuck(wait, s) && !Final(wait, s);
    }
  }

  // ---------- the on-demand capture ----------

  /** What the on-demand capture starts, listed in the order in which it drains; any of them may be left out. */
  datatype Source =
    | Top | Disk | NetStat | PS | VMStat | DMesg | GC | Ping | AppLog | AppLogs | HDSub | Kernel | ThreadDump
    | NodeCPUProfile | NodeExtra(name: string) | ExtendedData

  function DrainPlace(s: Source): nat
  {
    match s
    case Top => 0 case Disk => 1 case NetStat => 2 case PS => 3 case VMStat => 4 case DMesg => 5 case GC => 6
    case Ping => 7 case AppLog => 8 case AppLogs => 9 case HDSub => 10 case Kernel => 11 case ThreadDump => 12
    case NodeCPUProfile => 13 case NodeExtra(_) => 14 case ExtendedData => 15
  }

  /** The tasks of one capture: in drain order, and dmesg only together with vmstat. */
  ghost predicate FullCapture(tasks: seq<Source>) {
    && (forall i, j :: 0 <= i < j < |tasks| ==> DrainPlace(tasks[i]) <= DrainPlace(tasks[j]))
    && (DMesg in tasks ==> VMStat in tasks)
  }

  function IndexOf(tasks: seq<Source>, s: Source): (i: nat)
    ensures i <= |tasks| && (s in tasks ==> i < |tasks| && tasks[i] == s)
  {
    if tasks == [] || tasks[0] == s then 0 else 1 + IndexOf(tasks[1..], s)
  }

  /** Only dmesg waits, on vmstat. */
  function WaitsOf(tasks: seq<Source>): WaitLists
  {
    seq(|tasks|, i requires 0 <= i < |tasks| => if tasks[i] == DMesg then [IndexOf(tasks, VMStat)] else [])
  }

  /** Every on-demand capture, whatever it leaves out: all interleavings run to completion. */
  lemma {:induction false} FullCaptureIsDeadlockFree(tasks: seq<Source>)
    requires FullCapture(tasks)
    ensures Lists(WaitsOf(tasks)) && DeadlockFree(WaitsOf(tasks))
  {
    var wait := WaitsOf(tasks);
    forall i, k | 0 <= i < |wait| && 0 <= k < |wait[i]| ensures wait[i][k] <= i && wait[i][k] < |wait| {
      assert tasks[i] == DMesg && tasks[i] in tasks;
      var v := IndexOf(tasks, VMStat);
      assert tasks[v] == VMStat;
    }
    DeadlockFreeIff(wait);
  }
}
