/**
 * JStack.Run: a main routine and two workers joined by buffered channels. Worker 1 (thread dumps) may give up
 * after any round, which closes its reply channel; worker 2 (top -H) serves every round.
 */
module JStack {

  datatype Observation = Reply(round: nat) | ChannelClosed

  /** `Exiting` and `Dead` remember how many rounds the worker answered. */
  datatype Worker = Idle | Working(round: nat) | Exiting(answered: nat) | Dead(answered: nat)

  /** The request and reply channels of one worker, and what main has read from it so far. */
  datatype Link = Link(requests: seq<nat>, requestsClosed: bool, worker: Worker,
                       replies: seq<nat>, seen: seq<Observation>)

  /** Main in round `round`: step 0 sends on b2, 1 sends on b1, 2 reads e1, 3 reads e2. */
  datatype Main = InRound(round: nat, step: nat) | Closing | Returned

  datatype State = State(main: Main, dump: Link, top: Link)

  /** Steps of a worker. The reply channel is closed exactly when its worker is dead. */
  datatype WorkerAction = Take | Answer | AnswerAndDie | SeeClosed | CloseReplies

  datatype Action = MainStep | DumpStep(w: WorkerAction) | TopStep(w: WorkerAction)

  const NEW_LINK := Link([], false, Idle, [], [])

  function Initial(count: nat): State
  {
    State(if count == 0 then Closing else InRound(1, 0), NEW_LINK, NEW_LINK)
  }

  // ---------- one link ----------

  predicate CanSend(l: Link, count: nat) { |l.requests| < count }

  function Send(l: Link, n: nat): Link { l.(requests := l.requests + [n]) }

  /** A receive proceeds on a buffered reply, or on a closed channel. */
  predicate CanReceive(l: Link) { l.replies != [] || l.worker.Dead? }

  function Receive(l: Link): Link
  {
    if l.replies != [] then l.(replies := l.replies[1..], seen := l.seen + [Reply(l.replies[0])])
    else l.(seen := l.seen + [ChannelClosed])
  }

  predicate WorkerCan(l: Link, w: WorkerAction, count: nat, mayDie: bool)
  {
    match w
    case Take => l.worker.Idle? && l.requests != []
    case Answer => l.worker.Working? && |l.replies| < count
    case AnswerAndDie => l.worker.Working? && |l.replies| < count && mayDie
    case SeeClosed => l.worker.Idle? && l.requests == [] && l.requestsClosed
    case CloseReplies => l.worker.Exiting?
  }

  function WorkerStep(l: Link, w: WorkerAction): Link
    requires w.Take? ==> l.requests != []
    requires w.Answer? || w.AnswerAndDie? ==> l.worker.Working?
    requires w.CloseReplies? ==> l.worker.Exiting?
  {
    match w
    case Take => l.(requests := l.requests[1..], worker := Working(l.requests[0]))
    case Answer => l.(replies := l.replies + [l.worker.round], worker := Idle)
    case AnswerAndDie => l.(replies := l.replies + [l.worker.round], worker := Exiting(l.worker.round))
    case SeeClosed => l.(worker := Exiting(|l.seen|))
    case CloseReplies => l.(worker := Dead(l.worker.answered))
  }

  // ---------- the whole system ----------

  predicate Enabled(s: State, a: Action, count: nat)
  {
    match a
    case MainStep =>
      (match s.main
       case InRound(n, step) =>
         if step == 0 then CanSend(s.top, count)
         else if step == 1 then CanSend(s.dump, count)
         else if step == 2 then CanReceive(s.dump)
         else CanReceive(s.top)
       case Closing => true
       case Returned => false)
    case DumpStep(w) => WorkerCan(s.dump, w, count, true)
    case TopStep(w) => WorkerCan(s.top, w, count, false)
  }

  function Apply(s: State, a: Action, count: nat): State
    requires Enabled(s, a, count)
  {
    match a
    case DumpStep(w) => s.(dump := WorkerStep(s.dump, w))
    case TopStep(w) => s.(top := WorkerStep(s.top, w))
    case MainStep =>
      match s.main
      case InRound(n, step) =>
        if step == 0 then State(InRound(n, 1), s.dump, Send(s.top, n))
        else if step == 1 then State(InRound(n, 2), Send(s.dump, n), s.top)
        else if step == 2 then State(InRound(n, 3), Receive(s.dump), s.top)
        else State(if n < count then InRound(n + 1, 0) else Closing, s.dump, Receive(s.top))
      case Closing =>
        State(Returned, s.dump.(requestsClosed := true), s.top.(requestsClosed := true))
  }

  ghost predicate Runs(s: State, acts: seq<Action>, s': State, count: nat)
    decreases |acts|
  {
    if acts == [] then s == s'
    else Enabled(s, acts[0], count) && Runs(Apply(s, acts[0], count), acts[1..], s', count)
  }

  predicate Final(s: State) {
    s.main.Returned? && s.dump.worker.Dead? && s.top.worker.Dead?
  }

  // ---------- invariant of a link to which `sent` requests were sent ----------

  /** Number of rounds the worker answers in all, as far as it is decided. */
  function Answered(l: Link): nat
  {
    match l.worker
    case Exiting(d) => d
    case Dead(d) => d
    case _ => |l.seen|
  }

  /** Main has seen the answers of rounds 1, 2, ... in order and, past the last one, only a closed channel. */
  ghost predicate SeenInOrder(l: Link) {
    forall k :: 0 <= k < |l.seen| ==> l.seen[k] == if k < Answered(l) then Reply(k + 1) else ChannelClosed
  }

  ghost predicate LinkInv(l: Link, sent: nat, closed: bool) {
    var received := |l.seen|;
    && received <= sent <= received + 1
    && (closed ==> sent == received)
    && l.requestsClosed == closed
    && SeenInOrder(l)
    && match l.worker
       case Idle =>
         if sent == received then l.requests == [] && l.replies == []
         else (l.requests == [sent] && l.replies == []) || (l.requests == [] && l.replies == [sent])
       case Working(n) =>
         n == sent == received + 1 && l.requests == [] && l.replies == []
       case Exiting(d) =>
         d <= sent && |l.requests| == sent - d && l.replies == (if d == received + 1 then [d] else [])
       case Dead(d) =>
         d <= sent && |l.requests| == sent - d && l.replies == (if d == received + 1 then [d] else [])
  }

  lemma {:induction false} SendKeeps(l: Link, sent: nat)
    requires LinkInv(l, sent, false) && |l.seen| == sent
    ensures LinkInv(Send(l, sent + 1), sent + 1, false)
  {
  }

  lemma {:induction false} ReceiveKeeps(l: Link, sent: nat)
    requires LinkInv(l, sent, false) && |l.seen| + 1 == sent && CanReceive(l)
    ensures LinkInv(Receive(l), sent, false) && |Receive(l).seen| == sent
  {
  }

  lemma {:induction false} WorkerStepKeeps(l: Link, sent: nat, closed: bool, w: WorkerAction, count: nat, mayDie: bool)
    requires LinkInv(l, sent, closed) && WorkerCan(l, w, count, mayDie)
    ensures LinkInv(WorkerStep(l, w), sent, closed) && WorkerStep(l, w).seen == l.seen
  {
  }

  /** A worker that cannot die serves every request. */
  ghost predicate Faithful(l: Link, closed: bool) {
    (l.worker.Exiting? || l.worker.Dead?) ==> closed && l.worker.answered == |l.seen|
  }

  ghost predicate Inv(s: State, count: nat) {
    match s.main
    case InRound(n, step) =>
      && 1 <= n <= count && step <= 3
      && LinkInv(s.top, if step >= 1 then n else n - 1, false) && |s.top.seen| == n - 1
      && LinkInv(s.dump, if step >= 2 then n else n - 1, false) && |s.dump.seen| == (if step >= 3 then n else n - 1)
      && Faithful(s.top, false)
    case Closing =>
      && LinkInv(s.top, count, false) && LinkInv(s.dump, count, false)
      && |s.top.seen| == count && |s.dump.seen| == count && Faithful(s.top, false)
    case Returned =>
      && LinkInv(s.top, count, true) && LinkInv(s.dump, count, true)
      && |s.top.seen| == count && |s.dump.seen| == count && Faithful(s.top, true)
  }

  lemma {:induction false} MainStepKeeps(s: State, count: nat)
    requires Inv(s, count) && Enabled(s, MainStep, count)
    ensures Inv(Apply(s, MainStep, count), count)
  {
    match s.main
    case InRound(n, step) =>
      if step == 0 { SendKeeps(s.top, n - 1); }
      else if step == 1 { SendKeeps(s.dump, n - 1); }
      else if step == 2 { ReceiveKeeps(s.dump, n); }
      else { ReceiveKeeps(s.top, n); }
    case Closing =>
  }

  lemma {:induction false} StepKeepsInv(s: State, a: Action, count: nat)
    requires Inv(s, count) && Enabled(s, a, count)
    ensures Inv(Apply(s, a, count), count)
  {
    var closed := s.main.Returned?;
    var sentTop := match s.main case InRound(n, step) => (if step >= 1 then n else n - 1) case _ => count;
    var sentDump := match s.main case InRound(n, step) => (if step >= 2 then n else n - 1) case _ => count;
    match a
    case MainStep => MainStepKeeps(s, count);
    case DumpStep(w) => WorkerStepKeeps(s.dump, sentDump, closed, w, count, true);
    case TopStep(w) => WorkerStepKeeps(s.top, sentTop, closed, w, count, false);
  }

  // ---------- progress ----------

  /** A link main is waiting on has a reply, a closed channel, or a worker that can move. */
  lemma {:induction false} LinkProgress(l: Link, sent: nat, count: nat, mayDie: bool) returns (w: WorkerAction)
    requires LinkInv(l, sent, false) && |l.seen| + 1 == sent && 1 <= count && !CanReceive(l)
    ensures WorkerCan(l, w, count, mayDie)
  {
    w := if l.worker.Working? then Answer else if l.worker.Exiting? then CloseReplies else Take;
  }

  lemma {:induction false} ClosedProgress(l: Link, sent: nat, count: nat, mayDie: bool) returns (w: WorkerAction)
    requires LinkInv(l, sent, true) && !l.worker.Dead?
    ensures WorkerCan(l, w, count, mayDie)
  {
    w := if l.worker.Exiting? then CloseReplies else SeeClosed;
  }

  /** Nobody ever blocks for good: every state that is not final has a step. */
  lemma {:induction false} Progress(s: State, count: nat) returns (a: Action)
    requires Inv(s, count) && !Final(s)
    ensures Enabled(s, a, count)
  {
    a := MainStep;
    match s.main
    case InRound(n, step) =>
      if step == 2 && !CanReceive(s.dump) {
        var w := LinkProgress(s.dump, n, count, true);
        a := DumpStep(w);
      } else if step == 3 && !CanReceive(s.top) {
        var w := LinkProgress(s.top, n, count, false);
        a := TopStep(w);
      }
    case Closing =>
    case Returned =>
      if !s.dump.worker.Dead? {
        var w := ClosedProgress(s.dump, count, count, true);
        a := DumpStep(w);
      } else {
        var w := ClosedProgress(s.top, count, count, false);
        a := TopStep(w);
      }
  }

  // ---------- the measure ----------

  function MainRank(m: Main, count: nat): int
  {
    match m
    case InRound(n, step) => 4 * (count - n) + 4 - step + 2
    case Closing => 2
    case Returned => 0
  }

  function LinkRank(l: Link): nat
  {
    3 * |l.requests| +
    match l.worker
    case Idle => 3
    case Working(_) => 5
    case Exiting(_) => 2
    case Dead(_) => 0
  }

  function Measure(s: State, count: nat): int
  {
    5 * MainRank(s.main, count) + LinkRank(s.dump) + LinkRank(s.top)
  }

  lemma {:induction false} WorkerStepDecreases(l: Link, w: WorkerAction, count: nat, mayDie: bool)
    requires WorkerCan(l, w, count, mayDie)
    ensures LinkRank(WorkerStep(l, w)) < LinkRank(l)
  {
  }

  lemma {:induction false} StepDecreases(s: State, a: Action, count: nat)
    requires Inv(s, count) && Enabled(s, a, count)
    ensures 0 <= Measure(Apply(s, a, count), count) < Measure(s, count)
  {
    match a
    case DumpStep(w) => WorkerStepDecreases(s.dump, w, count, true);
    case TopStep(w) => WorkerStepDecreases(s.top, w, count, false);
    case MainStep => MainStepKeeps(s, count);
  }

  // ---------- main theorems ----------

  lemma {:induction false} RunKeepsInv(s: State, acts: seq<Action>, s': State, count: nat)
    requires Inv(s, count) && Runs(s, acts, s', count)
    ensures Inv(s', count) && |acts| <= Measure(s, count) - Measure(s', count)
    decreases |acts|
  {
    if acts != [] {
      StepKeepsInv(s, acts[0], count);
      StepDecreases(s, acts[0], count);
      RunKeepsInv(Apply(s, acts[0], count), acts[1..], s', count);
    }
  }

  /** Channels of capacity `count` never fill up: no send of main or of a worker ever blocks. */
  lemma {:induction false} SendsNeverBlock(acts: seq<Action>, s: State, count: nat)
    requires Runs(Initial(count), acts, s, count)
    ensures s.main.InRound? && s.main.step == 0 ==> CanSend(s.top, count)
    ensures s.main.InRound? && s.main.step == 1 ==> CanSend(s.dump, count)
    ensures s.dump.worker.Working? ==> |s.dump.replies| < count
    ensures s.top.worker.Working? ==> |s.top.replies| < count
  {
    RunKeepsInv(Initial(count), acts, s, count);
  }

  /**
   * When main starts round n it has read, for every earlier round k, the top reply of round k and the dump reply
   * of round k itself, or a closed dump channel; never a reply of another round.
   */
  lemma {:induction false} RoundsInStep(acts: seq<Action>, s: State, count: nat)
    requires Runs(Initial(count), acts, s, count) && s.main.InRound? && s.main.step == 0
    ensures |s.top.seen| == s.main.round - 1 && |s.dump.seen| == s.main.round - 1
    ensures forall k :: 0 <= k < s.main.round - 1 ==> s.top.seen[k] == Reply(k + 1)
    ensures forall k :: 0 <= k < s.main.round - 1 ==> s.dump.seen[k] in {Reply(k + 1), ChannelClosed}
  {
    RunKeepsInv(Initial(count), acts, s, count);
  }

  /** Runs cannot go on forever, and one that cannot go on has returned after exactly `count` rounds. */
  lemma {:induction false} EveryRunCompletes(acts: seq<Action>, s: State, count: nat) returns (dumps: nat)
    requires Runs(Initial(count), acts, s, count)
    requires forall a :: !Enabled(s, a, count)
    ensures Final(s) && |acts| <= Measure(Initial(count), count)
    ensures |s.top.seen| == count && |s.dump.seen| == count && dumps <= count
    ensures forall k :: 0 <= k < count ==> s.top.seen[k] == Reply(k + 1)
    ensures forall k :: 0 <= k < count ==> s.dump.seen[k] == if k < dumps then Reply(k + 1) else ChannelClosed
  {
    RunKeepsInv(Initial(count), acts, s, count);
    if !Final(s) {
      var a := Progress(s, count);
    }
    dumps := Answered(s.dump);
  }

  /** NewJStackWithCaptureDuration, durations in nanoseconds: one round per full ten seconds, at least one. */
  function RoundCount(duration: int): (count: nat)
    ensures if duration < 10_000_000_000 then count == 1
            else count * 10_000_000_000 <= duration < (count + 1) * 10_000_000_000
  {
    var effective := if duration > 10_000_000_000 then duration else 10_000_000_000;
    if effective / 10_000_000_000 > 1 then effective / 10_000_000_000 else 1
  }
}
