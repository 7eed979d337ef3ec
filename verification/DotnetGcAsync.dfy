/** Lifecycle of the long-running .NET GC collectors: one session per PID, across exits and PID reuse. */
module DotnetGcAsync {
  import opened Lines

  /** A spawned collector process; `id` tells apart collectors that happen to get the same PID. */
  datatype Collector = Collector(id: nat, pid: int)

  datatype Session = Session(pid: int, processStart: int, collector: Collector)

  /** Process start times as the operating system reports them; None: no such process. */
  type Processes = int -> Option<int>

  /** What trying to spawn a collector for a PID yields; None: the directory or the tool could not be set up. */
  type Spawner = int -> Option<int>

  predicate CollectorRuns(s: Session, ps: Processes) {
    s.collector.pid > 0 && ps(s.collector.pid).Some?
  }

  predicate Alive(s: Session, ps: Processes) {
    CollectorRuns(s, ps) && ps(s.pid).Some?
  }

  predicate SameIdentity(s: Session, ps: Processes) {
    ps(s.pid) == Some(s.processStart)
  }

  predicate Healthy(s: Session, ps: Processes) {
    Alive(s, ps) && SameIdentity(s, ps)
  }

  // ---------- runs as sequences of starts and stops ----------

  /** `graceful` counts the GracefulStop calls made on each collector. */
  datatype Manager = Manager(sessions: map<int, Session>, spawned: nat, graceful: multiset<nat>)

  datatype Event = Started(pid: int, processStart: int, collectorPid: int) | Stopped(pid: int)

  const NO_SESSIONS := Manager(map[], 0, multiset{})

  function Next(m: Manager, e: Event): Manager
  {
    match e
    case Started(pid, ts, cpid) =>
      Manager(m.sessions[pid := Session(pid, ts, Collector(m.spawned, cpid))], m.spawned + 1, m.graceful)
    case Stopped(pid) =>
      if pid in m.sessions then
        Manager(m.sessions - {pid}, m.spawned, m.graceful + multiset{m.sessions[pid].collector.id})
      else m
  }

  function Replay(trace: seq<Event>): Manager
    decreases |trace|
  {
    if trace == [] then NO_SESSIONS else Next(Replay(trace[..|trace| - 1]), trace[|trace| - 1])
  }

  /** The discipline the code keeps: a collector is started only for a PID that has no session. */
  ghost predicate Disciplined(trace: seq<Event>) {
    forall k :: 0 <= k < |trace| && trace[k].Started? ==> trace[k].pid !in Replay(trace[..k]).sessions
  }

  ghost predicate Held(m: Manager, id: nat) {
    exists pid :: pid in m.sessions && m.sessions[pid].collector.id == id
  }

  /** No orphan and no double stop: each collector is in one session or was stopped once, never both. */
  ghost predicate Conserved(m: Manager) {
    && (forall pid :: pid in m.sessions ==> m.sessions[pid].pid == pid && m.sessions[pid].collector.id < m.spawned)
    && (forall p, q :: p in m.sessions && q in m.sessions ==>
          (m.sessions[p].collector.id == m.sessions[q].collector.id ==> p == q))
    && (forall id :: 0 <= id < m.spawned ==> m.graceful[id] == if Held(m, id) then 0 else 1)
    && (forall id :: id in m.graceful ==> id < m.spawned)
  }

  lemma {:induction false} StartConserves(m: Manager, e: Event)
    requires Conserved(m) && e.Started? && e.pid !in m.sessions
    ensures Conserved(Next(m, e))
  {
    var n := Next(m, e);
    forall id: nat | id < n.spawned ensures n.graceful[id] == if Held(n, id) then 0 else 1 {
      if id < m.spawned {
        assert Held(n, id) <==> Held(m, id) by {
          if Held(m, id) {
            var p :| p in m.sessions && m.sessions[p].collector.id == id;
            assert n.sessions[p] == m.sessions[p];
          }
          if Held(n, id) {
            var p :| p in n.sessions && n.sessions[p].collector.id == id;
            assert m.sessions[p] == n.sessions[p];
          }
        }
      } else {
        assert n.sessions[e.pid].collector.id == id;
      }
    }
  }

  lemma {:induction false} StopConserves(m: Manager, pid: int)
    requires Conserved(m) && pid in m.sessions
    ensures Conserved(Next(m, Stopped(pid)))
  {
    var n := Next(m, Stopped(pid));
    var gone := m.sessions[pid].collector.id;
    forall id: nat | id < n.spawned ensures n.graceful[id] == if Held(n, id) then 0 else 1 {
      if id == gone {
        assert Held(m, id);
      } else {
        assert Held(n, id) <==> Held(m, id) by {
          if Held(m, id) {
            var p :| p in m.sessions && m.sessions[p].collector.id == id;
            assert p in n.sessions && n.sessions[p] == m.sessions[p];
          }
          if Held(n, id) {
            var p :| p in n.sessions && n.sessions[p].collector.id == id;
            assert m.sessions[p] == n.sessions[p];
          }
        }
      }
    }
  }

  /** Conservation over every run. */
  lemma {:induction false} EveryRunConserves(trace: seq<Event>)
    requires Disciplined(trace)
    ensures Conserved(Replay(trace))
    decreases |trace|
  {
    if trace != [] {
      var n := |trace| - 1;
      var before, e := trace[..n], trace[n];
      assert forall k :: 0 <= k < n ==> before[..k] == trace[..k] && before[k] == trace[k];
      EveryRunConserves(before);
      match e
      case Started(_, _, _) => StartConserves(Replay(before), e);
      case Stopped(pid) => if pid in Replay(before).sessions { StopConserves(Replay(before), pid); }
    }
  }

  /** The discipline is what conservation rests on: a start over a session orphans its collector. */
  lemma {:induction false} OverwritingOrphans(m: Manager, e: Event)
    requires Conserved(m) && e.Started? && e.pid in m.sessions
    ensures var id := m.sessions[e.pid].collector.id; !Held(Next(m, e), id) && Next(m, e).graceful[id] == 0
  {
    var n := Next(m, e);
    var id := m.sessions[e.pid].collector.id;
    assert Held(m, id);
    forall p | p in n.sessions ensures n.sessions[p].collector.id != id {
      assert p == e.pid || m.sessions[p] == n.sessions[p];
    }
  }

  /** A stopped collector stays stopped, and no later collector reuses its identity. */
  lemma {:induction false} StoppedForGood(m: Manager, e: Event, id: nat)
    requires Conserved(m) && id < m.spawned && !Held(m, id)
    requires e.Started? ==> e.pid !in m.sessions
    ensures !Held(Next(m, e), id)
  {
    var n := Next(m, e);
    forall p | p in n.sessions ensures n.sessions[p].collector.id != id {
      assert p in m.sessions ==> m.sessions[p] == n.sessions[p];
    }
  }

  // ---------- facts about one reconcile ----------

  lemma {:induction false} SomeMember(s: set<int>)
    ensures s != {} ==> exists p :: p in s
  {
    if forall p :: p !in s {
      assert s == {};
    }
  }

  /** A collector can be started for the PID. */
  predicate Startable(p: int, ps: Processes, spawn: Spawner) {
    p > 0 && ps(p).Some? && spawn(p).Some?
  }

  /** What a reconcile owes an active PID: a healthy session is kept, otherwise a new one is tried. */
  ghost predicate Served(now: map<int, Session>, was: map<int, Session>, p: int, ps: Processes, spawn: Spawner,
                         ids: nat) {
    if p in was && Healthy(was[p], ps) then p in now && now[p] == was[p]
    else
      && (p in now <==> Startable(p, ps, spawn))
      && (p in now ==>
            && now[p].pid == p && now[p].processStart == ps(p).value
            && now[p].collector.id >= ids && now[p].collector.pid == spawn(p).value)
  }

  /** PIDs a reconcile starts or stops collectors for: with a session to be stopped, or one to be started. */
  ghost predicate Touchable(p: int, active: set<int>, was: map<int, Session>, ps: Processes, spawn: Spawner) {
    if p in was then !(p in active && Healthy(was[p], ps)) else p in active && Startable(p, ps, spawn)
  }

  /** After a reconcile sessions fit their processes, and are healthy exactly when the new collectors still run. */
  lemma {:induction false} ServedAll(now: map<int, Session>, was: map<int, Session>, active: set<int>, kept: set<int>,
                                     ps: Processes, spawn: Spawner, ids: nat)
    requires now.Keys <= active && forall p :: p in active ==> Served(now, was, p, ps, spawn, ids)
    requires kept == set p | p in was && p in active && Healthy(was[p], ps)
    requires forall p :: p in was ==> was[p].pid == p
    ensures forall p :: p in now ==> SameIdentity(now[p], ps)
    ensures (forall p :: p in now ==> Healthy(now[p], ps)) <==>
      (forall p :: p in now && p !in kept ==> CollectorRuns(now[p], ps))
  {
    forall p | p in now
      ensures SameIdentity(now[p], ps) && (p in kept ==> Healthy(now[p], ps))
      ensures Healthy(now[p], ps) <==> CollectorRuns(now[p], ps)
    {
      assert Served(now, was, p, ps, spawn, ids);
    }
  }

  /** Two session maps that differ at most at one PID. */
  ghost predicate SameElsewhere(a: map<int, Session>, b: map<int, Session>, pid: int) {
    forall p :: p != pid ==> (p in a <==> p in b) && (p in a && p in b ==> a[p] == b[p])
  }

  /** A reconcile on its way: the PIDs in `todo` are as they were, the other active ones are served. */
  ghost predicate PartlyServed(now: map<int, Session>, was: map<int, Session>, active: set<int>, todo: set<int>,
                               ps: Processes, spawn: Spawner, ids: nat)
  {
    && (forall p :: p in now ==> p in active)
    && (forall p :: p in todo ==> (p in now <==> p in was) && (p in now && p in was ==> now[p] == was[p]))
    && (forall p :: p in active && p !in todo ==> Served(now, was, p, ps, spawn, ids))
  }

  lemma {:induction false} ServedOneMore(now: map<int, Session>, before: map<int, Session>, was: map<int, Session>,
                                         active: set<int>,
                      todo: set<int>, pid: int, ps: Processes, spawn: Spawner, ids: nat, idsBefore: nat)
    requires pid in active && pid !in todo && ids <= idsBefore
    requires PartlyServed(before, was, active, todo + {pid}, ps, spawn, ids)
    requires SameElsewhere(now, before, pid) && Served(now, before, pid, ps, spawn, idsBefore)
    ensures PartlyServed(now, was, active, todo, ps, spawn, ids)
  {
    forall p | p in active && p !in todo ensures Served(now, was, p, ps, spawn, ids) {
      if p != pid {
        assert Served(before, was, p, ps, spawn, ids);
      }
    }
  }

  /** A reconcile adds an event if and only if some PID is to be touched. */
  lemma {:induction false} NothingTouchedIff(trace: seq<Event>, start: seq<Event>, now: map<int, Session>,
                                             was: map<int, Session>,
                                             active: set<int>, ps: Processes, spawn: Spawner, ids: nat)
    requires start <= trace && now.Keys <= active && forall p :: p in active ==> Served(now, was, p, ps, spawn, ids)
    requires forall k :: |start| <= k < |trace| ==> Touchable(trace[k].pid, active, was, ps, spawn)
    requires trace == start ==> now == was
    requires forall p :: p in was ==> was[p].collector.id < ids
    ensures trace == start <==> forall p :: !Touchable(p, active, was, ps, spawn)
  {
    if trace == start {
      forall p ensures !Touchable(p, active, was, ps, spawn) {
        if p in active {
          assert Served(now, was, p, ps, spawn, ids);
        }
      }
    } else {
      assert Touchable(trace[|start|].pid, active, was, ps, spawn);
    }
  }

  /** After a reconcile what is left to touch in the same world are the sessions whose collector does not run. */
  lemma {:induction false} LeftToTouch(now: map<int, Session>, was: map<int, Session>, active: set<int>, ps: Processes,
                                       spawn: Spawner, ids: nat)
    requires now.Keys <= active && forall p :: p in active ==> Served(now, was, p, ps, spawn, ids)
    requires forall p :: p in was ==> was[p].pid == p
    ensures (forall p :: !Touchable(p, active, now, ps, spawn)) <==> forall p :: p in now ==> CollectorRuns(now[p], ps)
  {
    forall p ensures Touchable(p, active, now, ps, spawn) <==> p in now && !CollectorRuns(now[p], ps) {
      if p in active {
        assert Served(now, was, p, ps, spawn, ids);
      }
    }
  }

  // ---------- the code ----------

  class DotnetGCAsync {
    var sessions: map<int, Session>
    var spawned: nat
    ghost var graceful: multiset<nat>
    ghost var trace: seq<Event>

    ghost predicate Valid()
      reads this
    {
      Disciplined(trace) && Manager(sessions, spawned, graceful) == Replay(trace)
    }

    constructor ()
      ensures Valid() && sessions == map[]
    {
      sessions, spawned, graceful, trace := map[], 0, multiset{}, [];
    }

    ghost method Record(e: Event)
      requires Disciplined(trace) && (e.Started? ==> e.pid !in Replay(trace).sessions)
      requires Manager(sessions, spawned, graceful) == Next(Replay(trace), e)
      modifies this`trace
      ensures Valid() && trace == old(trace) + [e]
    {
      var before := trace;
      trace := trace + [e];
      assert trace[..|before|] == before;
      assert forall k :: 0 <= k < |before| ==> trace[..k] == before[..k] && trace[k] == before[k];
    }

    /** stopLocked. */
    method StopLocked(pid: int)
      requires Valid()
      modifies this
      ensures Valid() && sessions == old(sessions) - {pid}
      ensures trace == if pid in old(sessions) then old(trace) + [Stopped(pid)] else old(trace)
      ensures spawned == old(spawned)
    {
      if pid !in sessions {
        assert sessions - {pid} == sessions;
        return;
      }
      var s := sessions[pid];
      sessions := sessions - {pid};
      graceful := graceful + multiset{s.collector.id};
      Record(Stopped(pid));
    }

    method AddSession(pid: int, ts: int, collectorPid: int)
      requires Valid() && pid !in sessions
      modifies this
      ensures Valid() && trace == old(trace) + [Started(pid, ts, collectorPid)] && spawned == old(spawned) + 1
      ensures sessions == old(sessions)[pid := Session(pid, ts, Collector(old(spawned), collectorPid))]
    {
      sessions := sessions[pid := Session(pid, ts, Collector(spawned, collectorPid))];
      spawned := spawned + 1;
      Record(Started(pid, ts, collectorPid));
    }

    /** ensureStartedLocked: a healthy session is kept, any other is stopped before a new collector is spawned. */
    method EnsureStartedLocked(pid: int, ps: Processes, spawn: Spawner) returns (ok: bool)
      requires Valid()
      modifies this
      ensures Valid() && old(trace) <= trace && spawned >= old(spawned)
      ensures forall k :: |old(trace)| <= k < |trace| ==> trace[k].pid == pid
      ensures SameElsewhere(sessions, old(sessions), pid)
      ensures var keep := pid <= 0 || (pid in old(sessions) && Healthy(old(sessions)[pid], ps));
        && (keep ==> trace == old(trace) && sessions == old(sessions))
        && (!keep ==> (pid in sessions <==> ps(pid).Some? && spawn(pid).Some?))
        && (!keep && pid in sessions ==>
              sessions[pid] == Session(pid, ps(pid).value, Collector(old(spawned), spawn(pid).value)))
      ensures pid !in old(sessions) && !Startable(pid, ps, spawn) ==> trace == old(trace)
      ensures ok <==> pid > 0 && pid in sessions && SameIdentity(sessions[pid], ps)
    {
      ok := false;
      if pid <= 0 {
        return;
      }
      SessionKey(pid);
      if pid in sessions {
        if Healthy(sessions[pid], ps) {
          return true;
        }
        StopLocked(pid);
      }
      match ps(pid) {
        case None =>
        case Some(ts) =>
          match spawn(pid) {
            case None =>
            case Some(collectorPid) =>
              AddSession(pid, ts, collectorPid);
              ok := true;
          }
      }
    }

    lemma {:induction false} SessionKey(pid: int)
      requires Valid()
      ensures pid in sessions ==> sessions[pid].pid == pid
    {
      EveryRunConserves(trace);
    }

    /** The body of Reconcile's second loop: ensureStartedLocked or restartLocked for one active PID. */
    method ReconcileOne(pid: int, ps: Processes, spawn: Spawner)
      requires Valid()
      modifies this
      ensures Valid() && old(trace) <= trace && spawned >= old(spawned)
      ensures forall k :: |old(trace)| <= k < |trace| ==> trace[k].pid == pid
      ensures SameElsewhere(sessions, old(sessions), pid)
      ensures Served(sessions, old(sessions), pid, ps, spawn, old(spawned))
      ensures pid in old(sessions) && Healthy(old(sessions)[pid], ps) ==> trace == old(trace)
      ensures pid !in old(sessions) && !Startable(pid, ps, spawn) ==> trace == old(trace)
    {
      if pid !in sessions {
        var _ := EnsureStartedLocked(pid, ps, spawn);
      } else if !Healthy(sessions[pid], ps) {
        StopLocked(pid);
        var _ := EnsureStartedLocked(pid, ps, spawn);
      }
    }

    /** The sessions a reconcile with `active` leaves alone. */
    ghost function Kept(active: set<int>, ps: Processes): set<int>
      reads this
    {
      set pid | pid in sessions && pid in active && Healthy(sessions[pid], ps)
    }

    /** First loop of Reconcile: sessions of PIDs that are no longer active are stopped. */
    method StopInactive(active: set<int>)
      requires Valid()
      modifies this
      ensures Valid() && old(trace) <= trace && spawned == old(spawned)
      ensures forall k :: |old(trace)| <= k < |trace| ==> trace[k].pid in old(sessions) && trace[k].pid !in active
      ensures sessions.Keys == old(sessions).Keys * active
      ensures forall p :: p in sessions ==> sessions[p] == old(sessions)[p]
    {
      var todo := sessions.Keys;
      while todo != {}
        invariant Valid() && old(trace) <= trace && spawned == old(spawned)
        invariant forall k :: |old(trace)| <= k < |trace| ==> trace[k].pid in old(sessions) && trace[k].pid !in active
        invariant forall p :: p in sessions <==> p in old(sessions) && (p in active || p in todo)
        invariant forall p :: p in sessions ==> sessions[p] == old(sessions)[p]
        decreases |todo|
      {
        SomeMember(todo);
        var pid :| pid in todo;
        todo := todo - {pid};
        if pid !in active {
          StopLocked(pid);
        }
      }
      assert forall p :: p in sessions.Keys <==> p in old(sessions).Keys * active;
    }

    /**
     * Reconcile in a fixed process world: afterwards sessions exist for active PIDs only, each is bound to the
     * process now behind its PID, healthy ones were not touched, and all others were replaced where possible.
     */
    method Reconcile(active: set<int>, ps: Processes, spawn: Spawner)
      requires Valid()
      modifies this
      ensures Valid() && old(trace) <= trace
      ensures sessions.Keys <= active
      ensures forall p :: p in active ==> Served(sessions, old(sessions), p, ps, spawn, old(spawned))
      ensures forall p :: p in sessions ==> SameIdentity(sessions[p], ps)
      // collectors are started and stopped only where that is due, so there is no event if and only if it is nowhere
      ensures forall k :: |old(trace)| <= k < |trace| ==> Touchable(trace[k].pid, active, old(sessions), ps, spawn)
      ensures trace == old(trace) <==> forall p :: !Touchable(p, active, old(sessions), ps, spawn)
      // so a second reconcile in the same world adds none if and only if all collectors run after this one
      ensures (forall p :: !Touchable(p, active, sessions, ps, spawn)) <==>
        forall p :: p in sessions ==> CollectorRuns(sessions[p], ps)
      // all sessions are then alive, exactly when the collectors spawned by this call are
      ensures (forall p :: p in sessions ==> Healthy(sessions[p], ps)) <==>
        (forall p :: p in sessions && p !in old(Kept(active, ps)) ==> CollectorRuns(sessions[p], ps))
    {
      ghost var was, kept := sessions, Kept(active, ps);
      EveryRunConserves(trace);
      StopInactive(active);
      ReconcileActive(active, ps, spawn, was, old(trace));
      NothingTouchedIff(trace, old(trace), sessions, was, active, ps, spawn, old(spawned));
      LeftToTouch(sessions, was, active, ps, spawn, old(spawned));
      ServedAll(sessions, was, active, kept, ps, spawn, old(spawned));
    }

    /** Second loop of Reconcile, over the active PIDs in any order. */
    method ReconcileActive(active: set<int>, ps: Processes, spawn: Spawner, ghost was: map<int, Session>,
                           ghost start: seq<Event>)
      requires Valid() && start <= trace && sessions.Keys == was.Keys * active
      requires forall p :: p in sessions ==> sessions[p] == was[p]
      requires forall k :: |start| <= k < |trace| ==> Touchable(trace[k].pid, active, was, ps, spawn)
      modifies this
      ensures Valid() && start <= trace && sessions.Keys <= active
      ensures forall p :: p in active ==> Served(sessions, was, p, ps, spawn, old(spawned))
      ensures forall k :: |start| <= k < |trace| ==> Touchable(trace[k].pid, active, was, ps, spawn)
    {
      var todo := active;
      while todo != {}
        invariant Valid() && start <= trace && todo <= active && spawned >= old(spawned)
        invariant PartlyServed(sessions, was, active, todo, ps, spawn, old(spawned))
        invariant forall k :: |start| <= k < |trace| ==> Touchable(trace[k].pid, active, was, ps, spawn)
        decreases |todo|
      {
        SomeMember(todo);
        var pid :| pid in todo;
        assert todo == todo - {pid} + {pid};
        todo := todo - {pid};
        ghost var before, ids := sessions, spawned;
        ReconcileOne(pid, ps, spawn);
        ServedOneMore(sessions, before, was, active, todo, pid, ps, spawn, old(spawned), ids);
      }
      assert forall p :: p in sessions.Keys ==> p in active;
    }

    /** EnsureStarted and Stop. */
    method EnsureStarted(pid: int, ps: Processes, spawn: Spawner) returns (ok: bool)
      requires Valid()
      modifies this
      ensures Valid() && old(trace) <= trace && SameElsewhere(sessions, old(sessions), pid)
      ensures pid in old(sessions) && Healthy(old(sessions)[pid], ps) ==> trace == old(trace)
      ensures pid > 0 && !(pid in old(sessions) && Healthy(old(sessions)[pid], ps)) ==>
        (pid in sessions <==> ps(pid).Some? && spawn(pid).Some?)
      ensures ok <==> pid > 0 && pid in sessions && SameIdentity(sessions[pid], ps)
    {
      ok := EnsureStartedLocked(pid, ps, spawn);
    }

    method Stop(pid: int)
      requires Valid()
      modifies this
      ensures Valid() && sessions == old(sessions) - {pid}
      ensures trace == if pid in old(sessions) then old(trace) + [Stopped(pid)] else old(trace)
    {
      StopLocked(pid);
    }

    /** StopAll: every collector ever spawned has then been stopped exactly once. */
    method StopAll()
      requires Valid()
      modifies this
      ensures Valid() && old(trace) <= trace && sessions == map[] && spawned == old(spawned)
      ensures forall id :: 0 <= id < spawned ==> graceful[id] == 1
    {
      while sessions != map[]
        invariant Valid() && old(trace) <= trace && spawned == old(spawned)
        decreases |sessions|
      {
        var keys := sessions.Keys;
        SomeMember(keys);
        var pid :| pid in keys;
        StopLocked(pid);
      }
      EveryRunConserves(trace);
    }
  }
}
