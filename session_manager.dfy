/** The per-worker session registry and its cleaner, in their sequential semantics:
    worker threads are identities, liveness is an input, the session factory numbers
    the sessions it opens, and the cleaner thread is a step machine. */
module Sessions {
  import opened Wrappers

  /** A worker thread, by identity. */
  datatype Worker = Worker(id: nat)

  /** A Hibernate session; the factory numbers the sessions it opens. */
  datatype Session = Session(id: nat)

  /** A resource the manager releases, in the order it releases them. */
  datatype Release = CleanerStopped | SessionClosed(session: Session) | FactoryClosed

  /** `openSession` on a factory that has been closed. */
  datatype Error = FactoryClosedError

  // ---------------------------------------------------------------------------
  // The registry as a value: the table from worker to session and the factory's
  // counter of opened sessions.

  datatype Registry = Registry(sessions: map<Worker, Session>, nextId: nat)

  /** No two workers share a session. */
  ghost predicate Injective(m: map<Worker, Session>) {
    forall v, w | v in m && w in m && v != w :: m[v] != m[w]
  }

  /** Every registered session was opened by the factory, and no two workers share one. */
  ghost predicate WellFormed(g: Registry) {
    && Injective(g.sessions)
    && forall w | w in g.sessions :: g.sessions[w].id < g.nextId
  }

  /** `getSession` by `w` with the factory open: the registered session, or a fresh
      one that is registered under `w`. */
  function Acquire(g: Registry, w: Worker): (r: (Registry, Session))
    ensures r.0.sessions.Keys == g.sessions.Keys + {w}
    ensures forall v | v in g.sessions :: r.0.sessions[v] == g.sessions[v]
    ensures r.0.sessions[w] == r.1
    ensures w in g.sessions ==> r.0 == g
    ensures w !in g.sessions ==> r.0.nextId == g.nextId + 1 && r.1.id == g.nextId
    ensures WellFormed(g) ==> WellFormed(r.0)
  {
    if w in g.sessions then (g, g.sessions[w])
    else
      var s := Session(g.nextId);
      (Registry(g.sessions[w := s], g.nextId + 1), s)
  }

  /** The registry after the workers `ws` called `getSession` in turn, and the
      sessions they were handed. */
  function AcquireAll(g: Registry, ws: seq<Worker>): (Registry, seq<Session>)
    decreases |ws|
  {
    if ws == [] then (g, [])
    else
      var (g1, s) := Acquire(g, ws[0]);
      var (g2, handed) := AcquireAll(g1, ws[1..]);
      (g2, [s] + handed)
  }

  /** Whatever the interleaving, every worker is handed the session the final
      registry holds for it, and entries registered before are kept. */
  lemma {:induction false} AcquireAllHandsOutRegistered(g: Registry, ws: seq<Worker>)
    requires WellFormed(g)
    ensures var (g', handed) := AcquireAll(g, ws);
            && WellFormed(g')
            && |handed| == |ws|
            && (forall v | v in g.sessions :: v in g'.sessions && g'.sessions[v] == g.sessions[v])
            && forall i | 0 <= i < |ws| :: ws[i] in g'.sessions && handed[i] == g'.sessions[ws[i]]
    decreases |ws|
  {
    if ws != [] {
      var (g1, s) := Acquire(g, ws[0]);
      AcquireAllHandsOutRegistered(g1, ws[1..]);
      var (g2, handed) := AcquireAll(g1, ws[1..]);
      assert AcquireAll(g, ws) == (g2, [s] + handed);
      forall i | 0 <= i < |ws|
        ensures ws[i] in g2.sessions && ([s] + handed)[i] == g2.sessions[ws[i]]
      {
        if i > 0 {
          assert ws[i] == ws[1..][i - 1];
        }
      }
    }
  }

  /** One session per worker: two calls are handed the same session exactly when
      they come from the same worker. */
  lemma SameSessionIffSameWorker(g: Registry, ws: seq<Worker>, i: nat, j: nat)
    requires WellFormed(g)
    requires i < |ws| && j < |ws|
    ensures var handed := AcquireAll(g, ws).1;
            |handed| == |ws| && (handed[i] == handed[j] <==> ws[i] == ws[j])
  {
    AcquireAllHandsOutRegistered(g, ws);
  }

  // ---------------------------------------------------------------------------
  // The sweep of the cleaner.

  /** The table after a sweep: the entries of live workers. */
  function Swept(m: map<Worker, Session>, alive: set<Worker>): map<Worker, Session> {
    map w | w in m && w in alive :: m[w]
  }

  /** The sessions of the workers that are no longer alive. */
  function DeadSessions(m: map<Worker, Session>, alive: set<Worker>): set<Session> {
    set w | w in m && w !in alive :: m[w]
  }

  /** The sessions closed in a stretch of the release log. */
  function ClosedSessions(rs: seq<Release>): set<Session> {
    set i | 0 <= i < |rs| && rs[i].SessionClosed? :: rs[i].session
  }

  /** What one sweep does: it removes the entries of dead workers and closes each of
      their sessions once, and nothing else. */
  ghost predicate SweepEffect(m: map<Worker, Session>, log: seq<Release>, alive: set<Worker>,
                              m': map<Worker, Session>, log': seq<Release>)
  {
    && m' == Swept(m, alive)
    && |log| <= |log'|
    && log'[..|log|] == log
    && (forall i | |log| <= i < |log'| :: log'[i].SessionClosed?)
    && ClosedSessions(log'[|log|..]) == DeadSessions(m, alive)
    && |log'| - |log| == |m.Keys - alive|
  }

  /** Part way through a sweep of `m0`: the workers still in `todo` have not been
      looked at, and every dead worker already looked at has been closed and removed. */
  ghost predicate SweepInProgress(m0: map<Worker, Session>, log0: seq<Release>, alive: set<Worker>,
                                  todo: set<Worker>, m: map<Worker, Session>, log: seq<Release>)
  {
    && todo <= m0.Keys
    && m == (map w | w in m0 && (w in todo || w in alive) :: m0[w])
    && |log0| <= |log|
    && log[..|log0|] == log0
    && (forall i | |log0| <= i < |log| :: log[i].SessionClosed?)
    && ClosedSessions(log[|log0|..]) == (set w | w in m0 && w !in todo && w !in alive :: m0[w])
    && |log| - |log0| == |(m0.Keys - todo) - alive|
  }

  lemma ClosedSessionsAppend(rs: seq<Release>, r: Release)
    ensures ClosedSessions(rs + [r]) == ClosedSessions(rs) + if r.SessionClosed? then {r.session} else {}
  {
    var rs' := rs + [r];
    forall s | s in ClosedSessions(rs')
      ensures s in ClosedSessions(rs) + if r.SessionClosed? then {r.session} else {}
    {
      var i :| 0 <= i < |rs'| && rs'[i].SessionClosed? && rs'[i].session == s;
      if i < |rs| {
        assert rs[i] == rs'[i];
      }
    }
    forall s | s in ClosedSessions(rs)
      ensures s in ClosedSessions(rs')
    {
      var i :| 0 <= i < |rs| && rs[i].SessionClosed? && rs[i].session == s;
      assert rs'[i] == rs[i];
    }
    if r.SessionClosed? {
      assert rs'[|rs|] == r;
    }
  }

  lemma SweepStarts(m: map<Worker, Session>, log: seq<Release>, alive: set<Worker>)
    ensures SweepInProgress(m, log, alive, m.Keys, m, log)
  {
    assert (m.Keys - m.Keys) - alive == {};
    assert log[|log|..] == [];
  }

  /** Looking at one more worker keeps the sweep on track. */
  lemma SweepSteps(m0: map<Worker, Session>, log0: seq<Release>, alive: set<Worker>,
                   todo: set<Worker>, m: map<Worker, Session>, log: seq<Release>, w: Worker)
    requires SweepInProgress(m0, log0, alive, todo, m, log)
    requires w in todo
    ensures w in m
    ensures w in alive ==> SweepInProgress(m0, log0, alive, todo - {w}, m, log)
    ensures w !in alive ==> SweepInProgress(m0, log0, alive, todo - {w}, m - {w}, log + [SessionClosed(m[w])])
  {
    var doneDead := (m0.Keys - todo) - alive;
    if w in alive {
      assert (m0.Keys - (todo - {w})) - alive == doneDead;
    } else {
      var log' := log + [SessionClosed(m[w])];
      assert log'[..|log0|] == log0;
      assert log'[|log0|..] == log[|log0|..] + [SessionClosed(m0[w])];
      ClosedSessionsAppend(log[|log0|..], SessionClosed(m0[w]));
      assert (set v | v in m0 && v !in todo - {w} && v !in alive :: m0[v])
          == (set v | v in m0 && v !in todo && v !in alive :: m0[v]) + {m0[w]};
      assert (m0.Keys - (todo - {w})) - alive == doneDead + {w};
    }
  }

  lemma SweepEnds(m0: map<Worker, Session>, log0: seq<Release>, alive: set<Worker>,
                  m: map<Worker, Session>, log: seq<Release>)
    requires SweepInProgress(m0, log0, alive, {}, m, log)
    ensures SweepEffect(m0, log0, alive, m, log)
  {
    assert m == Swept(m0, alive);
    assert (set w | w in m0 && w !in {} && w !in alive :: m0[w]) == DeadSessions(m0, alive);
    assert (m0.Keys - {}) - alive == m0.Keys - alive;
  }

  /** A sweep keeps exactly the entries of live workers, with their sessions. */
  lemma SweepTouchesOnlyDead(m: map<Worker, Session>, alive: set<Worker>, w: Worker)
    requires w in m
    ensures w in Swept(m, alive) <==> w in alive
    ensures w in alive ==> Swept(m, alive)[w] == m[w]
  {
  }

  /** After a sweep every remaining worker is alive, so a second sweep with the same
      liveness changes nothing and closes nothing. */
  lemma SweepIdempotent(m: map<Worker, Session>, alive: set<Worker>)
    ensures forall w | w in Swept(m, alive) :: w in alive
    ensures Swept(Swept(m, alive), alive) == Swept(m, alive)
    ensures DeadSessions(Swept(m, alive), alive) == {}
  {
  }

  /** With no two workers sharing a session, a live worker's session is never among
      those a sweep closes. */
  lemma SweepSparesLiveSessions(m: map<Worker, Session>, alive: set<Worker>, w: Worker)
    requires Injective(m)
    requires w in m && w in alive
    ensures m[w] !in DeadSessions(m, alive)
  {
  }

  // ---------------------------------------------------------------------------
  // The cleaner thread: `while(!stopped) { sweep; sleep }`, with `stop` setting the
  // flag and interrupting the sleep.

  /** Where the cleaner thread is in its loop. */
  datatype Phase = AtFlagCheck | Sweeping | Sleeping | Exited

  datatype CleanerState = CleanerState(phase: Phase, stopped: bool, interrupted: bool)

  /** One step of the cleaner thread. At the flag check it exits or begins a sweep; a
      sweep, once begun, runs to its end and the thread goes to sleep; a sleep ends at
      once if the thread has a pending interrupt (and clears it), else when the timer
      expires, and in both cases control returns to the flag check. */
  function CleanerNext(c: CleanerState, timerExpired: bool): (r: CleanerState)
    ensures r.stopped == c.stopped
    ensures c.phase == Exited ==> r == c
    ensures r.phase == Exited <==> c.phase == Exited || (c.phase == AtFlagCheck && c.stopped)
    ensures r.phase == Sweeping <==> c.phase == AtFlagCheck && !c.stopped
    ensures c.phase == Sleeping ==> (r.phase == AtFlagCheck <==> c.interrupted || timerExpired)
    ensures c.phase == Sleeping && c.interrupted ==> !r.interrupted
  {
    match c.phase
    case AtFlagCheck => c.(phase := if c.stopped then Exited else Sweeping)
    case Sweeping => c.(phase := Sleeping)
    case Sleeping =>
      if c.interrupted then c.(phase := AtFlagCheck, interrupted := false)
      else if timerExpired then c.(phase := AtFlagCheck)
      else c
    case Exited => c
  }

  /** `Cleaner.stop`: set the flag, then interrupt the thread. */
  function CleanerStop(c: CleanerState): (r: CleanerState)
    ensures r.stopped && r.interrupted && r.phase == c.phase
    ensures c.phase == Sleeping ==> CleanerNext(r, false).phase == AtFlagCheck
  {
    c.(stopped := true, interrupted := true)
  }

  /** The cleaner after one step per timer reading in `timers`. */
  function CleanerRun(c: CleanerState, timers: seq<bool>): CleanerState
    decreases |timers|
  {
    if timers == [] then c else CleanerRun(CleanerNext(c, timers[0]), timers[1..])
  }

  /** The number of sweeps begun during those steps. */
  function SweepsBegun(c: CleanerState, timers: seq<bool>): nat
    decreases |timers|
  {
    if timers == [] then 0
    else
      var c' := CleanerNext(c, timers[0]);
      (if c.phase == AtFlagCheck && c'.phase == Sweeping then 1 else 0) + SweepsBegun(c', timers[1..])
  }

  /** The number of sweeps completed during those steps. */
  function SweepsCompleted(c: CleanerState, timers: seq<bool>): nat
    decreases |timers|
  {
    if timers == [] then 0
    else
      var c' := CleanerNext(c, timers[0]);
      (if c.phase == Sweeping then 1 else 0) + SweepsCompleted(c', timers[1..])
  }

  /** A stop is in effect: the flag is set, and the interrupt is still pending unless
      the thread is at the flag check or has left the loop. */
  ghost predicate StopPending(c: CleanerState) {
    c.stopped && (c.interrupted || c.phase == AtFlagCheck || c.phase == Exited)
  }

  /** The steps the cleaner still takes once a stop is in effect. */
  function StepsToExit(p: Phase): nat {
    match p
    case Sweeping => 3
    case Sleeping => 2
    case AtFlagCheck => 1
    case Exited => 0
  }

  /** Right after `stop`, a stop is in effect, whatever the thread was doing. */
  lemma StopTakesEffect(c: CleanerState)
    ensures StopPending(CleanerStop(c))
  {
  }

  /** An interrupted sleep goes back to the flag check, whatever the timer says. */
  lemma InterruptedSleepChecksFlag(c: CleanerState, timerExpired: bool)
    requires c.phase == Sleeping && c.interrupted
    ensures CleanerNext(c, timerExpired).phase == AtFlagCheck
  {
  }

  /** Once stopped, the cleaner begins no new sweep, however it is scheduled. */
  lemma {:induction false} StoppedBeginsNoSweep(c: CleanerState, timers: seq<bool>)
    requires c.stopped
    ensures SweepsBegun(c, timers) == 0
    decreases |timers|
  {
    if timers != [] {
      StoppedBeginsNoSweep(CleanerNext(c, timers[0]), timers[1..]);
    }
  }

  /** Once stopped, at most the sweep already in progress completes. */
  lemma {:induction false} StoppedCompletesAtMostCurrentSweep(c: CleanerState, timers: seq<bool>)
    requires c.stopped
    ensures SweepsCompleted(c, timers) <= if c.phase == Sweeping then 1 else 0
    decreases |timers|
  {
    if timers != [] {
      var c' := CleanerNext(c, timers[0]);
      StoppedCompletesAtMostCurrentSweep(c', timers[1..]);
    }
  }

  /** Once a stop is in effect the cleaner leaves its loop within three steps, however
      long its timer would have slept. */
  lemma {:induction false} StoppedCleanerExits(c: CleanerState, timers: seq<bool>)
    requires StopPending(c)
    requires |timers| >= StepsToExit(c.phase)
    ensures CleanerRun(c, timers).phase == Exited
    decreases |timers|
  {
    if timers != [] {
      var c' := CleanerNext(c, timers[0]);
      assert StopPending(c') && StepsToExit(c'.phase) <= StepsToExit(c.phase) - (if c.phase == Exited then 0 else 1);
      StoppedCleanerExits(c', timers[1..]);
    }
  }

  /** The invariant of the manager: the registry is well formed, every session it
      closed was opened by the factory, while the factory is open no closed session
      is still registered, and once it is closed every registered session is closed. */
  ghost predicate Consistent(g: Registry, released: seq<Release>, factoryOpen: bool) {
    && WellFormed(g)
    && (forall i | 0 <= i < |released| && released[i].SessionClosed? :: released[i].session.id < g.nextId)
    && (factoryOpen ==> forall i | 0 <= i < |released| && released[i].SessionClosed? ::
                          released[i].session !in g.sessions.Values)
    && (!factoryOpen ==> forall w | w in g.sessions :: SessionClosed(g.sessions[w]) in released)
  }

  /** A sweep keeps the invariant: the sessions it closes belong to workers it removes,
      and no worker left in the table shares one of them. */
  lemma SweepKeepsConsistent(m: map<Worker, Session>, log: seq<Release>, alive: set<Worker>,
                             m': map<Worker, Session>, log': seq<Release>, nextId: nat, factoryOpen: bool)
    requires Consistent(Registry(m, nextId), log, factoryOpen)
    requires SweepEffect(m, log, alive, m', log')
    ensures Consistent(Registry(m', nextId), log', factoryOpen)
  {
    forall i | 0 <= i < |log'| && log'[i].SessionClosed?
      ensures log'[i].session.id < nextId
      ensures factoryOpen ==> log'[i].session !in m'.Values
    {
      if i < |log| {
        assert log'[i] == log[i];
      } else {
        assert log'[i] == log'[|log|..][i - |log|];
        assert log'[i].session in DeadSessions(m, alive);
        var w :| w in m && w !in alive && m[w] == log'[i].session;
        if factoryOpen {
          forall v | v in m'
            ensures m'[v] != log'[i].session
          {
            assert v in alive && m'[v] == m[v];
          }
        }
      }
    }
    if !factoryOpen {
      forall w | w in m' ensures SessionClosed(m'[w]) in log' {
        assert SessionClosed(m[w]) in log'[..|log|];
      }
    }
  }

  /** What `close` releases after what was released before: the cleaner first, then
      every session in `values` once, then the factory last. */
  ghost predicate ClosingEffect(log: seq<Release>, values: set<Session>, log': seq<Release>) {
    && |log'| == |log| + |values| + 2
    && log'[..|log|] == log
    && log'[|log|] == CleanerStopped
    && (forall i | |log| < i < |log'| - 1 :: log'[i].SessionClosed?)
    && ClosedSessions(log'[|log| + 1..|log'| - 1]) == values
    && log'[|log'| - 1] == FactoryClosed
  }

  /** Part way through closing the sessions in `values`: those still in `todo` are
      open, the others have been closed once each after `log0`. */
  ghost predicate ClosingInProgress(log0: seq<Release>, values: set<Session>, todo: set<Session>, log: seq<Release>) {
    && todo <= values
    && |log0| <= |log|
    && log[..|log0|] == log0
    && (forall i | |log0| <= i < |log| :: log[i].SessionClosed?)
    && ClosedSessions(log[|log0|..]) == values - todo
    && |log| - |log0| == |values - todo|
  }

  lemma ClosingStarts(log: seq<Release>, values: set<Session>)
    ensures ClosingInProgress(log, values, values, log)
  {
    assert log[|log|..] == [];
    assert values - values == {};
  }

  lemma ClosingSteps(log0: seq<Release>, values: set<Session>, todo: set<Session>, log: seq<Release>, s: Session)
    requires ClosingInProgress(log0, values, todo, log)
    requires s in todo
    ensures ClosingInProgress(log0, values, todo - {s}, log + [SessionClosed(s)])
  {
    var log' := log + [SessionClosed(s)];
    assert log'[..|log0|] == log0;
    assert log'[|log0|..] == log[|log0|..] + [SessionClosed(s)];
    ClosedSessionsAppend(log[|log0|..], SessionClosed(s));
    assert values - (todo - {s}) == (values - todo) + {s};
  }

  /** After `close` the registry is still well formed, and every session closed was
      opened by the factory. */
  lemma ClosingKeepsConsistent(g: Registry, log: seq<Release>, factoryOpen: bool, log': seq<Release>)
    requires Consistent(g, log, factoryOpen)
    requires ClosingEffect(log, g.sessions.Values, log')
    ensures Consistent(g, log', false)
  {
    forall i | 0 <= i < |log'| && log'[i].SessionClosed?
      ensures log'[i].session.id < g.nextId
    {
      if i < |log| {
        assert log'[i] == log[i];
      } else {
        assert log'[i] == log'[|log| + 1..|log'| - 1][i - |log| - 1];
        assert log'[i].session in g.sessions.Values;
      }
    }
    var closing := log'[|log| + 1..|log'| - 1];
    forall w | w in g.sessions ensures SessionClosed(g.sessions[w]) in log' {
      assert g.sessions[w] in ClosedSessions(closing);
      var i :| 0 <= i < |closing| && closing[i].SessionClosed? && closing[i].session == g.sessions[w];
      assert closing[i] == log'[|log| + 1 + i];
    }
  }

  /** Closing every session after stopping the cleaner, then closing the factory,
      gives the effect of `close` and leaves the (now closed) registry consistent. */
  lemma ClosingEnds(log: seq<Release>, log0: seq<Release>, values: set<Session>, logN: seq<Release>, nextId: nat)
    requires log0 == log + [CleanerStopped]
    requires ClosingInProgress(log0, values, {}, logN)
    ensures ClosingEffect(log, values, logN + [FactoryClosed])
  {
    var log' := logN + [FactoryClosed];
    assert log'[..|log|] == log;
    assert log'[|log| + 1..|log'| - 1] == logN[|log0|..];
  }

  // ---------------------------------------------------------------------------
  // The manager object.

  class SessionManager {
    /** How long the cleaner sleeps between sweeps; time is not modelled. */
    const checkMillis: int

    /** The table from worker to session. */
    var sessions: map<Worker, Session>
    /** The factory's counter: the number of the next session it opens. */
    var nextSessionId: nat
    var factoryOpen: bool
    /** Everything released so far, in order. */
    var released: seq<Release>

    // The cleaner thread.
    var phase: Phase
    var stopped: bool
    var interrupted: bool

    function View(): Registry
      reads this
    {
      Registry(sessions, nextSessionId)
    }

    function Cleaner(): CleanerState
      reads this
    {
      CleanerState(phase, stopped, interrupted)
    }

    /** The registry is well formed, and while the factory is open no session that
        was closed is still handed out. */
    ghost predicate Valid()
      reads this
    {
      Consistent(View(), released, factoryOpen)
    }

    /** Whether the session `s` has not been closed. */
    predicate IsOpen(s: Session)
      reads this
    {
      SessionClosed(s) !in released
    }

    /** Creates the manager and starts its cleaner thread. */
    constructor (checkMillis: int)
      ensures Valid()
      ensures this.checkMillis == checkMillis
      ensures sessions == map[] && nextSessionId == 0 && factoryOpen && released == []
      ensures Cleaner() == CleanerState(AtFlagCheck, false, false)
    {
      this.checkMillis := checkMillis;
      sessions := map[];
      nextSessionId := 0;
      factoryOpen := true;
      released := [];
      phase := AtFlagCheck;
      stopped := false;
      interrupted := false;
    }

    /** `factory.openSession()`: a fresh session, or an error once the factory is closed. */
    method OpenSession() returns (r: Result<Session, Error>)
      modifies this`nextSessionId
      ensures factoryOpen ==> r == Success(Session(old(nextSessionId))) && nextSessionId == old(nextSessionId) + 1
      ensures !factoryOpen ==> r == Failure(FactoryClosedError) && nextSessionId == old(nextSessionId)
    {
      if !factoryOpen {
        return Failure(FactoryClosedError);
      }
      r := Success(Session(nextSessionId));
      nextSessionId := nextSessionId + 1;
    }

    /** `getSession()` for the worker `w`: get-or-create. */
    method GetSession(w: Worker) returns (r: Result<Session, Error>)
      requires Valid()
      modifies this`sessions, this`nextSessionId
      ensures Valid()
      ensures w in old(sessions) || factoryOpen ==> r.Success? && (View(), r.value) == Acquire(old(View()), w)
      ensures w !in old(sessions) && !factoryOpen ==> r == Failure(FactoryClosedError) && View() == old(View())
    {
      if w in sessions {
        return Success(sessions[w]);
      }
      var session :- OpenSession();
      sessions := sessions[w := session];
      r := Success(session);
    }

    /** The `for` loop of `Cleaner.run`: for every registered worker that is not alive,
        close its session and remove its entry. */
    method Sweep(alive: set<Worker>)
      requires Valid()
      modifies this`sessions, this`released
      ensures Valid()
      ensures SweepEffect(old(sessions), old(released), alive, sessions, released)
    {
      ghost var m0, log0, g0 := sessions, released, View();
      assert Consistent(g0, log0, factoryOpen);
      var todo := sessions.Keys;
      var table, log := sessions, released;
      SweepStarts(m0, log0, alive);
      while todo != {}
        invariant SweepInProgress(m0, log0, alive, todo, table, log)
        modifies {}
        decreases todo
      {
        var w :| w in todo;
        SweepSteps(m0, log0, alive, todo, table, log, w);
        if w !in alive {
          log := log + [SessionClosed(table[w])];
          table := table - {w};
        }
        todo := todo - {w};
      }
      sessions, released := table, log;
      SweepEnds(m0, log0, alive, sessions, released);
      SweepKeepsConsistent(m0, log0, alive, sessions, released, g0.nextId, factoryOpen);
      assert View() == Registry(sessions, g0.nextId);
    }

    /** `Cleaner.stop`: set the flag, then interrupt the cleaner thread. */
    method StopCleaner()
      modifies this`stopped, this`interrupted, this`released
      ensures Cleaner() == CleanerStop(old(Cleaner()))
      ensures released == old(released) + [CleanerStopped]
    {
      stopped := true;
      interrupted := true;
      released := released + [CleanerStopped];
    }

    /** One step of `Cleaner.run`, with the liveness of the workers at that moment and
        whether the sleep timer has expired. */
    method CleanerStep(alive: set<Worker>, timerExpired: bool)
      requires Valid()
      modifies this`phase, this`interrupted, this`sessions, this`released
      ensures Valid()
      ensures Cleaner() == CleanerNext(old(Cleaner()), timerExpired)
      ensures old(phase) == Sweeping ==> SweepEffect(old(sessions), old(released), alive, sessions, released)
      ensures old(phase) != Sweeping ==> sessions == old(sessions) && released == old(released)
    {
      var next := CleanerNext(Cleaner(), timerExpired);
      if phase == Sweeping {
        Sweep(alive);
      }
      phase, interrupted := next.phase, next.interrupted;
    }

    /** `close()`: stop the cleaner, close every registered session, close the factory. */
    method Close()
      requires Valid()
      modifies this`stopped, this`interrupted, this`released, this`factoryOpen
      ensures Valid()
      ensures Cleaner() == CleanerStop(old(Cleaner())) && !factoryOpen
      ensures ClosingEffect(old(released), sessions.Values, released)
    {
      ghost var g0 := View();
      assert Consistent(g0, released, factoryOpen);
      StopCleaner();
      ghost var log0 := released;
      var values := sessions.Values;
      var todo, log := values, released;
      ClosingStarts(log0, values);
      while todo != {}
        invariant ClosingInProgress(log0, values, todo, log)
        modifies {}
        decreases todo
      {
        var s :| s in todo;
        ClosingSteps(log0, values, todo, log, s);
        log := log + [SessionClosed(s)];
        todo := todo - {s};
      }
      factoryOpen := false;
      released := log + [FactoryClosed];
      ClosingEnds(old(released), log0, values, log, nextSessionId);
      ClosingKeepsConsistent(g0, old(released), old(factoryOpen), released);
      assert View() == g0;
    }
  }
}
