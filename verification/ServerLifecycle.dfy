// Starting and stopping the web language server: all interleavings of what runs between two awaits.
module ServerLifecycle {
  import opened Basics

  type Pid = nat
  type Owner = nat

  // A server factory in flight, by the await it is suspended at.
  datatype Factory =
    | Loading                 // loading the WASM engine
    | StoppingPrevious        // terminating the process it replaces
    | Creating                // its own process is being created
    | Holding(pid: Pid)       // created; the final staleness check is still to come

  // The queued action being run, by the await it is suspended at. `restart` says whether a
  // start follows the stop.
  datatype Action =
    | Idle
    | Starting
    | AnnouncingStart
    | AnnouncingStop(restart: bool)
    | DisposingClient(restart: bool)
    | TerminatingProcess(restart: bool)
    | RestartPending          // stopped; the start that follows has not begun

  datatype State = State(
    process: Option<Pid>,
    disposed: bool,
    generation: nat,
    client: Option<Owner>,
    running: bool,
    action: Action,
    factories: map<Owner, Factory>,  // at most one in flight per owner
    // History: the processes ever created with the owner each was created for, those told to
    // terminate, and the owners ever given to a client.
    created: map<Pid, Owner>,
    terminated: set<Pid>,
    owners: set<Owner>)

  const INITIAL: State := State(None, false, 0, None, false, Idle, map[], map[], {}, {})

  predicate Stale(s: State, owner: Owner) {
    s.disposed || owner != s.generation
  }

  function Terminate(s: State, pid: Option<Pid>): State {
    if pid.Some? then s.(terminated := s.terminated + {pid.value}) else s
  }

  function Finish(s: State, owner: Owner): State {
    s.(factories := s.factories - {owner})
  }

  function Suspend(s: State, owner: Owner, at: Factory): State {
    s.(factories := s.factories[owner := at])
  }

  // ---------------------------------------------------------------- the server factory

  // A client asks for its server, at first or after a crash. Any client ever made may ask.
  predicate FactoryCalled(s: State, s': State, owner: Owner) {
    owner in s.owners && owner !in s.factories && s' == Suspend(s, owner, Loading)
  }

  // The engine is loaded: give up if stale (or if the engine is too old), else stop the previous process.
  predicate FactoryLoaded(s: State, s': State, owner: Owner) {
    owner in s.factories && s.factories[owner].Loading?
    && (if Stale(s, owner) then s' == Finish(s, owner)
        else s' == Suspend(Terminate(s, s.process), owner, StoppingPrevious) || s' == Finish(s, owner))
  }

  predicate FactoryStopped(s: State, s': State, owner: Owner) {
    owner in s.factories && s.factories[owner].StoppingPrevious?
    && s' == if Stale(s, owner) then Finish(s, owner) else Suspend(s, owner, Creating)
  }

  predicate ProcessCreated(s: State, s': State, owner: Owner, pid: Pid) {
    owner in s.factories && s.factories[owner].Creating? && pid !in s.created
    && s' == Suspend(s, owner, Holding(pid)).(created := s.created[pid := owner])
  }

  // The final check: a stale start terminates its own process, any other installs it.
  predicate FactoryResumed(s: State, s': State, owner: Owner) {
    owner in s.factories && s.factories[owner].Holding?
    && var pid := s.factories[owner].pid;
       s' == if Stale(s, owner) then Finish(Terminate(s, Some(pid)), owner)
             else Finish(s, owner).(process := Some(pid))
  }

  // An awaited call failed before a process existed.
  predicate FactoryFailed(s: State, s': State, owner: Owner) {
    owner in s.factories && !s.factories[owner].Holding? && s' == Finish(s, owner)
  }

  ghost predicate FactoryStep(s: State, s': State, owner: Owner) {
    FactoryLoaded(s, s', owner) || FactoryStopped(s, s', owner) || FactoryResumed(s, s', owner)
    || FactoryFailed(s, s', owner) || (exists pid: Pid :: ProcessCreated(s, s', owner, pid))
  }

  // ---------------------------------------------------------------- the queued actions

  // A new owner, a new client, and the wait for it to start.
  function BeginStart(s: State): State {
    var owner := s.generation + 1;
    s.(generation := owner, client := Some(owner), owners := s.owners + {owner}, action := Starting)
  }

  // The synchronous part of disposing the client: stale from here on.
  function BeginDispose(s: State, restart: bool): State {
    s.(client := None, generation := s.generation + 1, action := DisposingClient(restart))
  }

  // The process is forgotten; what awaits the stop resumes later.
  function EndDispose(s: State, restart: bool): State {
    s.(process := None, action := if restart then RestartPending else Idle)
  }

  predicate StartQueued(s: State, s': State) {
    s.action.Idle? && s' == BeginStart(s)
  }

  // Stopping a server that is not running is nothing; a restart then starts it.
  predicate StopQueued(s: State, s': State, restart: bool) {
    s.action.Idle?
    && s' == if s.running then s.(running := false, action := AnnouncingStop(restart))
             else if restart then s.(action := RestartPending) else s
  }

  predicate RestartBegun(s: State, s': State) {
    s.action.RestartPending? && s' == BeginStart(s)
  }

  predicate StartFinished(s: State, s': State) {
    s.action.Starting?
    && (s' == s.(running := true, action := AnnouncingStart) || s' == BeginDispose(s, false))
  }

  predicate StartAnnounced(s: State, s': State) {
    s.action.AnnouncingStart? && s' == s.(action := Idle)
  }

  // Announcing the stop can fail, which abandons the action.
  predicate StopAnnounced(s: State, s': State) {
    s.action.AnnouncingStop? && (s' == BeginDispose(s, s.action.restart) || s' == s.(action := Idle))
  }

  predicate ClientDisposed(s: State, s': State) {
    s.action.DisposingClient? && s' == Terminate(s, s.process).(action := TerminatingProcess(s.action.restart))
  }

  // Waiting for the process to terminate can fail, which abandons the action.
  predicate ProcessTerminated(s: State, s': State) {
    s.action.TerminatingProcess? && (s' == EndDispose(s, s.action.restart) || s' == s.(action := Idle))
  }

  predicate ActionStep(s: State, s': State) {
    StartQueued(s, s') || RestartBegun(s, s') || StartFinished(s, s') || StartAnnounced(s, s') || StopAnnounced(s, s')
    || ClientDisposed(s, s') || ProcessTerminated(s, s') || StopQueued(s, s', true) || StopQueued(s, s', false)
  }

  predicate ExtensionDisposed(s: State, s': State) {
    s' == Terminate(s, s.process).(disposed := true)
  }

  ghost predicate Next(s: State, s': State) {
    ActionStep(s, s') || ExtensionDisposed(s, s')
    || exists owner: Owner :: FactoryCalled(s, s', owner) || FactoryStep(s, s', owner)
  }

  // ---------------------------------------------------------------- the invariant

  // Every process is terminated, current, or held by a start short of its final check.
  ghost predicate Accounted(s: State) {
    forall pid :: pid in s.created ==>
      pid in s.terminated || s.process == Some(pid)
      || (s.created[pid] in s.factories && s.factories[s.created[pid]] == Holding(pid))
  }

  // A start past its first check, and not stale, has told the current process to terminate.
  ghost predicate PreviousStopped(s: State) {
    forall owner :: owner in s.factories && !s.factories[owner].Loading? && owner == s.generation ==>
      s.process.None? || s.process.value in s.terminated
  }

  ghost predicate HeldAreCreated(s: State) {
    && (forall owner :: owner in s.factories && s.factories[owner].Holding? ==>
          s.factories[owner].pid in s.created && s.created[s.factories[owner].pid] == owner
          && s.process != Some(s.factories[owner].pid))
    && (s.process.Some? ==> s.process.value in s.created)
  }

  ghost predicate OwnersAreOld(s: State) {
    && (forall owner :: owner in s.owners ==> owner <= s.generation)
    && (forall owner :: owner in s.factories ==> owner in s.owners)
    && (forall pid :: pid in s.created ==> s.created[pid] in s.owners)
    && ((s.action.DisposingClient? || s.action.TerminatingProcess?) ==> s.generation !in s.owners)
  }

  // Once disposing has reached the process, that process stays terminated.
  ghost predicate StoppedStaysStopped(s: State) {
    (s.disposed || s.action.TerminatingProcess?) && s.process.Some? ==> s.process.value in s.terminated
  }

  ghost predicate Inv(s: State) {
    Accounted(s) && PreviousStopped(s) && HeldAreCreated(s) && OwnersAreOld(s) && StoppedStaysStopped(s)
  }

  lemma BeginStartKeepsInv(s: State)
    requires Inv(s)
    ensures Inv(BeginStart(s))
  {
  }

  lemma BeginDisposeKeepsInv(s: State, restart: bool)
    requires Inv(s) && !s.action.TerminatingProcess?
    ensures Inv(BeginDispose(s, restart))
  {
  }

  lemma QuietStepKeepsInv(s: State, running: bool, action: Action)
    requires Inv(s) && !action.DisposingClient? && !action.TerminatingProcess?
    ensures Inv(s.(running := running, action := action))
  {
  }

  lemma ClientDisposedKeepsInv(s: State, s': State)
    requires Inv(s) && ClientDisposed(s, s')
    ensures Inv(s')
  {
  }

  lemma EndDisposeKeepsInv(s: State, restart: bool)
    requires Inv(s) && s.action.TerminatingProcess?
    ensures Inv(EndDispose(s, restart))
  {
  }

  lemma ActionKeepsInv(s: State, s': State)
    requires Inv(s) && ActionStep(s, s')
    ensures Inv(s')
  {
    match s.action
    case Idle =>
      BeginStartKeepsInv(s);
      QuietStepKeepsInv(s, false, AnnouncingStop(true));
      QuietStepKeepsInv(s, false, AnnouncingStop(false));
      QuietStepKeepsInv(s, s.running, RestartPending);
    case RestartPending =>
      BeginStartKeepsInv(s);
    case Starting =>
      BeginDisposeKeepsInv(s, false);
      QuietStepKeepsInv(s, true, AnnouncingStart);
    case AnnouncingStart =>
      QuietStepKeepsInv(s, s.running, Idle);
    case AnnouncingStop(restart) =>
      BeginDisposeKeepsInv(s, restart);
      QuietStepKeepsInv(s, s.running, Idle);
    case DisposingClient(_) =>
      ClientDisposedKeepsInv(s, s');
    case TerminatingProcess(restart) =>
      EndDisposeKeepsInv(s, restart);
      QuietStepKeepsInv(s, s.running, Idle);
  }

  lemma FactoryCalledKeepsInv(s: State, s': State, owner: Owner)
    requires Inv(s) && FactoryCalled(s, s', owner)
    ensures Inv(s')
  {
  }

  lemma FactoryLoadedKeepsInv(s: State, s': State, owner: Owner)
    requires Inv(s) && (FactoryLoaded(s, s', owner) || FactoryFailed(s, s', owner))
    ensures Inv(s')
  {
    if s' == Finish(s, owner) {
      FinishKeepsInv(s, owner);
    } else {
      StoppingKeepsInv(s, owner);
    }
  }

  // A start that holds no process can be forgotten.
  lemma FinishKeepsInv(s: State, owner: Owner)
    requires Inv(s) && owner in s.factories && !s.factories[owner].Holding?
    ensures Inv(Finish(s, owner))
  {
    var after := Finish(s, owner);
    assert Accounted(after);
    assert PreviousStopped(after);
    assert HeldAreCreated(after);
  }

  lemma StoppingKeepsInv(s: State, owner: Owner)
    requires Inv(s) && owner in s.factories && s.factories[owner].Loading?
    ensures Inv(Suspend(Terminate(s, s.process), owner, StoppingPrevious))
  {
    var after := Suspend(Terminate(s, s.process), owner, StoppingPrevious);
    assert Accounted(after);
    assert PreviousStopped(after);
    assert HeldAreCreated(after);
  }

  lemma FactoryStoppedKeepsInv(s: State, s': State, owner: Owner)
    requires Inv(s) && FactoryStopped(s, s', owner)
    ensures Inv(s')
  {
  }

  lemma ProcessCreatedKeepsInv(s: State, s': State, owner: Owner, pid: Pid)
    requires Inv(s) && ProcessCreated(s, s', owner, pid)
    ensures Inv(s')
  {
  }

  lemma FactoryResumedKeepsInv(s: State, s': State, owner: Owner)
    requires Inv(s) && FactoryResumed(s, s', owner)
    ensures Inv(s')
  {
  }

  lemma ExtensionDisposedKeepsInv(s: State, s': State)
    requires Inv(s) && ExtensionDisposed(s, s')
    ensures Inv(s')
  {
  }

  lemma NextKeepsInv(s: State, s': State)
    requires Inv(s) && Next(s, s')
    ensures Inv(s')
  {
    if ActionStep(s, s') {
      ActionKeepsInv(s, s');
    } else if ExtensionDisposed(s, s') {
      ExtensionDisposedKeepsInv(s, s');
    } else {
      var owner: Owner :| FactoryCalled(s, s', owner) || FactoryStep(s, s', owner);
      if FactoryCalled(s, s', owner) {
        FactoryCalledKeepsInv(s, s', owner);
      } else if FactoryStopped(s, s', owner) {
        FactoryStoppedKeepsInv(s, s', owner);
      } else if FactoryResumed(s, s', owner) {
        FactoryResumedKeepsInv(s, s', owner);
      } else if FactoryLoaded(s, s', owner) || FactoryFailed(s, s', owner) {
        FactoryLoadedKeepsInv(s, s', owner);
      } else {
        var pid: Pid :| ProcessCreated(s, s', owner, pid);
        ProcessCreatedKeepsInv(s, s', owner, pid);
      }
    }
  }

  // ---------------------------------------------------------------- whole runs

  ghost predicate IsRun(run: seq<State>) {
    run != [] && forall i :: 0 <= i < |run| - 1 ==> StepAt(run, i)
  }

  ghost predicate StepAt(run: seq<State>, i: int)
    requires 0 <= i < |run| - 1
  {
    Next(run[i], run[i + 1])
  }

  lemma {:induction false} RunKeepsInv(run: seq<State>)
    requires IsRun(run) && run[0] == INITIAL
    ensures Inv(run[|run| - 1])
  {
    if |run| > 1 {
      var before := run[..|run| - 1];
      RunPrefix(run, |run| - 1);
      RunKeepsInv(before);
      assert StepAt(run, |run| - 2);
      NextKeepsInv(run[|run| - 2], run[|run| - 1]);
    }
  }

  predicate HeldShortOfCheck(s: State, pid: Pid) {
    exists owner | owner in s.factories :: s.factories[owner] == Holding(pid)
  }

  // No interleaving loses a process: each one ever created is terminated, is the current one,
  // or is in the hands of a start still short of its final check.
  lemma NoProcessIsLost(run: seq<State>, pid: Pid)
    requires IsRun(run) && run[0] == INITIAL && pid in run[|run| - 1].created
    ensures var s := run[|run| - 1];
      pid in s.terminated || s.process == Some(pid) || HeldShortOfCheck(s, pid)
  {
    RunKeepsInv(run);
  }

  // At most one process that no start still holds is left running.
  lemma OneServerAtMost(run: seq<State>, p: Pid, q: Pid)
    requires IsRun(run) && run[0] == INITIAL
    requires var s := run[|run| - 1];
      p in s.created && p !in s.terminated && !HeldShortOfCheck(s, p)
      && q in s.created && q !in s.terminated && !HeldShortOfCheck(s, q)
    ensures p == q && run[|run| - 1].process == Some(p)
  {
    NoProcessIsLost(run, p);
    NoProcessIsLost(run, q);
  }

  // Installing a process never drops a running one.
  lemma InstallReplacesOnlyStopped(run: seq<State>, s': State, owner: Owner)
    requires IsRun(run) && run[0] == INITIAL
    requires var s := run[|run| - 1]; FactoryResumed(s, s', owner) && s'.process != s.process
    ensures var s := run[|run| - 1];
      owner == s.generation && !s.disposed
      && s'.process.Some? && s'.process.value in s.created && s.created[s'.process.value] == owner
      && (s.process.Some? ==> s.process.value in s.terminated)
  {
    RunKeepsInv(run);
  }

  // A stale start changes nothing but itself and its own process, which is not the current one.
  lemma StaleStartIsHarmless(run: seq<State>, s': State, owner: Owner)
    requires IsRun(run) && run[0] == INITIAL
    requires var s := run[|run| - 1]; FactoryStep(s, s', owner) && Stale(s, owner)
    ensures var s := run[|run| - 1];
      s'.process == s.process
      && (s.process.Some? ==> (s.process.value in s'.terminated <==> s.process.value in s.terminated))
      && forall pid :: pid in s'.terminated - s.terminated ==> s.factories[owner] == Holding(pid)
  {
    RunKeepsInv(run);
  }

  // ---------------------------------------------------------------- after disposing the client

  // Every owner up to g is past, and the current process, if any, belongs to a later one.
  ghost predicate PastGeneration(g: nat, s: State) {
    g <= s.generation && g !in s.owners
    && (s.process.Some? && s.process.value in s.created ==> g < s.created[s.process.value])
  }

  lemma ActionKeepsPast(g: nat, s: State, s': State)
    requires PastGeneration(g, s) && ActionStep(s, s')
    ensures PastGeneration(g, s')
  {
  }

  lemma FactoryKeepsPast(g: nat, s: State, s': State, owner: Owner)
    requires Inv(s) && PastGeneration(g, s) && FactoryStep(s, s', owner)
    ensures PastGeneration(g, s')
  {
    if exists pid: Pid :: ProcessCreated(s, s', owner, pid) {
      var pid: Pid :| ProcessCreated(s, s', owner, pid);
    } else if FactoryResumed(s, s', owner) {
    }
  }

  lemma NextKeepsPast(g: nat, s: State, s': State)
    requires Inv(s) && PastGeneration(g, s) && Next(s, s')
    ensures PastGeneration(g, s')
  {
    if ActionStep(s, s') {
      ActionKeepsPast(g, s, s');
    } else if !ExtensionDisposed(s, s') {
      var owner: Owner :| FactoryCalled(s, s', owner) || FactoryStep(s, s', owner);
      if FactoryStep(s, s', owner) {
        FactoryKeepsPast(g, s, s', owner);
      }
    }
  }

  lemma RunPrefix(run: seq<State>, n: nat)
    requires IsRun(run) && 0 < n <= |run|
    ensures IsRun(run[..n]) && run[..n][0] == run[0] && run[..n][n - 1] == run[n - 1]
  {
    forall i | 0 <= i < n - 1
      ensures StepAt(run[..n], i)
    {
      assert StepAt(run, i);
    }
  }

  lemma EndDisposeIsPast(s: State)
    requires Inv(s) && s.action.TerminatingProcess?
    ensures PastGeneration(s.generation, EndDispose(s, s.action.restart))
  {
  }

  lemma {:induction false} PastAlongRun(g: nat, run: seq<State>, from: nat)
    requires IsRun(run) && from < |run| && Inv(run[from]) && PastGeneration(g, run[from])
    ensures Inv(run[|run| - 1]) && PastGeneration(g, run[|run| - 1])
    decreases |run| - from
  {
    if from + 1 < |run| {
      assert StepAt(run, from);
      NextKeepsInv(run[from], run[from + 1]);
      NextKeepsPast(g, run[from], run[from + 1]);
      PastAlongRun(g, run, from + 1);
    }
  }

  // Once disposing the client has completed, in every continuation each start that was made
  // before is stale, and the current process, if any, was created for a later start.
  lemma DisposeDefeatsEarlierStarts(run: seq<State>, disposed: nat, owner: Owner)
    requires IsRun(run) && run[0] == INITIAL && disposed + 1 < |run|
    requires run[disposed].action.TerminatingProcess?
    requires run[disposed + 1] == EndDispose(run[disposed], run[disposed].action.restart)
    requires owner in run[disposed].owners
    ensures var s := run[|run| - 1];
      Stale(s, owner)
      && (s.process.Some? ==> s.process.value in s.created && owner < s.created[s.process.value])
  {
    RunPrefix(run, disposed + 1);
    RunKeepsInv(run[..disposed + 1]);
    assert StepAt(run, disposed);
    NextKeepsInv(run[disposed], run[disposed + 1]);
    EndDisposeIsPast(run[disposed]);
    PastAlongRun(run[disposed].generation, run, disposed + 1);
  }

  // When disposing completes, whatever still runs is held by a stale start, which will end it.
  lemma DisposeLeavesNothingRunning(run: seq<State>, pid: Pid)
    requires IsRun(run) && run[0] == INITIAL
    requires var s := run[|run| - 1];
      s.action.TerminatingProcess? && pid in s.created && pid !in s.terminated
    ensures var s := run[|run| - 1];
      var owner := s.created[pid];
      owner in s.factories && s.factories[owner] == Holding(pid) && Stale(s, owner)
  {
    RunKeepsInv(run);
  }

  // After the extension is disposed and the last factory has finished, nothing runs.
  lemma DisposedExtensionStopsEverything(run: seq<State>)
    requires IsRun(run) && run[0] == INITIAL
    requires run[|run| - 1].disposed && run[|run| - 1].factories == map[]
    ensures run[|run| - 1].created.Keys <= run[|run| - 1].terminated
  {
    RunKeepsInv(run);
  }
}
