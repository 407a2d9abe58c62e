// What starting, stopping and restarting the web language server achieve, over all interleavings.
module ServerProgress {
  import opened Basics
  import opened ServerLifecycle

  // ---------------------------------------------------------------- every action ends

  // How many steps a queued action can still take.
  function StepsLeft(action: Action): nat {
    match action
    case Idle => 0
    case AnnouncingStart => 1
    case TerminatingProcess(restart) => if restart then 6 else 2
    case DisposingClient(restart) => if restart then 7 else 3
    case Starting => 4
    case RestartPending => 5
    case AnnouncingStop(restart) => 8
  }

  lemma ActionsEnd(s: State, s': State)
    requires ActionStep(s, s') && !s.action.Idle?
    ensures StepsLeft(s'.action) < StepsLeft(s.action)
  {
  }

  // The step abandons its action, or takes back a start that failed.
  predicate ActionFails(s: State, s': State) {
    (s.action.AnnouncingStop? && s' == s.(action := Idle))
    || (s.action.TerminatingProcess? && s' == s.(action := Idle) && s' != EndDispose(s, s.action.restart))
    || (s.action.Starting? && s'.action.DisposingClient?)
  }

  // No action is ever stuck: it has a next step that does not fail.
  lemma ActionsProceed(s: State) returns (s': State)
    requires !s.action.Idle?
    ensures ActionStep(s, s') && !ActionFails(s, s')
  {
    s' := match s.action
      case AnnouncingStart => s.(action := Idle)
      case Starting => s.(running := true, action := AnnouncingStart)
      case AnnouncingStop(restart) => BeginDispose(s, restart)
      case DisposingClient(restart) => Terminate(s, s.process).(action := TerminatingProcess(restart))
      case TerminatingProcess(restart) => EndDispose(s, restart)
      case RestartPending => BeginStart(s);
  }

  // With no action under way a start, a stop and a restart are each taken up.
  lemma RequestsAreTaken(s: State)
    requires s.action.Idle?
    ensures exists s' :: Next(s, s') && s'.action.Starting? && s'.client == Some(s.generation + 1) && s'.generation == s.generation + 1
    ensures s.running ==> exists s' :: Next(s, s') && s' == s.(running := false, action := AnnouncingStop(false))
    ensures s.running ==> exists s' :: Next(s, s') && s' == s.(running := false, action := AnnouncingStop(true))
    ensures !s.running ==> exists s' :: Next(s, s') && s' == s.(action := RestartPending)
  {
    assert StartQueued(s, BeginStart(s)) && Next(s, BeginStart(s));
    if s.running {
      CanStop(s, false);
      CanStop(s, true);
    } else {
      assert StopQueued(s, s.(action := RestartPending), true) && Next(s, s.(action := RestartPending));
    }
  }

  lemma CanStop(s: State, restart: bool)
    requires s.action.Idle? && s.running
    ensures Next(s, s.(running := false, action := AnnouncingStop(restart)))
  {
    assert StopQueued(s, s.(running := false, action := AnnouncingStop(restart)), restart);
  }

  // Each awaited call can fail: a start, which is then taken back, the announcement of a stop and
  // the end of the process, which abandon the action, and the calls of a factory before it holds
  // its process, which end it.
  lemma AwaitsCanFail(s: State, owner: Owner)
    ensures s.action.Starting? ==>
      exists s' :: Next(s, s') && s' == s.(client := None, generation := s.generation + 1, action := DisposingClient(false))
    ensures s.action.AnnouncingStop? || s.action.TerminatingProcess? ==> exists s' :: Next(s, s') && s' == s.(action := Idle)
    ensures owner in s.factories && !s.factories[owner].Holding? ==>
      exists s' :: Next(s, s') && s' == s.(factories := s.factories - {owner})
  {
    if s.action.Starting? {
      assert StartFinished(s, BeginDispose(s, false)) && Next(s, BeginDispose(s, false));
    }
    var idle := s.(action := Idle);
    assert s.action.AnnouncingStop? ==> StopAnnounced(s, idle) && Next(s, idle);
    assert s.action.TerminatingProcess? ==> ProcessTerminated(s, idle) && Next(s, idle);
    var ended := s.(factories := s.factories - {owner});
    assert owner in s.factories && !s.factories[owner].Holding? ==> FactoryFailed(s, ended, owner) && FactoryStep(s, ended, owner) && Next(s, ended);
  }

  // Any client ever made can ask for its server unless it is waiting for one already, and the
  // extension can be disposed at any time.
  lemma OthersCanStep(s: State, owner: Owner)
    ensures owner in s.owners && owner !in s.factories ==>
      exists s' :: Next(s, s') && s' == s.(factories := s.factories[owner := Loading])
    ensures exists s' :: Next(s, s') && s'.disposed && (s.process.Some? ==> s.process.value in s'.terminated)
  {
    var called := s.(factories := s.factories[owner := Loading]);
    assert owner in s.owners && owner !in s.factories ==> FactoryCalled(s, called, owner) && Next(s, called);
    var gone := Terminate(s, s.process).(disposed := true);
    assert ExtensionDisposed(s, gone) && Next(s, gone);
  }

  // ---------------------------------------------------------------- starting and restarting

  // From step i on an action is under way until step j, where none is; no step of it fails.
  ghost predicate Uninterrupted(run: seq<State>, i: nat, j: nat) {
    i + 1 < j < |run| && run[j].action.Idle? && forall k :: i < k < j ==> Proceeds(run, k)
  }

  ghost predicate Proceeds(run: seq<State>, k: int)
    requires 0 <= k < |run| - 1
  {
    !run[k].action.Idle? && !ActionFails(run[k], run[k + 1])
  }

  // The client is a new one: its owner is the current generation, and no owner before was as great.
  ghost predicate HasNewClient(s: State, before: set<Owner>) {
    s.client == Some(s.generation) && s.generation in s.owners && forall owner :: owner in before ==> owner < s.generation
  }

  // A start is still to come, or its client is there.
  ghost predicate WillHaveClient(s: State, before: set<Owner>) {
    match s.action
    case Idle => false
    case Starting => HasNewClient(s, before)
    case AnnouncingStart => HasNewClient(s, before) && s.running
    case RestartPending => true
    case AnnouncingStop(restart) => restart
    case DisposingClient(restart) => restart
    case TerminatingProcess(restart) => restart
  }

  // What holds once the action is over, if its client has come.
  ghost predicate ClientCame(s: State, before: set<Owner>) {
    before <= s.owners && if s.action.Idle? then HasNewClient(s, before) && s.running else WillHaveClient(s, before)
  }

  lemma OthersKeepClient(s: State, s': State)
    requires Next(s, s') && !ActionStep(s, s')
    ensures s'.action == s.action && s'.client == s.client && s'.generation == s.generation && s'.owners == s.owners
    ensures s'.running == s.running
  {
    if !ExtensionDisposed(s, s') {
      var owner: Owner :| FactoryCalled(s, s', owner) || FactoryStep(s, s', owner);
      if FactoryStep(s, s', owner) {
        FactoryKeepsClient(s, s', owner);
      }
    }
  }

  lemma FactoryKeepsClient(s: State, s': State, owner: Owner)
    requires FactoryStep(s, s', owner)
    ensures s'.action == s.action && s'.client == s.client && s'.generation == s.generation && s'.owners == s.owners
    ensures s'.running == s.running
  {
    if !FactoryLoaded(s, s', owner) && !FactoryStopped(s, s', owner) && !FactoryResumed(s, s', owner) && !FactoryFailed(s, s', owner) {
      var pid: Pid :| ProcessCreated(s, s', owner, pid);
    }
  }

  lemma WillHaveClientNext(s: State, s': State, before: set<Owner>)
    requires Inv(s) && Next(s, s') && !ActionFails(s, s') && before <= s.owners
    requires !s.action.Idle? && WillHaveClient(s, before)
    ensures ClientCame(s', before)
  {
    if !ActionStep(s, s') {
      OthersKeepClient(s, s');
    }
  }

  lemma {:induction false} ClientArrives(run: seq<State>, i: nat, j: nat, before: set<Owner>)
    requires IsRun(run) && i < j < |run| && Inv(run[i]) && before <= run[i].owners
    requires run[j].action.Idle? && forall k :: i <= k < j ==> Proceeds(run, k)
    requires WillHaveClient(run[i], before)
    ensures HasNewClient(run[j], before) && run[j].running
    decreases j - i
  {
    assert Proceeds(run, i);
    ClientStep(run, i, before);
    if i + 1 < j {
      assert Proceeds(run, i + 1);
      ClientArrives(run, i + 1, j, before);
    }
  }

  lemma ClientStep(run: seq<State>, i: nat, before: set<Owner>)
    requires IsRun(run) && i + 1 < |run| && Inv(run[i]) && before <= run[i].owners
    requires Proceeds(run, i) && WillHaveClient(run[i], before)
    ensures Inv(run[i + 1]) && ClientCame(run[i + 1], before)
  {
    assert StepAt(run, i);
    NextKeepsInv(run[i], run[i + 1]);
    WillHaveClientNext(run[i], run[i + 1], before);
  }

  lemma InvAt(run: seq<State>, i: nat)
    requires IsRun(run) && run[0] == INITIAL && i < |run|
    ensures Inv(run[i])
  {
    RunPrefix(run, i + 1);
    RunKeepsInv(run[..i + 1]);
  }

  // A restart whose steps do not fail ends with a new client and the server running, whether
  // it was running before or not, and whatever else happens meanwhile.
  lemma RestartStartsAgain(run: seq<State>, i: nat, j: nat)
    requires IsRun(run) && run[0] == INITIAL && Uninterrupted(run, i, j)
    requires StopQueued(run[i], run[i + 1], true)
    ensures HasNewClient(run[j], run[i].owners) && run[j].running
  {
    InvAt(run, i + 1);
    ClientArrives(run, i + 1, j, run[i].owners);
  }

  // So does a start.
  lemma StartStarts(run: seq<State>, i: nat, j: nat)
    requires IsRun(run) && run[0] == INITIAL && Uninterrupted(run, i, j)
    requires StartQueued(run[i], run[i + 1])
    ensures HasNewClient(run[j], run[i].owners) && run[j].running
  {
    InvAt(run, i);
    InvAt(run, i + 1);
    ClientArrives(run, i + 1, j, run[i].owners);
  }

  // ---------------------------------------------------------------- stopping

  // Only stopping is under way.
  predicate Stopping(s: State) {
    !s.running
    && match s.action
       case AnnouncingStop(restart) => !restart
       case DisposingClient(restart) => !restart && s.client == None
       case TerminatingProcess(restart) => !restart && s.client == None
       case _ => false
  }

  // It has gone on, or is over: no client, no process, and no owner more than before.
  predicate Stopped(s: State, s': State) {
    s'.owners == s.owners && !s'.running
    && if s'.action.Idle? then s'.client == None && s'.process == None else Stopping(s')
  }

  lemma StoppingNext(s: State, s': State)
    requires Next(s, s') && !ActionFails(s, s') && Stopping(s)
    ensures Stopped(s, s')
  {
    if !ActionStep(s, s') {
      OthersKeepClient(s, s');
    }
  }

  lemma {:induction false} StopCompletes(run: seq<State>, i: nat, j: nat)
    requires IsRun(run) && i < j < |run| && Stopping(run[i])
    requires run[j].action.Idle? && forall k :: i <= k < j ==> Proceeds(run, k)
    ensures run[j].owners == run[i].owners && !run[j].running && run[j].client == None && run[j].process == None
    decreases j - i
  {
    assert Proceeds(run, i);
    StoppingStep(run, i);
    if i + 1 < j {
      assert Proceeds(run, i + 1);
      StopCompletes(run, i + 1, j);
    }
  }

  lemma StoppingStep(run: seq<State>, i: nat)
    requires IsRun(run) && i + 1 < |run| && Proceeds(run, i) && Stopping(run[i])
    ensures Stopped(run[i], run[i + 1])
  {
    assert StepAt(run, i);
    StoppingNext(run[i], run[i + 1]);
  }

  // A stop of a running server whose steps do not fail ends without client and process, and
  // makes no new client on the way.
  lemma StopStops(run: seq<State>, i: nat, j: nat)
    requires IsRun(run) && Uninterrupted(run, i, j)
    requires run[i].running && StopQueued(run[i], run[i + 1], false)
    ensures run[j].owners == run[i].owners && !run[j].running && run[j].client == None && run[j].process == None
  {
    StopCompletes(run, i + 1, j);
  }

  // A stop of a server that does not run changes nothing.
  lemma StoppedStays(s: State, s': State)
    requires StopQueued(s, s', false) && !s.running
    ensures s' == s
  {
  }

  // A start that fails is taken back.
  lemma FailedStartIsTakenBack(s: State, s': State)
    requires s.action.Starting? && ActionStep(s, s') && ActionFails(s, s')
    ensures s'.client == None && s'.running == s.running && s'.action == DisposingClient(false)
    ensures Inv(s) ==> forall owner :: owner in s'.owners ==> Stale(s', owner)
  {
  }

  // ---------------------------------------------------------------- a start nobody supersedes

  // Processes that are held have not been told to terminate; only created ones ever are.
  ghost predicate HeldRun(s: State) {
    (forall owner :: owner in s.factories && s.factories[owner].Holding? ==> s.factories[owner].pid !in s.terminated)
    && (forall pid :: pid in s.terminated ==> pid in s.created)
  }

  lemma HeldRunNext(s: State, s': State)
    requires Inv(s) && HeldRun(s) && Next(s, s')
    ensures HeldRun(s')
  {
    if ActionStep(s, s') {
      ActionHeldRun(s, s');
    } else if ExtensionDisposed(s, s') {
      DisposedHeldRun(s, s');
    } else {
      var owner: Owner :| FactoryCalled(s, s', owner) || FactoryStep(s, s', owner);
      if FactoryStep(s, s', owner) {
        FactoryHeldRun(s, s', owner);
      } else {
        CalledHeldRun(s, s', owner);
      }
    }
  }

  lemma DisposedHeldRun(s: State, s': State)
    requires Inv(s) && HeldRun(s) && ExtensionDisposed(s, s')
    ensures HeldRun(s')
  {
  }

  lemma CalledHeldRun(s: State, s': State, owner: Owner)
    requires HeldRun(s) && FactoryCalled(s, s', owner)
    ensures HeldRun(s')
  {
  }

  lemma ActionHeldRun(s: State, s': State)
    requires Inv(s) && HeldRun(s) && ActionStep(s, s')
    ensures HeldRun(s')
  {
  }

  lemma FactoryHeldRun(s: State, s': State, owner: Owner)
    requires Inv(s) && HeldRun(s) && FactoryStep(s, s', owner)
    ensures HeldRun(s')
  {
    if FactoryResumed(s, s', owner) {
      assert s.factories[owner].pid in s.created;
    } else if !FactoryLoaded(s, s', owner) && !FactoryStopped(s, s', owner) && !FactoryFailed(s, s', owner) {
      var pid: Pid :| ProcessCreated(s, s', owner, pid);
    }
  }

  lemma {:induction false} HeldRunAlong(run: seq<State>)
    requires IsRun(run) && run[0] == INITIAL
    ensures HeldRun(run[|run| - 1])
  {
    if |run| > 1 {
      RunPrefix(run, |run| - 1);
      HeldRunAlong(run[..|run| - 1]);
      RunKeepsInv(run[..|run| - 1]);
      assert StepAt(run, |run| - 2);
      HeldRunNext(run[|run| - 2], run[|run| - 1]);
    }
  }

  // A start that holds its process and is not stale ends by making it the current one, running.
  lemma UnsupersededStartInstalls(run: seq<State>, s': State, owner: Owner)
    requires IsRun(run) && run[0] == INITIAL
    requires var s := run[|run| - 1];
      Next(s, s') && owner in s.factories && s.factories[owner].Holding? && owner !in s'.factories && !Stale(s, owner)
    ensures Installed(run[|run| - 1], s', owner)
  {
    RunKeepsInv(run);
    HeldRunAlong(run);
    LastStepInstalls(run[|run| - 1], s', owner);
  }

  // The process the owner's start held is the current one, was created for it, and runs.
  predicate Installed(s: State, s': State, owner: Owner)
    requires owner in s.factories && s.factories[owner].Holding?
  {
    var pid := s.factories[owner].pid;
    s'.process == Some(pid) && pid in s'.created && s'.created[pid] == owner && pid !in s'.terminated
  }

  lemma LastStepInstalls(s: State, s': State, owner: Owner)
    requires Inv(s) && HeldRun(s) && Next(s, s')
    requires owner in s.factories && s.factories[owner].Holding? && owner !in s'.factories && !Stale(s, owner)
    ensures Installed(s, s', owner)
  {
    if ActionStep(s, s') {
      OthersKeepFactories(s, s');
    }
  }

  lemma OthersKeepFactories(s: State, s': State)
    requires ActionStep(s, s')
    ensures s'.factories == s.factories
  {
  }

  // And it comes to hold one: as long as it is not stale, no step of it makes it give up but a
  // failure, and each leads on.
  lemma UnsupersededStartLeadsOn(s: State, s': State, owner: Owner)
    requires FactoryStep(s, s', owner) && !Stale(s, owner) && !s.factories[owner].Holding? && owner in s'.factories
    ensures match s.factories[owner]
      case Loading => s'.factories[owner] == StoppingPrevious && (s.process.Some? ==> s.process.value in s'.terminated)
      case StoppingPrevious => s'.factories[owner] == Creating
      case Creating => s'.factories[owner].Holding? && s'.factories[owner].pid !in s.created
      case Holding(_) => true
  {
  }

  // How far a start has come.
  function Stage(f: Factory): nat {
    match f
    case Loading => 0
    case StoppingPrevious => 1
    case Creating => 2
    case Holding(_) => 3
  }

  // A step of that kind is always there: the start moves on by one stage, and at the last one
  // its process becomes the current one.
  lemma UnsupersededStartProceeds(s: State, owner: Owner) returns (s': State)
    requires owner in s.factories && !Stale(s, owner)
    ensures FactoryStep(s, s', owner) && !Stale(s', owner) && s'.running == s.running && s'.client == s.client
    ensures !s.factories[owner].Holding? ==> owner in s'.factories && Stage(s'.factories[owner]) == Stage(s.factories[owner]) + 1
    ensures s.factories[owner].Holding? ==> s'.process == Some(s.factories[owner].pid)
    ensures s.factories[owner].Creating? ==> CreatedFor(s', owner)
    ensures CreatedFor(s, owner) && !s.factories[owner].Creating? ==> s'.created == s.created
  {
    match s.factories[owner]
    case Loading => s' := Suspend(Terminate(s, s.process), owner, StoppingPrevious);
    case StoppingPrevious => s' := Suspend(s, owner, Creating);
    case Creating =>
      var pid := FreshPid(s.created.Keys);
      s' := Suspend(s, owner, Holding(pid)).(created := s.created[pid := owner]);
      assert ProcessCreated(s, s', owner, pid);
    case Holding(pid) => s' := Finish(s, owner).(process := Some(pid));
  }

  // The start holds a process created for it.
  predicate CreatedFor(s: State, owner: Owner) {
    owner in s.factories && s.factories[owner].Holding?
    && s.factories[owner].pid in s.created && s.created[s.factories[owner].pid] == owner
  }

  lemma FreshPid(pids: set<Pid>) returns (unused: Pid)
    ensures forall pid :: pid in pids ==> pid < unused
  {
    unused := 0;
    if pid :| pid in pids {
      var other := FreshPid(pids - {pid});
      unused := if pid < other then other else pid + 1;
      assert pids == (pids - {pid}) + {pid};
    }
  }

  // From wherever a start that is not superseded waits, it can go on to the end: its process is
  // then the current one.
  lemma {:induction false} StartCanFinish(s: State, owner: Owner) returns (run: seq<State>)
    requires owner in s.factories && !Stale(s, owner) && (s.factories[owner].Holding? ==> CreatedFor(s, owner))
    ensures IsRun(run) && run[0] == s
    ensures run[|run| - 1].running == s.running && run[|run| - 1].client == s.client
    ensures var last := run[|run| - 1];
      last.process.Some? && last.process.value in last.created && last.created[last.process.value] == owner && !Stale(last, owner)
    decreases 3 - Stage(s.factories[owner])
  {
    var s' := UnsupersededStartProceeds(s, owner);
    if s.factories[owner].Holding? {
      run := [s, s'];
      assert StepAt(run, 0);
    } else {
      var rest := StartCanFinish(s', owner);
      run := [s] + rest;
      RunCons(s, rest);
    }
  }

  lemma RunCons(s: State, rest: seq<State>)
    requires IsRun(rest) && Next(s, rest[0])
    ensures IsRun([s] + rest) && ([s] + rest)[|rest|] == rest[|rest| - 1]
  {
    var run := [s] + rest;
    forall i | 0 <= i < |run| - 1
      ensures StepAt(run, i)
    {
      if i > 0 {
        assert StepAt(rest, i - 1) && run[i] == rest[i - 1] && run[i + 1] == rest[i];
      }
    }
  }

  // At first there is nothing.
  lemma NothingAtFirst()
    ensures !INITIAL.disposed && !INITIAL.running && INITIAL.generation == 0 && INITIAL.action.Idle?
    ensures INITIAL.client == None && INITIAL.process == None && INITIAL.owners == {} && |INITIAL.factories| == 0
  {
  }

  // There is a run from there in which the first client's server comes to be the current process
  // while the server counts as running.
  lemma SomeRunServes() returns (run: seq<State>)
    ensures IsRun(run) && run[0] == INITIAL
    ensures var last := run[|run| - 1];
      last.running && last.client == Some(1) && last.process.Some? && last.process.value in last.created && last.created[last.process.value] == 1
  {
    var begun := BeginStart(INITIAL);
    var waiting := begun.(running := true, action := AnnouncingStart);
    var called := Suspend(waiting, 1, Loading);
    assert StartQueued(INITIAL, begun) && StartFinished(begun, waiting) && FactoryCalled(waiting, called, 1);
    var rest := StartCanFinish(called, 1);
    RunCons(waiting, rest);
    RunCons(begun, [waiting] + rest);
    RunCons(INITIAL, [begun] + ([waiting] + rest));
    run := [INITIAL] + ([begun] + ([waiting] + rest));
  }

  // ---------------------------------------------------------------- a start that is superseded

  // The owner's start, if it has one, is still waiting for the module or for the previous process.
  predicate Waiting(s: State, owner: Owner) {
    owner in s.factories ==> s.factories[owner].Loading? || s.factories[owner].StoppingPrevious?
  }

  // It is stale, will stay so, and waits.
  predicate Superseded(s: State, owner: Owner) {
    Stale(s, owner) && owner <= s.generation && Waiting(s, owner)
  }

  ghost predicate SameProcesses(s: State, s': State, owner: Owner) {
    forall pid :: pid in s'.created && s'.created[pid] == owner ==> pid in s.created && s.created[pid] == owner
  }

  lemma SupersededNext(s: State, s': State, owner: Owner)
    requires Next(s, s') && Superseded(s, owner)
    ensures Superseded(s', owner) && SameProcesses(s, s', owner)
  {
    if ActionStep(s, s') {
      SupersededAction(s, s', owner);
    } else if !ExtensionDisposed(s, s') {
      var other: Owner :| FactoryCalled(s, s', other) || FactoryStep(s, s', other);
      if FactoryStep(s, s', other) {
        SupersededStep(s, s', other, owner);
      }
    }
  }

  lemma SupersededAction(s: State, s': State, owner: Owner)
    requires ActionStep(s, s') && Superseded(s, owner)
    ensures Superseded(s', owner) && SameProcesses(s, s', owner)
  {
  }

  lemma SupersededStep(s: State, s': State, other: Owner, owner: Owner)
    requires FactoryStep(s, s', other) && Superseded(s, owner)
    ensures Superseded(s', owner) && SameProcesses(s, s', owner)
  {
    if !FactoryLoaded(s, s', other) && !FactoryStopped(s, s', other) && !FactoryResumed(s, s', other) && !FactoryFailed(s, s', other) {
      var pid: Pid :| ProcessCreated(s, s', other, pid);
    }
  }

  // A start that is superseded while it waits never creates a process, and neither do later
  // calls for the same client.
  lemma {:induction false} SupersededStartCreatesNothing(run: seq<State>, i: nat, j: nat, owner: Owner)
    requires IsRun(run) && i <= j < |run| && Superseded(run[i], owner)
    ensures Superseded(run[j], owner) && SameProcesses(run[i], run[j], owner)
    decreases j - i
  {
    if i < j {
      SupersededStartCreatesNothing(run, i, j - 1, owner);
      assert StepAt(run, j - 1);
      SupersededNext(run[j - 1], run[j], owner);
    }
  }
}
