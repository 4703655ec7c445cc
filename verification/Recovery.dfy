/** Start, stop and recovery of the browser process: an operation gate that one
    goroutine holds at a time, and a mutex around short sections. The state
    machine interleaves goroutines at every section. */
module Recovery {
  import opened Text

  // ------------------------------------------------------- locked sections

  /** What the sections read and write; `generation` counts the processes. */
  datatype Shared = Shared(
    manuallyStopped: bool, epoch: nat, running: bool, stopping: bool, tripped: bool, generation: nat)

  function Cancelled(s: Shared): Shared { s.(epoch := s.epoch + 1) }

  function StopAsked(s: Shared): Shared { Cancelled(s.(manuallyStopped := true)) }

  function StopCleared(s: Shared): Shared { Cancelled(s.(manuallyStopped := false)) }

  predicate Stale(s: Shared, epoch: nat) { s.epoch != epoch || s.manuallyStopped }

  function ExitAsked(s: Shared): Shared { if s.running then s.(stopping := true) else s }

  predicate MayLaunch(s: Shared) { !s.running && !s.tripped }

  function Launching(s: Shared): Shared { if MayLaunch(s) then s.(stopping := false) else s }

  function Launched(s: Shared): Shared { s.(running := true, generation := s.generation + 1) }

  function Exited(s: Shared): Shared { s.(running := false, stopping := false) }

  predicate Schedulable(s: Shared) { !s.manuallyStopped && !s.tripped }

  function Tripped(s: Shared): Shared { if s.tripped then s else Cancelled(s.(tripped := true)) }

  /** The sections as they run on the browser object. Three ghost fields keep
      the history the program's counters and flags stand for: the epochs handed
      to scheduled restarts so far, the one of them that nothing has cancelled
      yet, and whether an exit was asked for since the process was launched. */
  class Browser {
    var manuallyStopped: bool
    var recoveryEpoch: nat
    var running: bool
    var stopping: bool
    var tripped: bool
    var generation: nat
    ghost var handed: set<nat>
    ghost var wanted: Option<nat>
    ghost var asked: bool

    constructor ()
      ensures Valid() && Now() == Shared(false, 0, false, false, false, 0) && handed == {}
    {
      manuallyStopped, recoveryEpoch, running, stopping, tripped, generation := false, 0, false, false, false, 0;
      handed, wanted, asked := {}, None, false;
    }

    function Now(): Shared
      reads this
    {
      Shared(manuallyStopped, recoveryEpoch, running, stopping, tripped, generation)
    }

    ghost predicate Valid()
      reads this
    {
      && (forall epoch <- handed :: epoch <= recoveryEpoch)
      && (recoveryEpoch in handed <==> wanted.Some?) && (wanted.Some? ==> wanted.value == recoveryEpoch)
      && (stopping <==> running && asked)
    }

    /** Afterwards no restart handed out so far is wanted any more. */
    method CancelRecoveryLocked()
      requires Valid()
      modifies this`recoveryEpoch, this`wanted
      ensures Valid() && wanted == None && Now() == Cancelled(old(Now()))
      ensures forall epoch <- handed :: epoch < recoveryEpoch
    {
      recoveryEpoch := recoveryEpoch + 1;
      wanted := None;
    }

    /** First section of Stop and Shutdown, before they queue for the gate: every
        restart handed out is stale from now on, whatever becomes of the flag. */
    method AskStop()
      requires Valid()
      modifies this`manuallyStopped, this`recoveryEpoch, this`wanted
      ensures Valid() && Now() == StopAsked(old(Now()))
      ensures forall epoch :: Stale(Now(), epoch)
      ensures forall epoch <- handed :: Stale(Now().(manuallyStopped := false), epoch)
    {
      manuallyStopped := true;
      CancelRecoveryLocked();
    }

    /** First section of Start, Restart and Recover, inside the gate: restarts
        may be scheduled again, but none handed out before comes back to life. */
    method ClearStop()
      requires Valid()
      modifies this`manuallyStopped, this`recoveryEpoch, this`wanted
      ensures Valid() && Now() == StopCleared(old(Now()))
      ensures !manuallyStopped
      ensures forall epoch <- handed :: Stale(Now(), epoch)
    {
      manuallyStopped := false;
      CancelRecoveryLocked();
    }

    /** What a scheduled restart checks inside the gate: whether anything has
        cancelled it since it was handed out, or a stop stands. */
    method IsStale(epoch: nat) returns (stale: bool)
      requires Valid() && epoch in handed
      ensures stale <==> wanted != Some(epoch) || manuallyStopped
      ensures stale == Stale(Now(), epoch)
    {
      stale := recoveryEpoch != epoch || manuallyStopped;
    }

    /** First section of stop: with a process to wait for, its exit is expected
        from now on. */
    method AskExit() returns (present: bool)
      requires Valid()
      modifies this`stopping, this`asked
      ensures Valid() && Now() == ExitAsked(old(Now()))
      ensures present == running && asked == (old(asked) || present)
    {
      if running { stopping, asked := true, true; }
      present := running;
    }

    /** First section of start: whether a process is to be launched. It never
        takes back an exit that was asked for. */
    method CheckStart() returns (launch: bool)
      requires Valid()
      modifies this`stopping
      ensures Valid() && Now() == Launching(old(Now())) == old(Now())
      ensures launch <==> !running && !tripped
    {
      launch := !running && !tripped;
      if launch { stopping := false; }
    }

    /** Second section of start: a new process, whose exit nobody asked for. */
    method Launch()
      requires Valid() && !running
      modifies this`running, this`generation, this`asked
      ensures Valid() && Now() == Launched(old(Now())) && !asked
    {
      running, generation := true, generation + 1;
      asked := false;
    }

    /** Section of wait: the exit counts as expected exactly when it was asked
        for since this process was launched. */
    method Wait() returns (expected: bool)
      requires Valid() && running
      modifies this`running, this`stopping
      ensures Valid() && Now() == Exited(old(Now()))
      ensures expected == asked
    {
      expected := stopping;
      running := false;
      if expected { stopping := false; }
    }

    /** Section that schedules a restart: its epoch was never handed out before,
        and all earlier ones are stale. */
    method Schedule(due: bool) returns (epoch: Option<nat>)
      requires Valid()
      modifies this`recoveryEpoch, this`wanted, this`handed
      ensures Valid() && (epoch.Some? <==> due && !manuallyStopped && !tripped)
      ensures epoch.Some? ==> Now() == Cancelled(old(Now())) && epoch.value == Now().epoch
      ensures epoch.Some? ==> epoch.value !in old(handed) && handed == old(handed) + {epoch.value} && wanted == epoch
      ensures epoch.Some? ==> !Stale(Now(), epoch.value) && forall earlier <- old(handed) :: Stale(Now(), earlier)
      ensures epoch.None? ==> Now() == old(Now()) && handed == old(handed) && wanted == old(wanted)
    {
      if !due || manuallyStopped || tripped { return None; }
      CancelRecoveryLocked();
      handed, wanted := handed + {recoveryEpoch}, Some(recoveryEpoch);
      epoch := Some(recoveryEpoch);
    }

    /** The first trip cancels every restart handed out, and none can be
        scheduled while the guard is active. */
    method TripAuthGuard()
      requires Valid()
      modifies this`tripped, this`recoveryEpoch, this`wanted
      ensures Valid() && Now() == Tripped(old(Now())) && tripped
      ensures !old(tripped) ==> forall epoch <- handed :: Stale(Now(), epoch)
    {
      if tripped { return; }
      tripped := true;
      CancelRecoveryLocked();
    }
  }

  // ------------------------------------------------------------ goroutines

  /** AutoRecover stands for watchdog, renderer hang and control loss; Watcher
      for the goroutines of one process that may decide on one while it runs;
      ExitHandler for the part of wait that follows an unexpected exit. */
  datatype Kind =
    | Start | Stop | Restart | Reset | UserRecover | Page
    | AutoRecover | Scheduled(epoch: nat) | AuthStop | Watcher(generation: nat) | ExitHandler

  datatype Phase =
    | Idle | Queued | Entered | Admit | AllowRestart | AskExit | AwaitExit
    | ClearGuard | ClearFlag | CheckStart | LastCheck | Launch | Finished(ok: bool)

  datatype Thread = Thread(kind: Kind, phase: Phase)

  datatype State = State(shared: Shared, gate: Option<nat>, threads: seq<Thread>)

  const INITIAL: State := State(Shared(false, 0, false, false, false, 0), None, [])

  /** Go, or the outcome the environment forces instead: the call fails, or a
      lighter way (reload, navigation) already did it. */
  datatype Choice = Go | Fail | Light

  datatype Step =
    | Call(kind: Kind)
    | Decide(t: nat)                // a watcher of the running process decides on a recovery
    | Fire(t: nat)                  // a scheduled or decided restart asks for the gate
    | Abandon(t: nat)               // a context ends before the gate is taken
    | Enter(t: nat)                 // the gate is taken
    | Run(t: nat, choice: Choice)   // the next section of the gate's holder
    | Exit                          // the process ends
    | Handle(t: nat, due: bool)     // an exit handler schedules a restart
    | Trip                          // the authentication guard trips

  predicate UserKind(kind: Kind) {
    kind.Start? || kind.Stop? || kind.Restart? || kind.Reset? || kind.UserRecover? || kind.Page?
  }

  /** Operations by which a user may bring the browser up. */
  predicate Starter(kind: Kind) {
    UserKind(kind) && !kind.Stop?
  }

  predicate Holding(phase: Phase) {
    !(phase.Idle? || phase.Queued? || phase.Finished?)
  }

  predicate Enabled(s: State, step: Step) {
    match step
    case Call(kind) => UserKind(kind)
    case Decide(t) => t < |s.threads| && s.shared.running && s.threads[t] == Thread(Watcher(s.shared.generation), Idle)
    case Fire(t) => t < |s.threads| && (s.threads[t].kind.Scheduled? || s.threads[t].kind.AutoRecover?) && s.threads[t].phase.Idle?
    case Abandon(t) => t < |s.threads| && (s.threads[t].phase.Idle? || s.threads[t].phase.Queued?) && !s.threads[t].kind.ExitHandler?
    case Enter(t) => t < |s.threads| && s.threads[t].phase.Queued? && !s.threads[t].kind.ExitHandler? && s.gate.None?
    case Run(t, choice) => t < |s.threads| && s.gate == Some(t) && Holding(s.threads[t].phase)
        && (s.threads[t].phase.AwaitExit? && !choice.Fail? ==> !s.shared.running)
    case Exit => s.shared.running
    case Handle(t, _) => t < |s.threads| && s.threads[t] == Thread(ExitHandler, Queued)
    case Trip => true
  }

  function Moved(s: State, t: nat, phase: Phase): State
    requires t < |s.threads|
  {
    s.(threads := s.threads[t := s.threads[t].(phase := phase)],
       gate := if phase.Finished? then None else s.gate)
  }

  function Spawned(s: State, thread: Thread): State {
    s.(threads := s.threads + [thread])
  }

  function AfterExit(kind: Kind): Phase {
    match kind
    case Stop => Finished(true)
    case AuthStop => Finished(true)
    case Reset => ClearGuard
    case _ => CheckStart
  }

  /** One section of an operation inside the gate: what it does to the browser
      and where it continues. Superseding a scheduled restart also ends its
      context, which start looks at a last time before it launches. */
  function Section(kind: Kind, phase: Phase, b: Shared, choice: Choice): (r: (Shared, Phase))
    requires Holding(phase)
    ensures r.0.epoch >= b.epoch && (Holding(r.1) || r.1.Finished?)
  {
    match phase
    case Entered =>
      (match kind
       case Start => (StopCleared(b), CheckStart)
       case Restart => (StopCleared(b), AllowRestart)
       case UserRecover => (StopCleared(b), Admit)
       case Reset => (Cancelled(b), AskExit)
       case Page =>
         (b, if b.tripped || choice.Fail? then Finished(false)
             else if !b.running then CheckStart
             else if choice.Light? then Finished(true) else AllowRestart)
       case Scheduled(epoch) => (b, if Stale(b, epoch) then Finished(false) else Admit)
       case AutoRecover => (b, Admit)
       case _ => (b, AskExit))
    case Admit =>
      (b, if b.manuallyStopped || b.tripped || choice.Fail? then Finished(false)
          else if !b.running then CheckStart
          else if kind.UserRecover? && choice.Light? then Finished(true) else AllowRestart)
    case AllowRestart => (b, if b.tripped then Finished(false) else AskExit)
    case AskExit => (ExitAsked(b), if b.running then AwaitExit else AfterExit(kind))
    case AwaitExit => (b, if choice.Fail? then Finished(false) else AfterExit(kind))
    case ClearGuard =>
      if choice.Go? then (b.(tripped := false), ClearFlag) else (b, Finished(choice.Light?))
    case ClearFlag => (b.(manuallyStopped := false), CheckStart)
    case CheckStart =>
      if b.running then (b, Finished(true))
      else if b.tripped then (b, Finished(false))
      else (Launching(b), LastCheck)
    case LastCheck =>
      (b, if choice.Fail? || (kind.Scheduled? && kind.epoch != b.epoch) then Finished(false) else Launch)
    case Launch =>
      if choice.Fail? then (b, Finished(false)) else (Launched(b), Finished(true))
    case _ => (b, phase)
  }

  function Do(s: State, step: Step): State
    requires Enabled(s, step)
  {
    match step
    case Call(kind) => Spawned(if kind.Stop? then s.(shared := StopAsked(s.shared)) else s, Thread(kind, Queued))
    case Decide(_) => Spawned(s, Thread(AutoRecover, Idle))
    case Fire(t) => s.(threads := s.threads[t := s.threads[t].(phase := Queued)])
    case Abandon(t) => s.(threads := s.threads[t := s.threads[t].(phase := Finished(false))])
    case Enter(t) => s.(threads := s.threads[t := s.threads[t].(phase := Entered)], gate := Some(t))
    case Run(t, choice) =>
      var (b, phase) := Section(s.threads[t].kind, s.threads[t].phase, s.shared, choice);
      var moved := Moved(s.(shared := b), t, phase);
      if b.generation > s.shared.generation then Spawned(moved, Thread(Watcher(b.generation), Idle)) else moved
    case Exit =>
      var gone := s.(shared := Exited(s.shared));
      if s.shared.stopping then gone else Spawned(gone, Thread(ExitHandler, Queued))
    case Handle(t, due) =>
      if due && Schedulable(s.shared) then
        State(Cancelled(s.shared), s.gate, s.threads[t := Thread(Scheduled(s.shared.epoch + 1), Idle)])
      else s.(threads := s.threads[t := s.threads[t].(phase := Finished(false))])
    case Trip =>
      var guarded := s.(shared := Tripped(s.shared));
      if !s.shared.tripped && s.shared.running then Spawned(guarded, Thread(AuthStop, Queued)) else guarded
  }

  /** A sequence of steps, each enabled where it happens. */
  ghost predicate IsRun(s: State, steps: seq<Step>)
    decreases |steps|
  {
    steps == [] || (Enabled(s, steps[0]) && IsRun(Do(s, steps[0]), steps[1..]))
  }

  ghost function End(s: State, steps: seq<Step>): State
    requires IsRun(s, steps)
    decreases |steps|
  {
    if steps == [] then s else End(Do(s, steps[0]), steps[1..])
  }

  // ------------------------------------------------------------- invariant

  /** Whoever is between the gate's ends holds it, and nobody else. */
  ghost predicate GateInv(s: State) {
    && (s.gate.Some? ==> s.gate.value < |s.threads|)
    && forall t :: 0 <= t < |s.threads| ==> (Holding(s.threads[t].phase) <==> s.gate == Some(t))
  }

  /** Scheduled restarts carry past, pairwise different epochs. */
  ghost predicate EpochInv(s: State) {
    && (forall t :: 0 <= t < |s.threads| && s.threads[t].kind.Scheduled? ==> s.threads[t].kind.epoch <= s.shared.epoch)
    && (forall t, u :: 0 <= t < u < |s.threads| && s.threads[t].kind.Scheduled? && s.threads[u].kind.Scheduled? ==>
          s.threads[t].kind.epoch != s.threads[u].kind.epoch)
  }

  ghost predicate Inv(s: State) {
    GateInv(s) && EpochInv(s)
  }

  lemma StepKeepsInv(s: State, step: Step)
    requires Inv(s) && Enabled(s, step)
    ensures Inv(Do(s, step))
  {
    hide Section;
    StepKeepsGate(s, step);
    StepKeepsEpochs(s, step);
  }

  lemma StepKeepsGate(s: State, step: Step)
    requires GateInv(s) && Enabled(s, step)
    ensures GateInv(Do(s, step))
  {
    hide Section;
  }

  lemma StepKeepsEpochs(s: State, step: Step)
    requires EpochInv(s) && Enabled(s, step)
    ensures EpochInv(Do(s, step))
  {
    hide Section;
  }

  lemma {:induction false} RunKeepsInv(s: State, steps: seq<Step>)
    requires Inv(s) && IsRun(s, steps)
    ensures Inv(End(s, steps))
    decreases |steps|
  {
    if steps != [] {
      StepKeepsInv(s, steps[0]);
      RunKeepsInv(Do(s, steps[0]), steps[1..]);
    }
  }

  /** The phases a goroutine of each kind can be in. */
  predicate Shape(thread: Thread) {
    var p := thread.phase;
    match thread.kind
    case Stop => p.Queued? || p.Entered? || p.AskExit? || p.AwaitExit? || p.Finished?
    case AuthStop => p.Queued? || p.Entered? || p.AskExit? || p.AwaitExit? || p.Finished?
    case Watcher(_) => p.Idle? || p.Finished?
    case ExitHandler => p.Queued? || p.Finished?
    case Reset => true
    case _ => !p.ClearGuard? && !p.ClearFlag?
  }

  ghost predicate Shapes(s: State) {
    forall t :: 0 <= t < |s.threads| ==> Shape(s.threads[t])
  }

  lemma ShapesStep(s: State, step: Step)
    requires Shapes(s) && Enabled(s, step)
    ensures Shapes(Do(s, step))
  {
  }

  /** An exit is awaited only of a running process. */
  predicate Settled(s: State) { s.shared.stopping ==> s.shared.running }

  lemma SettledStep(s: State, step: Step)
    requires Settled(s) && Enabled(s, step)
    ensures Settled(Do(s, step))
  {
  }

  ghost predicate Reachable(s: State) {
    Inv(s) && Shapes(s) && Settled(s)
  }

  lemma ReachableStep(s: State, step: Step)
    requires Reachable(s) && Enabled(s, step)
    ensures Reachable(Do(s, step))
  {
    hide Inv, Shapes, Settled;
    StepKeepsInv(s, step);
    ShapesStep(s, step);
    SettledStep(s, step);
  }

  /** Everything the program can get into from its initial state is covered. */
  lemma {:induction false} ReachedIsReachable(s: State, steps: seq<Step>)
    requires Reachable(s) && IsRun(s, steps)
    ensures Reachable(End(s, steps))
    decreases |steps|
  {
    if steps != [] {
      ReachableStep(s, steps[0]);
      ReachedIsReachable(Do(s, steps[0]), steps[1..]);
    }
  }

  lemma InitialIsReachable()
    ensures Reachable(INITIAL)
  {
  }

  lemma FromTheStart(steps: seq<Step>)
    requires IsRun(INITIAL, steps)
    ensures Reachable(End(INITIAL, steps))
  {
    InitialIsReachable();
    ReachedIsReachable(INITIAL, steps);
  }

  // --------------------------------------------------- scheduled restarts

  lemma AtMostOneCurrent(s: State, t: nat, u: nat)
    requires Inv(s) && t < |s.threads| && u < |s.threads|
    requires s.threads[t].kind == Scheduled(s.shared.epoch) && s.threads[u].kind == Scheduled(s.shared.epoch)
    ensures t == u
  {
  }

  /** A scheduled restart whose epoch is no longer the current one. */
  predicate Superseded(s: State, t: nat) {
    t < |s.threads| && s.threads[t].kind.Scheduled? && s.threads[t].kind.epoch < s.shared.epoch
  }

  /** In this phase a superseded restart may yet change something: ask a running
      process to exit, or launch one if it is past its last look at its context. */
  predicate MayStillAct(b: Shared, phase: Phase) {
    match phase
    case Admit => !b.manuallyStopped && !b.tripped && b.running && !b.stopping
    case AllowRestart => !b.tripped && b.running && !b.stopping
    case AskExit => b.running && !b.stopping
    case Launch => true
    case _ => false
  }

  ghost predicate Harmless(s: State, t: nat) {
    Superseded(s, t) && !MayStillAct(s.shared, s.threads[t].phase)
  }

  lemma HarmlessStep(s: State, step: Step, t: nat)
    requires Reachable(s) && Harmless(s, t) && Enabled(s, step)
    ensures Harmless(Do(s, step), t)
    ensures step.Run? && step.t == t ==> Do(s, step).shared == s.shared
  {
    assert Holding(s.threads[t].phase) <==> s.gate == Some(t);
    assert Shape(s.threads[t]);
    hide Inv, Shapes;
  }

  /** In every continuation a harmless restart changes nothing: whenever it runs
      a section, the browser stays as it is. */
  lemma {:induction false} SupersededDoesNothing(s: State, steps: seq<Step>, t: nat)
    requires Reachable(s) && Harmless(s, t) && IsRun(s, steps)
    ensures Harmless(End(s, steps), t)
    ensures forall choice :: Enabled(End(s, steps), Run(t, choice)) ==>
      Do(End(s, steps), Run(t, choice)).shared == End(s, steps).shared
    decreases |steps|
  {
    if steps != [] {
      HarmlessStep(s, steps[0], t);
      ReachableStep(s, steps[0]);
      SupersededDoesNothing(Do(s, steps[0]), steps[1..], t);
    } else {
      forall choice | Enabled(s, Run(t, choice)) ensures Do(s, Run(t, choice)).shared == s.shared {
        HarmlessStep(s, Run(t, choice), t);
      }
    }
  }

  /** In some continuation a section of t changes the browser. */
  ghost predicate Acts(s: State, t: nat) {
    exists steps, choice :: IsRun(s, steps) && ChangesNow(End(s, steps), t, choice)
  }

  ghost predicate ChangesNow(s: State, t: nat, choice: Choice) {
    Enabled(s, Run(t, choice)) && Do(s, Run(t, choice)).shared != s.shared
  }

  lemma ActsLater(s: State, step: Step, t: nat)
    requires Enabled(s, step) && Acts(Do(s, step), t)
    ensures Acts(s, t)
  {
    var rest, choice :| IsRun(Do(s, step), rest) && ChangesNow(End(Do(s, step), rest), t, choice);
    var steps := [step] + rest;
    assert steps[0] == step && steps[1..] == rest;
    assert IsRun(s, steps) && ChangesNow(End(s, steps), t, choice);
  }

  lemma ActsNow(s: State, t: nat)
    requires ChangesNow(s, t, Go)
    ensures Acts(s, t)
  {
    assert IsRun(s, []) && ChangesNow(End(s, []), t, Go);
  }

  /** Exactly when a superseded restart still changes something: it passed its
      stale check before it was superseded and is on the way to ask a running
      process to exit, with neither flag nor guard to stop it at its phase; or it
      is on the point of launching. */
  lemma SupersededActsExactly(s: State, t: nat)
    requires Reachable(s) && Superseded(s, t)
    ensures Acts(s, t) <==> MayStillAct(s.shared, s.threads[t].phase)
  {
    if MayStillAct(s.shared, s.threads[t].phase) {
      assert s.gate == Some(t);
      hide Acts, Inv, Shapes;
      var go := Run(t, Go);
      match s.threads[t].phase {
        case Admit =>
          ActsNow(Do(Do(s, go), go), t);
          ActsLater(Do(s, go), go, t);
          ActsLater(s, go, t);
        case AllowRestart =>
          ActsNow(Do(s, go), t);
          ActsLater(s, go, t);
        case AskExit => ActsNow(s, t);
        case Launch => ActsNow(s, t);
        case _ =>
      }
    } else {
      forall steps, choice | IsRun(s, steps) ensures !ChangesNow(End(s, steps), t, choice) {
        SupersededDoesNothing(s, steps, t);
      }
    }
  }

  /** Unless it is on the point of launching already, a superseded restart never
      launches the browser, in any continuation. */
  lemma {:induction false} SupersededNeverLaunches(s: State, steps: seq<Step>, t: nat)
    requires Reachable(s) && Superseded(s, t) && !s.threads[t].phase.Launch? && IsRun(s, steps)
    ensures Superseded(End(s, steps), t) && !End(s, steps).threads[t].phase.Launch?
    ensures forall choice :: Enabled(End(s, steps), Run(t, choice)) ==>
      Do(End(s, steps), Run(t, choice)).shared.generation == End(s, steps).shared.generation
    decreases |steps|
  {
    if steps != [] {
      assert Holding(s.threads[t].phase) <==> s.gate == Some(t);
      ReachableStep(s, steps[0]);
      SupersededNeverLaunches(Do(s, steps[0]), steps[1..], t);
    }
  }

  // ------------------------------------------------ what operations achieve

  /** While t has the gate: the processes launched since it took the gate with
      g of them behind are its own, and it is on the way to a launch, other than
      as a mere start, only without a process. */
  ghost predicate AtWork(s: State, t: nat, g: nat) {
    && t < |s.threads| && !s.threads[t].kind.Watcher? && !s.threads[t].kind.ExitHandler?
    && (Holding(s.threads[t].phase) ==>
          && s.gate == Some(t) && s.shared.generation == g
          && (OnTheWay(s.threads[t].phase) && !s.threads[t].kind.Start? ==> !s.shared.running)
          && (s.threads[t].phase.LastCheck? || s.threads[t].phase.Launch? ==> !s.shared.running))
  }

  predicate OnTheWay(phase: Phase) {
    phase.ClearGuard? || phase.ClearFlag? || phase.CheckStart? || phase.LastCheck? || phase.Launch?
  }

  lemma AtWorkStep(s: State, step: Step, t: nat, g: nat)
    requires Reachable(s) && AtWork(s, t, g) && Enabled(s, step) && !s.threads[t].phase.Queued? && !s.threads[t].phase.Idle?
    ensures AtWork(Do(s, step), t, g)
    ensures !Do(s, step).threads[t].phase.Queued? && !Do(s, step).threads[t].phase.Idle?
    ensures Do(s, step).threads[t].kind == s.threads[t].kind
  {
    assert Shape(s.threads[t]);
    assert Holding(s.threads[t].phase) <==> s.gate == Some(t);
    hide Inv, Shapes;
  }

  /** An operation that took the gate and ends without error, over any run in
      between: a stop leaves no process; every other operation leaves the browser
XX The process is the next one, launched by this operation itself,
      unless it was a start that found the browser running, or a lighter way did
      it: navigation for a page switch, a reload for a user's recovery. */
  lemma OperationsDeliver(s: State, steps: seq<Step>, t: nat, choice: Choice)
    requires Reachable(s) && t < |s.threads| && s.threads[t].phase.Entered? && IsRun(s, steps)
    requires Enabled(End(s, steps), Run(t, choice)) && t < |End(s, steps).threads|
    requires Do(End(s, steps), Run(t, choice)).threads[t].phase == Finished(true)
    ensures var waiting, after, kind := End(s, steps), Do(End(s, steps), Run(t, choice)), s.threads[t].kind;
      var last := waiting.threads[t].phase;
      && (Stopper(kind) ==> !after.shared.running && after.shared.generation == s.shared.generation)
      && (!Stopper(kind) ==> (after.shared.running <==> !last.ClearGuard?))
      && (kind.Restart? || kind.AutoRecover? || kind.Scheduled? ==> after.shared.generation == s.shared.generation + 1)
      && (kind.UserRecover? && !last.Admit? ==> after.shared.generation == s.shared.generation + 1)
      && (kind.Page? && !last.Entered? ==> after.shared.generation == s.shared.generation + 1)
      && (kind.Reset? && !last.ClearGuard? ==> after.shared.generation == s.shared.generation + 1)
      && (kind.Start? ==> after.shared.generation == s.shared.generation + if last.CheckStart? then 0 else 1)
  {
    StaysAtWork(s, steps, t, s.shared.generation);
    Delivers(End(s, steps), t, s.shared.generation, choice);
  }

  lemma {:induction false} StaysAtWork(s: State, steps: seq<Step>, t: nat, g: nat)
    requires Reachable(s) && AtWork(s, t, g) && !s.threads[t].phase.Queued? && !s.threads[t].phase.Idle? && IsRun(s, steps)
    ensures Reachable(End(s, steps)) && AtWork(End(s, steps), t, g)
    ensures End(s, steps).threads[t].kind == s.threads[t].kind
    decreases |steps|
  {
    if steps != [] {
      AtWorkStep(s, steps[0], t, g);
      ReachableStep(s, steps[0]);
      hide AtWork, Reachable;
      StaysAtWork(Do(s, steps[0]), steps[1..], t, g);
    }
  }

  lemma Delivers(s: State, t: nat, g: nat, choice: Choice)
    requires Reachable(s) && AtWork(s, t, g) && Enabled(s, Run(t, choice))
    requires Do(s, Run(t, choice)).threads[t].phase == Finished(true)
    ensures var after, kind, last := Do(s, Run(t, choice)).shared, s.threads[t].kind, s.threads[t].phase;
      && (Stopper(kind) ==> !after.running && after.generation == g)
      && (!Stopper(kind) ==> (after.running <==> !last.ClearGuard?))
      && (kind.Restart? || kind.AutoRecover? || kind.Scheduled? ==> after.generation == g + 1)
      && (kind.UserRecover? && !last.Admit? ==> after.generation == g + 1)
      && (kind.Page? && !last.Entered? ==> after.generation == g + 1)
      && (kind.Reset? && !last.ClearGuard? ==> after.generation == g + 1)
      && (kind.Start? ==> after.generation == g + if last.CheckStart? then 0 else 1)
  {
    assert Shape(s.threads[t]);
    hide Inv, Shapes;
  }

  /** In some continuation the operation of t ends without error. */
  ghost predicate MaySucceed(s: State, t: nat) {
    exists steps, choice :: IsRun(s, steps) && SucceedsNow(End(s, steps), t, choice)
  }

  ghost predicate SucceedsNow(s: State, t: nat, choice: Choice) {
    t < |s.threads| && Enabled(s, Run(t, choice)) && Do(s, Run(t, choice)).threads[t].phase == Finished(true)
  }

  /** What an operation that takes the gate must find. */
  predicate Admissible(kind: Kind, b: Shared) {
    match kind
    case Start => b.running || !b.tripped
    case AutoRecover => !b.manuallyStopped && !b.tripped
    case Scheduled(epoch) => epoch == b.epoch && !b.manuallyStopped && !b.tripped
    case Stop => true
    case AuthStop => true
    case Reset => true
    case _ => !b.tripped
  }

  lemma SucceedsLater(s: State, step: Step, t: nat)
    requires Enabled(s, step) && MaySucceed(Do(s, step), t)
    ensures MaySucceed(s, t)
  {
    var rest, choice :| IsRun(Do(s, step), rest) && SucceedsNow(End(Do(s, step), rest), t, choice);
    var steps := [step] + rest;
    assert steps[0] == step && steps[1..] == rest;
    assert IsRun(s, steps) && SucceedsNow(End(s, steps), t, choice);
  }

  lemma SucceedsAtOnce(s: State, t: nat)
    requires SucceedsNow(s, t, Go)
    ensures MaySucceed(s, t)
  {
    assert IsRun(s, []) && SucceedsNow(End(s, []), t, Go);
  }

  lemma StartSucceeds(s: State, t: nat)
    requires t < |s.threads| && s.gate == Some(t) && s.threads[t].phase.CheckStart?
    requires s.shared.running || (!s.shared.tripped && (s.threads[t].kind.Scheduled? ==> s.threads[t].kind.epoch == s.shared.epoch))
    ensures MaySucceed(s, t)
  {
    hide MaySucceed;
    var go := Run(t, Go);
    if s.shared.running {
      SucceedsAtOnce(s, t);
    } else {
      var s1 := Do(s, go);
      SucceedsAtOnce(Do(s1, go), t);
      SucceedsLater(s1, go, t);
      SucceedsLater(s, go, t);
    }
  }

  /** Once the process is gone the operation goes on. */
  lemma ExitedSucceeds(s: State, t: nat)
    requires t < |s.threads| && s.gate == Some(t) && !s.shared.running
    requires s.threads[t].phase.AwaitExit? || s.threads[t].phase.AskExit?
    requires Admissible(s.threads[t].kind, s.shared)
    ensures MaySucceed(s, t)
  {
    hide MaySucceed;
    var go := Run(t, Go);
    var s1 := Do(s, go);
    if Stopper(s.threads[t].kind) {
      SucceedsAtOnce(s, t);
    } else {
      if s.threads[t].kind.Reset? {
        var s2 := Do(s1, go);
        StartSucceeds(Do(s2, go), t);
        SucceedsLater(s2, go, t);
        SucceedsLater(s1, go, t);
      } else {
        StartSucceeds(s1, t);
      }
      SucceedsLater(s, go, t);
    }
  }

  lemma StopSucceeds(s: State, t: nat)
    requires t < |s.threads| && s.gate == Some(t) && s.threads[t].phase.AskExit?
    requires Admissible(s.threads[t].kind, s.shared.(running := false))
    ensures MaySucceed(s, t)
  {
    hide MaySucceed;
    if s.shared.running {
      var s1 := Do(s, Run(t, Go));
      ExitedSucceeds(Do(s1, Exit), t);
      SucceedsLater(s1, Exit, t);
      SucceedsLater(s, Run(t, Go), t);
    } else {
      ExitedSucceeds(s, t);
    }
  }

  lemma RestartSucceeds(s: State, t: nat)
    requires t < |s.threads| && s.gate == Some(t) && s.threads[t].phase.AllowRestart?
    requires !s.shared.tripped && Admissible(s.threads[t].kind, s.shared.(running := false))
    ensures MaySucceed(s, t)
  {
    hide MaySucceed;
    StopSucceeds(Do(s, Run(t, Go)), t);
    SucceedsLater(s, Run(t, Go), t);
  }

  lemma AdmittedSucceeds(s: State, t: nat)
    requires t < |s.threads| && s.gate == Some(t) && s.threads[t].phase.Admit?
    requires !s.shared.manuallyStopped && !s.shared.tripped && Admissible(s.threads[t].kind, s.shared)
    ensures MaySucceed(s, t)
  {
    hide MaySucceed;
    var next := Do(s, Run(t, Go));
    if s.shared.running { RestartSucceeds(next, t); } else { StartSucceeds(next, t); }
    SucceedsLater(s, Run(t, Go), t);
  }

  lemma EnteredSucceeds(s: State, t: nat)
    requires Reachable(s) && t < |s.threads| && s.gate == Some(t) && s.threads[t].phase.Entered?
    requires Admissible(s.threads[t].kind, s.shared)
    ensures MaySucceed(s, t)
  {
    assert Shape(s.threads[t]);
    hide MaySucceed, Reachable;
    var next := Do(s, Run(t, Go));
    match s.threads[t].kind {
      case Start => StartSucceeds(next, t);
      case Restart => RestartSucceeds(next, t);
      case Page => if s.shared.running { RestartSucceeds(next, t); } else { StartSucceeds(next, t); }
      case UserRecover => AdmittedSucceeds(next, t);
      case AutoRecover => AdmittedSucceeds(next, t);
      case Scheduled(_) => AdmittedSucceeds(next, t);
      case _ => StopSucceeds(next, t);
    }
    SucceedsLater(s, Run(t, Go), t);
  }

  /** It found too little when it took the gate, and has not got past that yet. */
  predicate Doomed(s: State, t: nat) {
    t < |s.threads| && !s.threads[t].kind.Stop? && !s.threads[t].kind.AuthStop? && !s.threads[t].kind.Reset? &&
    var p, b := s.threads[t].phase, s.shared;
    match p
    case Entered => !Admissible(s.threads[t].kind, b)
    case Admit => b.tripped || (!s.threads[t].kind.UserRecover? && b.manuallyStopped)
    case AllowRestart => b.tripped
    case CheckStart => b.tripped && !b.running
    case Finished(ok) => !ok
    case _ => false
  }

  lemma DoomedStep(s: State, step: Step, t: nat)
    requires Reachable(s) && Doomed(s, t) && Enabled(s, step)
    ensures Doomed(Do(s, step), t)
  {
    assert Shape(s.threads[t]);
    assert Holding(s.threads[t].phase) <==> s.gate == Some(t);
    assert s.threads[t].kind.Scheduled? ==> s.threads[t].kind.epoch <= s.shared.epoch;
    hide Inv, Shapes;
  }

  lemma {:induction false} DoomedFails(s: State, steps: seq<Step>, t: nat)
    requires Reachable(s) && Doomed(s, t) && IsRun(s, steps)
    ensures Doomed(End(s, steps), t) && Reachable(End(s, steps))
    decreases |steps|
  {
    if steps != [] {
      DoomedStep(s, steps[0], t);
      ReachableStep(s, steps[0]);
      hide Doomed, Reachable;
      DoomedFails(Do(s, steps[0]), steps[1..], t);
    }
  }

  /** An operation that took the gate can end without error if and only if the
      guard is clear, for recoveries nobody decided on by hand no stop stands
      either, and a scheduled restart is the current one. A start is content with
      a running browser; stops and resets always can. */
  lemma SucceedsExactlyWhen(s: State, t: nat)
    requires Reachable(s) && t < |s.threads| && s.threads[t].phase.Entered?
    ensures MaySucceed(s, t) <==> Admissible(s.threads[t].kind, s.shared)
  {
    if Admissible(s.threads[t].kind, s.shared) {
      EnteredSucceeds(s, t);
    } else {
      assert Shape(s.threads[t]);
      forall steps, choice | IsRun(s, steps) ensures !SucceedsNow(End(s, steps), t, choice) {
        DoomedFails(s, steps, t);
        var last := End(s, steps);
        if SucceedsNow(last, t, choice) { DoomedStep(last, Run(t, choice), t); }
      }
    }
  }

  // ------------------------------------------------ the authentication guard

  predicate ClearsGuard(s: State, step: Step) {
    step.Run? && step.choice.Go? && step.t < |s.threads| && s.threads[step.t].phase.ClearGuard?
  }

  ghost predicate GuardStands(s: State, steps: seq<Step>)
    requires IsRun(s, steps)
    decreases |steps|
  {
    steps == [] || (!ClearsGuard(s, steps[0]) && GuardStands(Do(s, steps[0]), steps[1..]))
  }

  /** Some run brings the browser up without clearing the guard. */
  ghost predicate Outruns(s: State) {
    exists steps :: IsRun(s, steps) && GuardStands(s, steps) && End(s, steps).shared.running
  }

  /** This goroutine is past the guard check of start, and not stale. */
  predicate PastGuard(s: State, thread: Thread) {
    thread.phase.Launch? || (thread.phase.LastCheck? && (thread.kind.Scheduled? ==> thread.kind.epoch == s.shared.epoch))
  }

  ghost predicate Blocked(s: State) {
    s.shared.tripped && !s.shared.running && forall t :: 0 <= t < |s.threads| ==> !PastGuard(s, s.threads[t])
  }

  lemma BlockedStep(s: State, step: Step)
    requires Reachable(s) && Blocked(s) && Enabled(s, step) && !ClearsGuard(s, step)
    ensures Blocked(Do(s, step))
  {
  }

  lemma {:induction false} BlockedRun(s: State, steps: seq<Step>)
    requires Reachable(s) && Blocked(s) && IsRun(s, steps) && GuardStands(s, steps)
    ensures Blocked(End(s, steps))
    decreases |steps|
  {
    if steps != [] {
      BlockedStep(s, steps[0]);
      ReachableStep(s, steps[0]);
      hide Blocked, Reachable;
      BlockedRun(Do(s, steps[0]), steps[1..]);
    }
  }

  lemma OutrunsLater(s: State, step: Step)
    requires Enabled(s, step) && !ClearsGuard(s, step) && Outruns(Do(s, step))
    ensures Outruns(s)
  {
    var rest :| IsRun(Do(s, step), rest) && GuardStands(Do(s, step), rest) && End(Do(s, step), rest).shared.running;
    var steps := [step] + rest;
    assert steps[0] == step && steps[1..] == rest;
    assert IsRun(s, steps) && GuardStands(s, steps) && End(s, steps).shared.running;
  }

  lemma OutrunsFromLaunch(s: State, t: nat)
    requires t < |s.threads| && s.gate == Some(t) && s.threads[t].phase.Launch?
    ensures Outruns(s)
  {
    var next := Do(s, Run(t, Go));
    assert IsRun(next, []) && GuardStands(next, []) && End(next, []).shared.running;
    OutrunsLater(s, Run(t, Go));
  }

  /** While the guard is active and no process is left, the browser comes up if and
      only if some operation was past the guard check already: that check is made
      once, before the last look at the context. */
  lemma GuardHoldsExactly(s: State)
    requires Reachable(s) && s.shared.tripped && !s.shared.running
    ensures Outruns(s) <==> exists t :: 0 <= t < |s.threads| && PastGuard(s, s.threads[t])
  {
    if t :| 0 <= t < |s.threads| && PastGuard(s, s.threads[t]) {
      assert s.gate == Some(t);
      hide Outruns, Reachable;
      if s.threads[t].phase.Launch? {
        OutrunsFromLaunch(s, t);
      } else {
        OutrunsFromLaunch(Do(s, Run(t, Go)), t);
        OutrunsLater(s, Run(t, Go));
      }
    } else {
      forall steps | IsRun(s, steps) && GuardStands(s, steps) ensures !End(s, steps).shared.running {
        BlockedRun(s, steps);
      }
    }
  }

  /** The first trip with a browser running asks for its end: a stop queues for
      the gate, which it can take, and once it has ended without error no process
      is left, and none comes up until the guard is cleared. */
  lemma TripBringsDown(s: State, steps: seq<Step>, choice: Choice)
    requires Reachable(s) && !s.shared.tripped && s.shared.running && s.gate.None?
    ensures var n, tripped := |s.threads|, Do(s, Trip);
      && tripped.shared.tripped && Enabled(tripped, Enter(n)) && MaySucceed(Do(tripped, Enter(n)), n)
      && (IsRun(Do(tripped, Enter(n)), steps) && GuardStands(Do(tripped, Enter(n)), steps)
          && SucceedsNow(End(Do(tripped, Enter(n)), steps), n, choice) ==>
            !Outruns(Do(End(Do(tripped, Enter(n)), steps), Run(n, choice))))
  {
    var n := |s.threads|;
    var tripped := Do(s, Trip);
    var entered := Do(tripped, Enter(n));
    ReachableStep(s, Trip);
    ReachableStep(tripped, Enter(n));
    assert tripped.threads[n] == Thread(AuthStop, Queued) && entered.threads[n] == Thread(AuthStop, Entered);
    hide Reachable, MaySucceed, Outruns;
    SucceedsExactlyWhen(entered, n);
    if IsRun(entered, steps) && GuardStands(entered, steps) && SucceedsNow(End(entered, steps), n, choice) {
      var waiting := End(entered, steps);
      OperationsDeliver(entered, steps, n, choice);
      ReachedIsReachable(entered, steps);
      StaysTripped(entered, steps);
      ReachableStep(waiting, Run(n, choice));
      StaysAtWork(entered, steps, n, entered.shared.generation);
      EndedStop(waiting, n, choice);
      GuardHoldsExactly(Do(waiting, Run(n, choice)));
    }
  }

  lemma {:induction false} StaysTripped(s: State, steps: seq<Step>)
    requires s.shared.tripped && IsRun(s, steps) && GuardStands(s, steps)
    ensures End(s, steps).shared.tripped
    decreases |steps|
  {
    if steps != [] {
      assert Do(s, steps[0]).shared.tripped;
      StaysTripped(Do(s, steps[0]), steps[1..]);
    }
  }

  lemma EndedStop(s: State, n: nat, choice: Choice)
    requires Reachable(s) && SucceedsNow(s, n, choice) && s.threads[n].kind.AuthStop?
    ensures Do(s, Run(n, choice)).shared.tripped == s.shared.tripped
    ensures forall t :: 0 <= t < |s.threads| ==> !PastGuard(Do(s, Run(n, choice)), Do(s, Run(n, choice)).threads[t])
    ensures |Do(s, Run(n, choice)).threads| == |s.threads|
  {
    assert Shape(s.threads[n]);
  }

  // --------------------------------------------------------- stays stopped

  /** The step runs a section of an operation that starts the browser. */
  predicate RunsStarter(s: State, step: Step) {
    step.Run? && step.t < |s.threads| && Starter(s.threads[step.t].kind)
  }

  /** The step runs one of the sections that clear the manual-stop flag. */
  predicate ClearsFlag(s: State, step: Step) {
    step.Run? && step.t < |s.threads| &&
    var thread := s.threads[step.t];
    (thread.phase.Entered? && (thread.kind.Start? || thread.kind.Restart? || thread.kind.UserRecover?)) || thread.phase.ClearFlag?
  }

  /** Until stop request n has returned, a step against it clears the flag; from
      then on it starts the browser. */
  predicate Against(s: State, step: Step, n: nat)
    requires n < |s.threads|
  {
    if s.threads[n].phase == Finished(true) then RunsStarter(s, step) else ClearsFlag(s, step)
  }

  ghost predicate Unopposed(s: State, steps: seq<Step>, n: nat)
    requires IsRun(s, steps) && n < |s.threads|
    decreases |steps|
  {
    steps == [] || (!Against(s, steps[0], n) && Unopposed(Do(s, steps[0]), steps[1..], n))
  }

  predicate Stopper(kind: Kind) { kind.Stop? || kind.AuthStop? }

  /** Past the checks, on the way to a launch. */
  predicate Committed(thread: Thread) {
    Holding(thread.phase) && !thread.phase.Entered? && !thread.phase.Admit? && !Stopper(thread.kind)
  }

  /** Stopped, and nobody is on the way to a launch. */
  ghost predicate Quiet(s: State) {
    && s.shared.manuallyStopped && !s.shared.running
    && forall t :: 0 <= t < |s.threads| ==> !Committed(s.threads[t])
  }

  lemma QuietStep(s: State, step: Step)
    requires Quiet(s) && Shapes(s) && Enabled(s, step) && !RunsStarter(s, step)
    ensures Quiet(Do(s, step))
  {
  }

  /** Only those sections clear the flag, and only a call of Stop sets it. */
  lemma FlagStep(s: State, step: Step)
    requires Enabled(s, step)
    ensures s.shared.manuallyStopped ==> (Do(s, step).shared.manuallyStopped <==> !ClearsFlag(s, step))
    ensures !s.shared.manuallyStopped && step != Call(Stop) ==> !Do(s, step).shared.manuallyStopped
  {
  }

  /** The stop request n is open, or it succeeded and everything is quiet. */
  ghost predicate StopHonoured(s: State, n: nat) {
    && Reachable(s) && s.shared.manuallyStopped
    && n < |s.threads| && s.threads[n].kind.Stop?
    && (s.threads[n].phase == Finished(true) ==> Quiet(s))
  }

  lemma StopHonouredStep(s: State, step: Step, n: nat)
    requires StopHonoured(s, n) && Enabled(s, step) && !Against(s, step, n)
    ensures StopHonoured(Do(s, step), n)
  {
    ReachableStep(s, step);
    if s.threads[n].phase == Finished(true) {
      QuietStep(s, step);
    } else {
      FlagStep(s, step);
      if Do(s, step).threads[n].phase == Finished(true) {
        assert s.gate == Some(n);
        assert forall t :: 0 <= t < |s.threads| && t != n ==> !Holding(s.threads[t].phase);
      }
    }
  }

  /** Once Stop has returned without error the browser stays stopped, in every
      interleaving in which no section clears the flag while Stop is under way
      and no starting operation runs afterwards. Page switches and starts that
      are past clearing the flag may hold the gate while Stop waits for it. */
  lemma {:induction false} StopStaysStopped(s: State, steps: seq<Step>, n: nat)
    requires StopHonoured(s, n) && IsRun(s, steps) && Unopposed(s, steps, n)
    ensures StopHonoured(End(s, steps), n)
    ensures End(s, steps).threads[n].phase == Finished(true) ==> !End(s, steps).shared.running
    decreases |steps|
  {
    if steps != [] {
      StopHonouredStep(s, steps[0], n);
      StopStaysStopped(Do(s, steps[0]), steps[1..], n);
    }
  }

  /** A fresh call of Stop opens such a request, whatever is going on. */
  lemma StopOpensRequest(s: State)
    requires Reachable(s)
    ensures StopHonoured(Do(s, Call(Stop)), |s.threads|)
  {
    ReachableStep(s, Call(Stop));
  }

  /** No section of the run clears the flag. */
  ghost predicate NoneClears(s: State, steps: seq<Step>)
    requires IsRun(s, steps)
    decreases |steps|
  {
    steps == [] || (!ClearsFlag(s, steps[0]) && NoneClears(Do(s, steps[0]), steps[1..]))
  }

  lemma {:induction false} FlagStaysClear(s: State, steps: seq<Step>)
    requires IsRun(s, steps) && !s.shared.manuallyStopped && Call(Stop) !in steps
    ensures !End(s, steps).shared.manuallyStopped
    decreases |steps|
  {
    if steps != [] {
      FlagStep(s, steps[0]);
      FlagStaysClear(Do(s, steps[0]), steps[1..]);
    }
  }

  /** After the last call of Stop the flag is still set if and only if no section
      has cleared it since. */
  lemma {:induction false} FlagSetExactly(s: State, steps: seq<Step>)
    requires IsRun(s, steps) && s.shared.manuallyStopped && Call(Stop) !in steps
    ensures End(s, steps).shared.manuallyStopped <==> NoneClears(s, steps)
    decreases |steps|
  {
    if steps != [] {
      FlagStep(s, steps[0]);
      if ClearsFlag(s, steps[0]) {
        FlagStaysClear(Do(s, steps[0]), steps[1..]);
      } else {
        FlagSetExactly(Do(s, steps[0]), steps[1..]);
      }
    }
  }

  // ---------------------------------------------- when a stop is not enough

  predicate RecoveryKind(kind: Kind) {
    kind.AutoRecover? || kind.Scheduled? || kind.AuthStop?
  }

  /** Steps in which no user operation takes part. */
  predicate Automatic(s: State, step: Step) {
    match step
    case Call(_) => false
    case Enter(t) => t < |s.threads| && RecoveryKind(s.threads[t].kind)
    case Run(t, _) => t < |s.threads| && RecoveryKind(s.threads[t].kind)
    case _ => true
  }

  ghost predicate AllAutomatic(s: State, steps: seq<Step>)
    requires IsRun(s, steps)
    decreases |steps|
  {
    steps == [] || (Automatic(s, steps[0]) && AllAutomatic(Do(s, steps[0]), steps[1..]))
  }

  /** A goroutine that may still bring the browser up by itself. */
  predicate Candidate(s: State, thread: Thread) {
    match thread.kind
    case ExitHandler => thread.phase.Queued?
    case AutoRecover => thread.phase.Idle? || thread.phase.Queued? || thread.phase.Entered? || thread.phase.Admit?
    case Scheduled(epoch) =>
      (epoch == s.shared.epoch && (thread.phase.Idle? || thread.phase.Queued? || thread.phase.Entered?)) || thread.phase.Admit?
    case _ => false
  }

  predicate SomeCandidate(s: State) {
    exists t :: 0 <= t < |s.threads| && Candidate(s, s.threads[t])
  }

  ghost predicate Dormant(s: State) {
    && !s.shared.running
    && (forall t :: 0 <= t < |s.threads| && s.gate == Some(t) ==> RecoveryKind(s.threads[t].kind) && !Committed(s.threads[t]))
    && (s.shared.manuallyStopped || s.shared.tripped || !SomeCandidate(s))
  }

  lemma DormantStep(s: State, step: Step)
    requires Reachable(s) && Dormant(s) && Enabled(s, step) && Automatic(s, step)
    ensures Dormant(Do(s, step))
  {
    var next := Do(s, step);
    if !s.shared.manuallyStopped && !s.shared.tripped && !step.Trip? {
      forall t | 0 <= t < |next.threads| ensures !Candidate(next, next.threads[t]) {
        if t < |s.threads| {
          assert !Candidate(s, s.threads[t]);
        }
      }
    }
  }

  lemma {:induction false} DormantRun(s: State, steps: seq<Step>)
    requires Reachable(s) && Dormant(s) && IsRun(s, steps) && AllAutomatic(s, steps)
    ensures !End(s, steps).shared.running
    decreases |steps|
  {
    if steps != [] {
      DormantStep(s, steps[0]);
      ReachableStep(s, steps[0]);
      DormantRun(Do(s, steps[0]), steps[1..]);
    }
  }

  /** Some automatic run brings the browser up. */
  ghost predicate MayComeBack(s: State) {
    exists steps :: IsRun(s, steps) && AllAutomatic(s, steps) && End(s, steps).shared.running
  }

  lemma FirstStep(s: State, step: Step)
    requires Enabled(s, step) && Automatic(s, step) && MayComeBack(Do(s, step))
    ensures MayComeBack(s)
  {
    var rest :| IsRun(Do(s, step), rest) && AllAutomatic(Do(s, step), rest) && End(Do(s, step), rest).shared.running;
    var steps := [step] + rest;
    assert steps[0] == step && steps[1..] == rest;
    assert IsRun(s, steps) && AllAutomatic(s, steps) && End(s, steps).shared.running;
  }

  lemma Launches(s: State, t: nat)
    requires s.gate.None? && !s.shared.running && !s.shared.manuallyStopped && !s.shared.tripped
    requires t < |s.threads| && s.threads[t].phase.Queued?
    requires s.threads[t].kind.AutoRecover? || s.threads[t].kind == Scheduled(s.shared.epoch)
    ensures MayComeBack(s)
  {
    hide MayComeBack;
    var go := Run(t, Go);
    var s1 := Do(s, Enter(t));
    var s2 := Do(s1, go);
    var s3 := Do(s2, go);
    StartComes(s3, t);
    FirstStep(s2, go);
    FirstStep(s1, go);
    FirstStep(s, Enter(t));
  }

  lemma StartComes(s: State, t: nat)
    requires !s.shared.running && !s.shared.tripped && t < |s.threads| && s.gate == Some(t)
    requires s.threads[t].kind.AutoRecover? || s.threads[t].kind == Scheduled(s.shared.epoch)
    requires s.threads[t].phase.CheckStart?
    ensures MayComeBack(s)
  {
    hide MayComeBack;
    var go := Run(t, Go);
    var s1 := Do(s, go);
    LaunchComes(Do(s1, go), t);
    FirstStep(s1, go);
    FirstStep(s, go);
  }

  lemma LaunchComes(s: State, t: nat)
    requires t < |s.threads| && s.gate == Some(t) && RecoveryKind(s.threads[t].kind) && s.threads[t].phase.Launch?
    ensures MayComeBack(s)
  {
    var next := Do(s, Run(t, Go));
    assert IsRun(next, []) && AllAutomatic(next, []) && End(next, []).shared.running;
    FirstStep(s, Run(t, Go));
  }

  /** With the gate free and no process, the browser can come back without any
      user operation if and only if the manual-stop flag and the guard are both
      clear and some recovery was decided on or scheduled before. */
  lemma ComesBackExactlyWhen(s: State)
    requires Reachable(s) && s.gate.None? && !s.shared.running
    ensures MayComeBack(s) <==> !s.shared.manuallyStopped && !s.shared.tripped && SomeCandidate(s)
  {
    if s.shared.manuallyStopped || s.shared.tripped || !SomeCandidate(s) {
      assert Dormant(s);
      forall steps | IsRun(s, steps) && AllAutomatic(s, steps) ensures !End(s, steps).shared.running {
        DormantRun(s, steps);
      }
    } else {
      var t :| 0 <= t < |s.threads| && Candidate(s, s.threads[t]);
      match s.threads[t].kind {
        case ExitHandler =>
          var handled := Do(s, Handle(t, true));
          Launches(Do(handled, Fire(t)), t);
          FirstStep(handled, Fire(t));
          FirstStep(s, Handle(t, true));
        case AutoRecover =>
          if s.threads[t].phase.Idle? {
            Launches(Do(s, Fire(t)), t);
            FirstStep(s, Fire(t));
          } else {
            Launches(s, t);
          }
        case Scheduled(_) =>
          if s.threads[t].phase.Idle? {
            Launches(Do(s, Fire(t)), t);
            FirstStep(s, Fire(t));
          } else {
            Launches(s, t);
          }
        case _ =>
      }
    }
  }

  /** When the process ends with the gate free, the browser can come back by itself
      if and only if flag and guard are clear and nobody asked for the exit, or
      some recovery was decided on or scheduled before. */
  lemma ExitComesBackExactly(s: State)
    requires Reachable(s) && s.gate.None? && s.shared.running
    ensures MayComeBack(Do(s, Exit)) <==>
      !s.shared.manuallyStopped && !s.shared.tripped && (!s.shared.stopping || SomeCandidate(s))
  {
    var gone := Do(s, Exit);
    ReachableStep(s, Exit);
    hide MayComeBack, Reachable;
    ComesBackExactlyWhen(gone);
    if !s.shared.stopping {
      assert Candidate(gone, gone.threads[|s.threads|]);
    } else {
      assert forall t :: 0 <= t < |s.threads| ==> (Candidate(gone, gone.threads[t]) <==> Candidate(s, s.threads[t]));
    }
  }

  lemma {:induction false} StopKeepsItsKind(s: State, steps: seq<Step>, n: nat)
    requires IsRun(s, steps) && n < |s.threads| && s.threads[n].kind.Stop?
    ensures n < |End(s, steps).threads| && End(s, steps).threads[n].kind.Stop?
    decreases |steps|
  {
    if steps != [] {
      assert Do(s, steps[0]).threads[n].kind.Stop?;
      StopKeepsItsKind(Do(s, steps[0]), steps[1..], n);
    }
  }

  /** From the last call of Stop to its return without error: then the process is
      gone and the gate free, and the browser may come back by itself if and only
      if some section cleared the flag meanwhile, the guard is clear and some
      recovery was decided on or scheduled before. */
  lemma WhenStopReturns(s: State, steps: seq<Step>, choice: Choice)
    requires Reachable(s) && IsRun(Do(s, Call(Stop)), steps) && Call(Stop) !in steps
    requires var n, waiting := |s.threads|, End(Do(s, Call(Stop)), steps);
      Enabled(waiting, Run(n, choice)) && Do(waiting, Run(n, choice)).threads[n].phase == Finished(true)
    ensures var n, waiting := |s.threads|, End(Do(s, Call(Stop)), steps);
      var next := Do(waiting, Run(n, choice));
      && next.gate.None? && !next.shared.running
      && (next.shared.manuallyStopped <==> NoneClears(Do(s, Call(Stop)), steps))
      && (MayComeBack(next) <==> !NoneClears(Do(s, Call(Stop)), steps) && !next.shared.tripped && SomeCandidate(next))
  {
    var n, called := |s.threads|, Do(s, Call(Stop));
    var waiting := End(called, steps);
    var next := Do(waiting, Run(n, choice));
    ReachableStep(s, Call(Stop));
    ReachedIsReachable(called, steps);
    StopKeepsItsKind(called, steps, n);
    FlagSetExactly(called, steps);
    FlagStep(waiting, Run(n, choice));
    StopReturning(waiting, n, choice);
    hide Reachable, MayComeBack, SomeCandidate, IsRun, End, NoneClears;
    ReachableStep(waiting, Run(n, choice));
    ComesBackExactlyWhen(next);
  }

  lemma StopReturning(s: State, n: nat, choice: Choice)
    requires Reachable(s) && Enabled(s, Run(n, choice)) && s.threads[n].kind.Stop?
    requires Do(s, Run(n, choice)).threads[n].phase == Finished(true)
    ensures Do(s, Run(n, choice)).gate.None? && !Do(s, Run(n, choice)).shared.running && !ClearsFlag(s, Run(n, choice))
  {
    assert Shape(s.threads[n]);
    hide Inv, Shapes;
  }

  ghost predicate Reaches(a: State, b: State) {
    exists steps :: IsRun(a, steps) && End(a, steps) == b
  }

  lemma {:induction false} RunThenStep(a: State, steps: seq<Step>, step: Step)
    requires IsRun(a, steps) && Enabled(End(a, steps), step)
    ensures IsRun(a, steps + [step]) && End(a, steps + [step]) == Do(End(a, steps), step)
    decreases |steps|
  {
    if steps == [] {
      assert [step][1..] == [];
    } else {
      assert (steps + [step])[1..] == steps[1..] + [step];
      RunThenStep(Do(a, steps[0]), steps[1..], step);
    }
  }

  lemma Then(a: State, b: State, step: Step) returns (c: State)
    requires Reaches(a, b) && Enabled(b, step)
    ensures c == Do(b, step) && Reaches(a, c)
  {
    var steps :| IsRun(a, steps) && End(a, steps) == b;
    RunThenStep(a, steps, step);
    c := Do(b, step);
  }

  /** A stop can be overtaken: with a start queued ahead of it, Stop returns
      without error, no process is left, and yet a recovery the old process's
      watcher decided on may bring the browser back without any user operation. */
  lemma StopCanBeOvertaken() returns (s: State)
    ensures Reaches(INITIAL, s) && s.gate.None? && !s.shared.running
    ensures |s.threads| == 5 && s.threads[3] == Thread(Stop, Finished(true))
    ensures MayComeBack(s)
  {
    hide Reaches, MayComeBack;
    s := StartNow();
    s := StopBehindStart(s);
    s := StopNow(s);
    Launches(s, 4);
  }

  lemma StartNow() returns (s: State)
    ensures Reaches(INITIAL, s) && s.gate.None? && s.shared == Shared(false, 1, true, false, false, 1)
    ensures s.threads == [Thread(Start, Finished(true)), Thread(Watcher(1), Idle)]
  {
    hide Reaches, IsRun, End;
    s := StartEntered();
    s := Then(INITIAL, s, Run(0, Go));
    s := Then(INITIAL, s, Run(0, Go));
    s := Then(INITIAL, s, Run(0, Go));
  }

  lemma StartEntered() returns (s: State)
    ensures Reaches(INITIAL, s) && s == State(Shared(false, 1, false, false, false, 0), Some(0), [Thread(Start, CheckStart)])
  {
    s := INITIAL;
    assert IsRun(s, []) && End(s, []) == s;
    hide Reaches, IsRun, End;
    s := Then(INITIAL, s, Call(Start));
    s := Then(INITIAL, s, Enter(0));
    s := Then(INITIAL, s, Run(0, Go));
  }

  lemma StopBehindStart(before: State) returns (s: State)
    requires Reaches(INITIAL, before) && before.gate.None? && before.shared == Shared(false, 1, true, false, false, 1)
    requires before.threads == [Thread(Start, Finished(true)), Thread(Watcher(1), Idle)]
    ensures Reaches(INITIAL, s) && s.gate.None? && s.shared == Shared(false, 3, true, false, false, 1)
    ensures |s.threads| == 5 && s.threads[3] == Thread(Stop, Queued) && s.threads[4] == Thread(AutoRecover, Queued)
  {
    hide Reaches, IsRun, End;
    s := Then(INITIAL, before, Call(Start));
    s := Then(INITIAL, s, Call(Stop));
    s := Then(INITIAL, s, Enter(2));
    s := Then(INITIAL, s, Run(2, Go));
    s := Then(INITIAL, s, Run(2, Go));
    s := Then(INITIAL, s, Decide(1));
    s := Then(INITIAL, s, Fire(4));
  }

  lemma StopNow(before: State) returns (s: State)
    requires Reaches(INITIAL, before) && before.gate.None? && before.shared == Shared(false, 3, true, false, false, 1)
    requires |before.threads| == 5 && before.threads[3] == Thread(Stop, Queued) && before.threads[4] == Thread(AutoRecover, Queued)
    ensures Reaches(INITIAL, s) && s.gate.None? && s.shared == Shared(false, 3, false, false, false, 1)
    ensures |s.threads| == 5 && s.threads[3] == Thread(Stop, Finished(true)) && s.threads[4] == Thread(AutoRecover, Queued)
  {
    hide Reaches, IsRun, End;
    s := Then(INITIAL, before, Enter(3));
    s := Then(INITIAL, s, Run(3, Go));
    s := Then(INITIAL, s, Run(3, Go));
    s := Then(INITIAL, s, Exit);
    s := Then(INITIAL, s, Run(3, Go));
  }

  /** A scheduled restart past its last look at its context is not held up by a
      stop that supersedes it: it launches with the stop request standing. */
  lemma SupersededMayLaunch() returns (s: State, t: nat)
    ensures Reaches(INITIAL, s) && Superseded(s, t) && s.shared.manuallyStopped && !s.shared.running
    ensures Enabled(s, Run(t, Go)) && Do(s, Run(t, Go)).shared.running
  {
    hide Reaches;
    s := StartNow();
    s := ExitUnexpectedly(s);
    s := RestartUpToLaunch(s);
    t := 2;
    s := Then(INITIAL, s, Call(Stop));
  }

  lemma ExitUnexpectedly(before: State) returns (s: State)
    requires Reaches(INITIAL, before) && before.gate.None? && before.shared == Shared(false, 1, true, false, false, 1)
    requires before.threads == [Thread(Start, Finished(true)), Thread(Watcher(1), Idle)]
    ensures Reaches(INITIAL, s) && s.gate.None? && s.shared == Shared(false, 2, false, false, false, 1)
    ensures |s.threads| == 3 && s.threads[2] == Thread(Scheduled(2), Queued)
  {
    hide Reaches, IsRun, End;
    s := Then(INITIAL, before, Exit);
    s := Then(INITIAL, s, Handle(2, true));
    s := Then(INITIAL, s, Fire(2));
  }

  lemma RestartUpToLaunch(before: State) returns (s: State)
    requires Reaches(INITIAL, before) && before.gate.None? && before.shared == Shared(false, 2, false, false, false, 1)
    requires |before.threads| == 3 && before.threads[2] == Thread(Scheduled(2), Queued)
    ensures Reaches(INITIAL, s) && s.gate == Some(2) && s.shared == before.shared
    ensures |s.threads| == 3 && s.threads[2] == Thread(Scheduled(2), Launch)
  {
    hide Reaches, IsRun, End;
    s := Then(INITIAL, before, Enter(2));
    s := Then(INITIAL, s, Run(2, Go));
    s := Then(INITIAL, s, Run(2, Go));
    s := Then(INITIAL, s, Run(2, Go));
    s := Then(INITIAL, s, Run(2, Go));
  }

  /** A superseded restart may still ask for an exit: a page switch has started
      the browser meanwhile, the restart passed its checks, then a stop comes. */
  lemma SupersededMayAskForExit() returns (s: State, t: nat)
    ensures Reaches(INITIAL, s) && Superseded(s, t) && s.shared.manuallyStopped
    ensures s.shared.running && !s.shared.stopping
    ensures Enabled(s, Run(t, Go)) && Do(s, Run(t, Go)).shared.stopping
  {
    hide Reaches;
    s := StartNow();
    s := ExitUnexpectedly(s);
    s := PageSwitchStarts(s);
    s := RestartUpToAskExit(s);
    t := 2;
    s := Then(INITIAL, s, Call(Stop));
  }

  lemma PageSwitchStarts(before: State) returns (s: State)
    requires Reaches(INITIAL, before) && before.gate.None? && before.shared == Shared(false, 2, false, false, false, 1)
    requires |before.threads| == 3 && before.threads[2] == Thread(Scheduled(2), Queued)
    ensures Reaches(INITIAL, s) && s.gate.None? && s.shared == Shared(false, 2, true, false, false, 2)
    ensures |s.threads| == 5 && s.threads[2] == Thread(Scheduled(2), Queued)
  {
    hide Reaches, IsRun, End;
    s := Then(INITIAL, before, Call(Page));
    s := Then(INITIAL, s, Enter(3));
    s := Then(INITIAL, s, Run(3, Go));
    s := Then(INITIAL, s, Run(3, Go));
    s := Then(INITIAL, s, Run(3, Go));
    s := Then(INITIAL, s, Run(3, Go));
  }

  lemma RestartUpToAskExit(before: State) returns (s: State)
    requires Reaches(INITIAL, before) && before.gate.None? && before.shared == Shared(false, 2, true, false, false, 2)
    requires |before.threads| == 5 && before.threads[2] == Thread(Scheduled(2), Queued)
    ensures Reaches(INITIAL, s) && s.gate == Some(2) && s.shared == before.shared
    ensures |s.threads| == 5 && s.threads[2] == Thread(Scheduled(2), AskExit)
  {
    hide Reaches, IsRun, End;
    s := Then(INITIAL, before, Enter(2));
    s := Then(INITIAL, s, Run(2, Go));
    s := Then(INITIAL, s, Run(2, Go));
    s := Then(INITIAL, s, Run(2, Go));
  }
}
