/**
 * The overlap of a database update with foreground commands in
 * scripts/bluebuild/security-scan.py, as interleaved steps of its worker thread, its
 * main thread, the updater process and arriving signals.
 */
module DatabaseOverlap {
  import opened Wrappers

  // ----- State -----

  datatype Signal = Interrupt | Terminate

  /** The leader of the updater's process group. */
  datatype Updater = Absent | Running | Exited(zero: bool)

  datatype Lock = Free | HeldByWorker | HeldByMain

  /** The worker in `update` and `stop_update`; `passed` says the updater exited zero. */
  datatype Worker =
    | Unsubmitted
    | Waiting
    | Finishing(passed: bool)
    | Locked(passed: bool)
    | Stopping(passed: bool)
    | Done(ok: bool)

  /** The lines of `__init__` that a signal can fall between. */
  datatype ConstructStage =
    | NoHandlers | InterruptInstalled | OneHandler | TerminateInstalled | BothHandlers
    | Forked | Spawned | Submitted

  /** The lines of `command`; `raising` says that its `finally` runs on an exception. */
  datatype CommandStage =
    | Checking
    | AwaitingUpdate
    | Spawning
    | Started
    | Polling
    | EnteringCleanup(raising: bool)
    | Cleaning(raising: bool)
    | LeavingCleanup(raising: bool)
    | FinalCheck(raising: bool)
    | Returning

  /** The lines of `close`; `raising` says an exception is on its way out. */
  datatype CloseStage =
    | Entering
    | Marking
    | Locking
    | Deciding
    | Killing
    | Joining(raising: bool)
    | Reporting(raising: bool)
    | Restoring(raising: bool)

  /** `Gone` is a constructor that failed; `Idle` is the caller between two calls. */
  datatype Main =
    | Constructing(construct: ConstructStage)
    | Idle
    | Command(grype: bool, command: CommandStage)
    | Closing(close: CloseStage, constructing: bool)
    | Gone

  /**
   * `installed` are the signals `cancel` handles, `recorded` those `close` can restore.
   * `stored` says that the object knows its updater, and `child` that the latest command
   * has started a child whose group it has not stopped.
   */
  datatype State = State(
    main: Main, worker: Worker, updater: Updater, stored: bool, lock: Lock, stopped: bool,
    closed: bool, cleaning: bool, child: bool, cancelled: Option<Signal>,
    installed: set<Signal>, recorded: set<Signal>)

  const START :=
    State(Constructing(NoHandlers), Unsubmitted, Absent, false, Free, false, false, false, false, None, {}, {})

  // ----- Steps -----

  datatype Event =
    | InstallHandler
    | RecordHandler
    | SpawnUpdater(ok: bool)
    | StoreUpdater
    | Submit(ok: bool)
    | ConstructReturns
    | UpdaterExits(zero: bool)
    | WorkerWakes
    | WorkerTimesOut
    | WorkerLocks
    | WorkerSkipsStop
    | WorkerStartsStop
    | WorkerCompletesStop
    | WorkerFailsStop
    | SignalArrives(signal: Signal)
    | CommandStarts(grype: bool)
    | CommandChecks
    | CommandAwaits
    | CommandSpawns(ok: bool)
    | CommandEnters
    | CommandPolls
    | CommandLeavesLoop(raising: bool)
    | CleanupStarts
    | CleanupKills(ok: bool)
    | CleanupEnds
    | CommandDecides
    | CommandReturns
    | CloseStarts
    | CloseEnters
    | CloseMarks
    | CloseLocks
    | MainSkipsStop
    | MainStartsStop
    | MainCompletesStop
    | MainFailsStop
    | CloseJoins
    | CloseReports(ok: bool)
    | CloseRestores(signal: Signal)
    | CloseReturns
    | CloseRaises

  /** Where an exception raised at this point of the main thread takes it. */
  function Raised(main: Main): Main {
    match main
    case Constructing(_) => Closing(Entering, true)
    case Command(grype, Polling) => Command(grype, EnteringCleanup(true))
    case Command(_, _) => Idle
    case Closing(_, constructing) => if constructing then Gone else Idle
    case _ => main
  }

  /** `check_cancelled`, and the failure of a finished update, at the given point. */
  predicate CheckFails(s: State) {
    s.cancelled.Some? || s.worker == Done(false)
  }

  /** The handler `cancel`. */
  function Cancel(s: State, signal: Signal): State {
    if s.cancelled.Some? then s
    else
      var t := s.(cancelled := Some(signal));
      if !s.closed && !s.cleaning then t.(main := Raised(s.main)) else t
  }

  /** The killed updater is reaped; one that exited keeps its status. */
  function Reaped(u: Updater): Updater {
    if u == Running then Exited(false) else u
  }

  function If(enabled: bool, t: State): Option<State> {
    if enabled then Some(t) else None
  }

  function Construct(s: State, e: Event): Option<State> {
    match e
    case InstallHandler =>
      if s.main == Constructing(NoHandlers) then
        Some(s.(main := Constructing(InterruptInstalled), installed := {Interrupt}))
      else if s.main == Constructing(OneHandler) then
        Some(s.(main := Constructing(TerminateInstalled), installed := s.installed + {Terminate}))
      else None
    case RecordHandler =>
      if s.main == Constructing(InterruptInstalled) then
        Some(s.(main := Constructing(OneHandler), recorded := {Interrupt}))
      else if s.main == Constructing(TerminateInstalled) then
        Some(s.(main := Constructing(BothHandlers), recorded := s.recorded + {Terminate}))
      else None
    case SpawnUpdater(ok) =>
      If(s.main == Constructing(BothHandlers),
         if ok then s.(main := Constructing(Forked), updater := Running) else s.(main := Closing(Entering, true)))
    case StoreUpdater => If(s.main == Constructing(Forked), s.(main := Constructing(Spawned), stored := true))
    case Submit(ok) =>
      If(s.main == Constructing(Spawned),
         if ok then s.(main := Constructing(Submitted), worker := Waiting) else s.(main := Closing(Entering, true)))
    case ConstructReturns => If(s.main == Constructing(Submitted), s.(main := Idle))
    case _ => None
  }

  function Work(s: State, e: Event): Option<State> {
    match e
    case UpdaterExits(zero) => If(s.updater == Running, s.(updater := Exited(zero)))
    case WorkerWakes =>
      if s.worker == Waiting && s.updater.Exited? then Some(s.(worker := Finishing(s.updater.zero))) else None
    case WorkerTimesOut => If(s.worker == Waiting, s.(worker := Finishing(false)))
    case WorkerLocks =>
      if s.worker.Finishing? && s.lock == Free then Some(s.(worker := Locked(s.worker.passed), lock := HeldByWorker))
      else None
    case WorkerSkipsStop =>
      if s.worker.Locked? && s.stopped then Some(s.(worker := Done(s.worker.passed), lock := Free)) else None
    case WorkerStartsStop =>
      if s.worker.Locked? && !s.stopped then Some(s.(worker := Stopping(s.worker.passed))) else None
    case WorkerCompletesStop =>
      if s.worker.Stopping? then
        Some(s.(worker := Done(s.worker.passed), stopped := true, updater := Reaped(s.updater), lock := Free))
      else None
    case WorkerFailsStop => If(s.worker.Stopping?, s.(worker := Done(false), lock := Free))
    case _ => None
  }

  /** A command at the line `c`. */
  function CommandLine(s: State, g: bool, c: CommandStage, e: Event): Option<State> {
    match e
    case CommandChecks =>
      If(c == Checking, s.(main := if CheckFails(s) then Idle else Command(g, if g then AwaitingUpdate else Spawning)))
    case CommandAwaits =>
      If(c == AwaitingUpdate && s.worker.Done?,
         s.(main := if s.worker == Done(true) then Command(g, Spawning) else Idle))
    case CommandSpawns(ok) =>
      If(c == Spawning, if ok then s.(main := Command(g, Started), child := true) else s.(main := Idle))
    case CommandEnters => If(c == Started, s.(main := Command(g, Polling)))
    case CommandPolls => If(c == Polling, if CheckFails(s) then s.(main := Command(g, EnteringCleanup(true))) else s)
    case CommandLeavesLoop(raising) =>
      If(c == Polling, s.(main := Command(g, EnteringCleanup(raising || CheckFails(s)))))
    case CleanupStarts =>
      if c.EnteringCleanup? then Some(s.(main := Command(g, Cleaning(c.raising)), cleaning := true)) else None
    case CleanupKills(ok) =>
      if c.Cleaning? then Some(s.(main := Command(g, LeavingCleanup(c.raising || !ok)), child := !ok)) else None
    case CleanupEnds =>
      if c.LeavingCleanup? then Some(s.(main := Command(g, FinalCheck(c.raising)), cleaning := false)) else None
    case CommandDecides =>
      if c.FinalCheck? then Some(s.(main := if c.raising || s.cancelled.Some? then Idle else Command(g, Returning)))
      else None
    case CommandReturns => If(c == Returning, s.(main := Idle))
    case _ => None
  }

  function Foreground(s: State, e: Event): Option<State> {
    if e.CommandStarts? then If(s.main == Idle, s.(main := Command(e.grype, Checking), child := false))
    else if s.main.Command? then CommandLine(s, s.main.grype, s.main.command, e)
    else None
  }

  /** Where `close` leaves to. */
  function Leaves(constructing: bool): Main {
    if constructing then Gone else Idle
  }

  /** A close at the line `l`. */
  function CloseLine(s: State, l: CloseStage, c: bool, e: Event): Option<State> {
    match e
    case CloseEnters => If(l == Entering && !s.closed, s.(main := Closing(Marking, c)))
    case CloseMarks => If(l == Marking, s.(main := Closing(Locking, c), closed := true))
    case CloseLocks => If(l == Locking && s.lock == Free, s.(main := Closing(Deciding, c), lock := HeldByMain))
    case MainSkipsStop =>
      If(l == Deciding && (s.stopped || !s.stored), s.(main := Closing(Joining(false), c), lock := Free))
    case MainStartsStop => If(l == Deciding && !s.stopped && s.stored, s.(main := Closing(Killing, c)))
    case MainCompletesStop =>
      If(l == Killing,
         s.(main := Closing(Joining(false), c), stopped := true, updater := Reaped(s.updater), lock := Free))
    case MainFailsStop => If(l == Killing, s.(main := Closing(Joining(true), c), lock := Free))
    case CloseJoins =>
      if l.Joining? && Finished(s.worker) then
        Some(s.(main := Closing(if l.raising then Restoring(true) else Reporting(false), c)))
      else None
    case CloseReports(ok) => if l.Reporting? then Some(s.(main := Closing(Restoring(l.raising || !ok), c))) else None
    case CloseRestores(signal) =>
      If(l.Restoring? && signal in s.recorded,
         s.(recorded := s.recorded - {signal}, installed := s.installed - {signal}))
    case CloseReturns =>
      If((l == Entering && s.closed) || (l == Restoring(false) && s.recorded == {}), s.(main := Leaves(c)))
    case CloseRaises => If(l == Restoring(true) && s.recorded == {}, s.(main := Leaves(c)))
    case _ => None
  }

  function Shut(s: State, e: Event): Option<State> {
    if e.CloseStarts? then If(s.main == Idle, s.(main := Closing(Entering, false)))
    else if s.main.Closing? then CloseLine(s, s.main.close, s.main.constructing, e)
    else None
  }

  /** One step, when it can be taken. A signal reaches `cancel` while its handler is installed. */
  function Step(s: State, e: Event): Option<State> {
    if e.SignalArrives? then If(e.signal in s.installed, Cancel(s, e.signal))
    else if Construct(s, e).Some? then Construct(s, e)
    else if Work(s, e).Some? then Work(s, e)
    else if Foreground(s, e).Some? then Foreground(s, e)
    else Shut(s, e)
  }

  /** The state after a sequence of steps from the start, when all of them can be taken. */
  function Run(events: seq<Event>): Option<State> {
    if events == [] then Some(START)
    else
      var before := Run(events[..|events| - 1]);
      if before.None? then None else Step(before.value, events[|events| - 1])
  }

  // ----- What every step keeps -----

  predicate Finished(w: Worker) {
    w == Unsubmitted || w.Done?
  }

  /** Main holds or wants the lock, or waits for the worker. */
  predicate BeforeJoin(m: Main) {
    m.Closing? && (m.close.Locking? || m.close.Deciding? || m.close.Killing? || m.close.Joining?)
  }

  predicate BeforeRestored(m: Main) {
    BeforeJoin(m) || (m.Closing? && (m.close.Reporting? || m.close.Restoring?))
  }

  /** The object was never handed to a caller. */
  predicate Unfinished(m: Main) {
    m.Constructing? || m.Gone? || (m.Closing? && m.constructing)
  }

  predicate MainHoldsLock(m: Main) {
    m.Closing? && (m.close.Deciding? || m.close.Killing?)
  }

  predicate WorkerHoldsLock(w: Worker) {
    w.Locked? || w.Stopping?
  }

  predicate WorkerPassed(w: Worker) {
    (w.Finishing? && w.passed) || (w.Locked? && w.passed) || (w.Stopping? && w.passed)
  }

  /** The lock, and who is stopping the updater's group. */
  predicate LockInv(s: State) {
    && (s.lock == HeldByWorker <==> WorkerHoldsLock(s.worker))
    && (s.lock == HeldByMain <==> MainHoldsLock(s.main))
    && (s.worker.Stopping? ==> !s.stopped)
    && (s.main.Closing? && s.main.close.Killing? ==> !s.stopped && s.stored)
  }

  /** A passed update means an updater that exited zero, and in the end a stopped group. */
  predicate UpdateInv(s: State) {
    && (s.stopped ==> s.updater.Exited?)
    && (WorkerPassed(s.worker) ==> s.updater == Exited(true))
    && (s.worker == Done(true) ==> s.updater == Exited(true) && s.stopped)
    && (s.worker != Unsubmitted || s.stopped ==> s.stored)
    && (s.stored ==> s.updater != Absent)
    && (s.main.Constructing? ==>
          && (s.worker != Unsubmitted ==> s.main.construct.Submitted?)
          && (s.stored <==> s.main.construct.Spawned? || s.main.construct.Submitted?)
          && (s.updater != Absent <==> s.stored || s.main.construct.Forked?))
  }

  /** A foreground `grype` past its wait runs against a passed update. */
  predicate CommandInv(s: State) {
    && (s.main.Command? && s.main.grype && !s.main.command.Checking? && !s.main.command.AwaitingUpdate? ==>
          s.worker == Done(true))
    && (s.cleaning <==> s.main.Command? && (s.main.command.Cleaning? || s.main.command.LeavingCleanup?))
    && (s.main.Command? && s.main.command.Returning? ==> s.cancelled.None?)
  }

  /** Closing joins the worker and gives the recorded handlers back. */
  predicate CloseInv(s: State) {
    && (s.main.Constructing? ==> !s.closed)
    && (s.main.Closing? && s.main.close.Marking? ==> !s.closed)
    && (BeforeRestored(s.main) ==> s.closed)
    && (s.closed && !BeforeJoin(s.main) ==> Finished(s.worker))
    && (s.closed && !BeforeRestored(s.main) ==> s.recorded == {})
    && (!Unfinished(s.main) ==> s.installed == s.recorded)
    && (s.main.Constructing? ==>
          match s.main.construct
          case NoHandlers => s.installed == s.recorded == {}
          case InterruptInstalled => s.installed == {Interrupt} && s.recorded == {}
          case OneHandler => s.installed == s.recorded == {Interrupt}
          case TerminateInstalled => s.installed == {Interrupt, Terminate} && s.recorded == {Interrupt}
          case _ => s.installed == s.recorded)
  }

  predicate Inv(s: State) {
    LockInv(s) && UpdateInv(s) && CommandInv(s) && CloseInv(s)
  }

  lemma SignalKeepsInv(s: State, signal: Signal)
    requires Inv(s) && signal in s.installed
    ensures Inv(Cancel(s, signal))
  {
  }

  lemma StepKeepsInv(s: State, e: Event)
    requires Inv(s) && Step(s, e).Some?
    ensures Inv(Step(s, e).value)
  {
    if e.SignalArrives? {
      SignalKeepsInv(s, e.signal);
    } else if Construct(s, e).Some? {
      ConstructKeepsInv(s, e);
    } else if Work(s, e).Some? {
      WorkKeepsInv(s, e);
    } else if Foreground(s, e).Some? {
      ForegroundKeepsInv(s, e);
    } else {
      ShutKeepsInv(s, e);
    }
  }

  lemma ConstructKeepsInv(s: State, e: Event)
    requires Inv(s) && Construct(s, e).Some?
    ensures Inv(Construct(s, e).value)
  {
    hide LockInv, UpdateInv, CommandInv, CloseInv, Construct;
    ConstructKeepsLock(s, e);
    ConstructKeepsUpdate(s, e);
    ConstructKeepsCommand(s, e);
    ConstructKeepsClose(s, e);
  }

  lemma ConstructKeepsLock(s: State, e: Event)
    requires Inv(s) && Construct(s, e).Some?
    ensures LockInv(Construct(s, e).value)
  {
  }

  lemma ConstructKeepsUpdate(s: State, e: Event)
    requires Inv(s) && Construct(s, e).Some?
    ensures UpdateInv(Construct(s, e).value)
  {
  }

  lemma ConstructKeepsCommand(s: State, e: Event)
    requires Inv(s) && Construct(s, e).Some?
    ensures CommandInv(Construct(s, e).value)
  {
  }

  lemma ConstructKeepsClose(s: State, e: Event)
    requires Inv(s) && Construct(s, e).Some?
    ensures CloseInv(Construct(s, e).value)
  {
  }

  lemma WorkKeepsInv(s: State, e: Event)
    requires Inv(s) && Work(s, e).Some?
    ensures Inv(Work(s, e).value)
  {
    hide LockInv, UpdateInv, CommandInv, CloseInv, Work;
    WorkKeepsLock(s, e);
    WorkKeepsUpdate(s, e);
    WorkKeepsCommand(s, e);
    WorkKeepsClose(s, e);
  }

  lemma WorkKeepsLock(s: State, e: Event)
    requires Inv(s) && Work(s, e).Some?
    ensures LockInv(Work(s, e).value)
  {
  }

  lemma WorkKeepsUpdate(s: State, e: Event)
    requires Inv(s) && Work(s, e).Some?
    ensures UpdateInv(Work(s, e).value)
  {
  }

  lemma WorkKeepsCommand(s: State, e: Event)
    requires Inv(s) && Work(s, e).Some?
    ensures CommandInv(Work(s, e).value)
  {
  }

  lemma WorkKeepsClose(s: State, e: Event)
    requires Inv(s) && Work(s, e).Some?
    ensures CloseInv(Work(s, e).value)
  {
  }

  lemma ForegroundKeepsInv(s: State, e: Event)
    requires Inv(s) && Foreground(s, e).Some?
    ensures Inv(Foreground(s, e).value)
  {
    hide LockInv, UpdateInv, CommandInv, CloseInv, Foreground;
    ForegroundKeepsLock(s, e);
    ForegroundKeepsUpdate(s, e);
    ForegroundKeepsCommand(s, e);
    ForegroundKeepsClose(s, e);
  }

  /** Only the main thread's line and its child differ. */
  predicate Framed(s: State, t: State) {
    && t.worker == s.worker && t.updater == s.updater && t.stored == s.stored && t.lock == s.lock
    && t.stopped == s.stopped && t.closed == s.closed && t.cancelled == s.cancelled
    && t.installed == s.installed && t.recorded == s.recorded
  }

  lemma ForegroundFrame(s: State, e: Event)
    requires Foreground(s, e).Some?
    ensures var t := Foreground(s, e).value;
            && (s.main == Idle || s.main.Command?) && (t.main == Idle || t.main.Command?)
            && Framed(s, t)
  {
    hide CommandLine;
    if s.main.Command? && !e.CommandStarts? {
      CommandLineFrame(s, s.main.grype, s.main.command, e);
    }
  }

  lemma CommandLineFrame(s: State, g: bool, c: CommandStage, e: Event)
    requires CommandLine(s, g, c, e).Some?
    ensures var t := CommandLine(s, g, c, e).value;
            (t.main == s.main || t.main == Idle || t.main.Command?) && Framed(s, t)
  {
    hide CheckFails;
    match e
    case CommandChecks =>
    case CommandAwaits =>
    case CommandSpawns(_) =>
    case CommandEnters =>
    case CommandPolls =>
    case CommandLeavesLoop(_) =>
    case CleanupStarts =>
    case CleanupKills(_) =>
    case CleanupEnds =>
    case CommandDecides =>
    case CommandReturns =>
    case _ =>
  }

  lemma ForegroundKeepsLock(s: State, e: Event)
    requires Inv(s) && Foreground(s, e).Some?
    ensures LockInv(Foreground(s, e).value)
  {
    hide Foreground;
    ForegroundFrame(s, e);
  }

  lemma ForegroundKeepsUpdate(s: State, e: Event)
    requires Inv(s) && Foreground(s, e).Some?
    ensures UpdateInv(Foreground(s, e).value)
  {
    hide Foreground;
    ForegroundFrame(s, e);
  }

  lemma ForegroundKeepsCommand(s: State, e: Event)
    requires Inv(s) && Foreground(s, e).Some?
    ensures CommandInv(Foreground(s, e).value)
  {
    hide CommandLine, LockInv, CloseInv;
    if s.main.Command? && !e.CommandStarts? {
      CommandLineKeepsCommand(s, s.main.grype, s.main.command, e);
    }
  }

  lemma CommandLineKeepsCommand(s: State, g: bool, c: CommandStage, e: Event)
    requires Inv(s) && s.main == Command(g, c) && CommandLine(s, g, c, e).Some?
    ensures CommandInv(CommandLine(s, g, c, e).value)
  {
    hide LockInv, CloseInv;
  }

  lemma ForegroundKeepsClose(s: State, e: Event)
    requires Inv(s) && Foreground(s, e).Some?
    ensures CloseInv(Foreground(s, e).value)
  {
    hide Foreground;
    ForegroundFrame(s, e);
  }

  lemma ShutKeepsInv(s: State, e: Event)
    requires Inv(s) && Shut(s, e).Some?
    ensures Inv(Shut(s, e).value)
  {
    hide LockInv, UpdateInv, CommandInv, CloseInv, Shut;
    ShutKeepsLock(s, e);
    ShutKeepsUpdate(s, e);
    ShutKeepsCommand(s, e);
    ShutKeepsClose(s, e);
  }

  lemma ShutKeepsLock(s: State, e: Event)
    requires Inv(s) && Shut(s, e).Some?
    ensures LockInv(Shut(s, e).value)
  {
  }

  lemma ShutKeepsUpdate(s: State, e: Event)
    requires Inv(s) && Shut(s, e).Some?
    ensures UpdateInv(Shut(s, e).value)
  {
  }

  lemma ShutKeepsCommand(s: State, e: Event)
    requires Inv(s) && Shut(s, e).Some?
    ensures CommandInv(Shut(s, e).value)
  {
  }

  lemma ShutKeepsClose(s: State, e: Event)
    requires Inv(s) && Shut(s, e).Some?
    ensures CloseInv(Shut(s, e).value)
  {
  }

  lemma {:induction false} ReachableInv(events: seq<Event>)
    requires Run(events).Some?
    ensures Inv(Run(events).value)
  {
    if events != [] {
      ReachableInv(events[..|events| - 1]);
      StepKeepsInv(Run(events[..|events| - 1]).value, events[|events| - 1]);
    }
  }

  // ----- Runs -----

  lemma {:induction false} RunPrefix(events: seq<Event>, n: nat)
    requires Run(events).Some? && n <= |events|
    ensures Run(events[..n]).Some?
  {
    if n < |events| {
      var before := events[..|events| - 1];
      RunPrefix(before, n);
      assert before[..n] == events[..n];
    } else {
      assert events[..n] == events;
    }
  }

  lemma RunStep(events: seq<Event>, n: nat)
    requires Run(events).Some? && n < |events|
    ensures Run(events[..n]).Some? && Run(events[..n + 1]).Some?
    ensures Run(events[..n + 1]) == Step(Run(events[..n]).value, events[n])
  {
    hide Step;
    RunPrefix(events, n);
    RunPrefix(events, n + 1);
    assert events[..n + 1][..n] == events[..n];
  }

  predicate StartsStop(e: Event) {
    e.WorkerStartsStop? || e.MainStartsStop?
  }

  predicate CompletesStop(e: Event) {
    e.WorkerCompletesStop? || e.MainCompletesStop?
  }

  lemma WorkStops(s: State, e: Event)
    requires Inv(s) && Work(s, e).Some?
    ensures s.stopped ==> Work(s, e).value.stopped
    ensures !e.MainStartsStop? && !e.MainCompletesStop?
    ensures e.WorkerStartsStop? ==> !s.stopped && s.lock == HeldByWorker
    ensures e.WorkerCompletesStop? ==> Work(s, e).value.stopped
  {
  }

  lemma ShutStops(s: State, e: Event)
    requires Inv(s) && Shut(s, e).Some?
    ensures s.stopped ==> Shut(s, e).value.stopped
    ensures !e.WorkerStartsStop? && !e.WorkerCompletesStop?
    ensures e.MainStartsStop? ==> !s.stopped && s.lock == HeldByMain
    ensures e.MainCompletesStop? ==> Shut(s, e).value.stopped
  {
  }

  lemma ConstructStopsNothing(s: State, e: Event)
    requires Construct(s, e).Some?
    ensures Construct(s, e).value.stopped == s.stopped && !StartsStop(e) && !CompletesStop(e)
  {
  }

  lemma ForegroundStopsNothing(s: State, e: Event)
    requires Foreground(s, e).Some?
    ensures Foreground(s, e).value.stopped == s.stopped && !StartsStop(e) && !CompletesStop(e)
  {
    ForegroundFrame(s, e);
  }

  lemma SignalStopsNothing(s: State, signal: Signal)
    ensures Cancel(s, signal).stopped == s.stopped
  {
  }

  lemma StopSteps(s: State, e: Event)
    requires Inv(s) && Step(s, e).Some?
    ensures s.stopped ==> Step(s, e).value.stopped
    ensures StartsStop(e) ==> !s.stopped && s.lock != Free
    ensures CompletesStop(e) ==> Step(s, e).value.stopped
  {
    hide Construct, Work, Foreground, Shut, Cancel, Inv;
    if e.SignalArrives? {
      SignalStopsNothing(s, e.signal);
    } else if Construct(s, e).Some? {
      ConstructStopsNothing(s, e);
    } else if Work(s, e).Some? {
      WorkStops(s, e);
    } else if Foreground(s, e).Some? {
      ForegroundStopsNothing(s, e);
    } else {
      ShutStops(s, e);
    }
  }

  lemma {:induction false} StoppedStays(events: seq<Event>, n: nat, m: nat)
    requires Run(events).Some? && n <= m <= |events|
    ensures Run(events[..n]).Some? && Run(events[..m]).Some?
    ensures Run(events[..n]).value.stopped ==> Run(events[..m]).value.stopped
    decreases m - n
  {
    hide Step, Inv;
    RunPrefix(events, n);
    RunPrefix(events, m);
    if n < m {
      RunStep(events, n);
      ReachableInv(events[..n]);
      StopSteps(Run(events[..n]).value, events[n]);
      StoppedStays(events, n + 1, m);
    }
  }

  /** Terminating the updater's group never starts again once it has completed. */
  lemma StopNeverRestarts(events: seq<Event>, i: nat, j: nat)
    requires Run(events).Some? && i < j < |events| && CompletesStop(events[i])
    ensures !StartsStop(events[j])
  {
    hide Step, Inv, StartsStop, CompletesStop;
    RunStep(events, i);
    ReachableInv(events[..i]);
    StopSteps(Run(events[..i]).value, events[i]);
    StoppedStays(events, i + 1, j);
    RunStep(events, j);
    ReachableInv(events[..j]);
    StopSteps(Run(events[..j]).value, events[j]);
  }

  /** Worker and main are never both stopping the group. */
  lemma OneStopAtATime(events: seq<Event>)
    requires Run(events).Some?
    ensures var s := Run(events).value;
            !(s.worker.Stopping? && s.main.Closing? && s.main.close.Killing?)
  {
    ReachableInv(events);
  }

  lemma SpawnStep(s: State, ok: bool)
    requires Inv(s) && Step(s, CommandSpawns(ok)).Some?
    ensures s.main.Command? && (s.main.grype ==> s.updater == Exited(true) && s.stopped && s.worker == Done(true))
  {
  }

  /** A foreground `grype` starts only after the updater exited zero and its group was stopped. */
  lemma GrypeStartsAfterUpdate(events: seq<Event>, i: nat, ok: bool)
    requires Run(events).Some? && i < |events| && events[i] == CommandSpawns(ok)
    ensures Run(events[..i]).Some?
    ensures var s := Run(events[..i]).value;
            s.main.Command? && (s.main.grype ==> s.updater == Exited(true) && s.stopped && s.worker == Done(true))
  {
    hide Step, Inv;
    RunStep(events, i);
    ReachableInv(events[..i]);
    SpawnStep(Run(events[..i]).value, ok);
  }

  /** A handled signal has arrived since the last command started. */
  predicate SignalSinceStart(events: seq<Event>) {
    events != [] &&
    var last := events[|events| - 1];
    last.SignalArrives? || (!last.CommandStarts? && SignalSinceStart(events[..|events| - 1]))
  }

  lemma CommandSignal(s: State, signal: Signal)
    requires Cancel(s, signal).main.Command?
    ensures s.main.Command? && Cancel(s, signal).cancelled.Some?
  {
  }

  lemma CommandForeground(s: State, e: Event)
    requires Foreground(s, e).Some? && Foreground(s, e).value.main.Command? && !e.CommandStarts?
    ensures s.main.Command? && Foreground(s, e).value.cancelled == s.cancelled
  {
  }

  lemma CommandConstruct(s: State, e: Event)
    requires Construct(s, e).Some?
    ensures !Construct(s, e).value.main.Command? && !e.SignalArrives? && !e.CommandStarts?
  {
  }

  lemma CommandWork(s: State, e: Event)
    requires Work(s, e).Some?
    ensures Work(s, e).value.main == s.main && Work(s, e).value.cancelled == s.cancelled
    ensures !e.SignalArrives? && !e.CommandStarts?
  {
  }

  lemma CommandShut(s: State, e: Event)
    requires Shut(s, e).Some?
    ensures !Shut(s, e).value.main.Command? && !e.SignalArrives?
  {
  }

  lemma CommandSteps(s: State, e: Event)
    requires Step(s, e).Some? && Step(s, e).value.main.Command? && !e.CommandStarts?
    ensures s.main.Command?
    ensures e.SignalArrives? ==> Step(s, e).value.cancelled.Some?
    ensures s.cancelled.Some? ==> Step(s, e).value.cancelled.Some?
  {
    hide Construct, Work, Foreground, Shut, Cancel;
    if e.SignalArrives? {
      CommandSignal(s, e.signal);
    } else if Construct(s, e).Some? {
      CommandConstruct(s, e);
    } else if Work(s, e).Some? {
      CommandWork(s, e);
    } else if Foreground(s, e).Some? {
      CommandForeground(s, e);
    } else {
      CommandShut(s, e);
    }
  }

  lemma {:induction false} SignalIsRemembered(events: seq<Event>)
    requires Run(events).Some? && Run(events).value.main.Command? && SignalSinceStart(events)
    ensures Run(events).value.cancelled.Some?
  {
    hide Step, Inv;
    var before, last := events[..|events| - 1], events[|events| - 1];
    CommandSteps(Run(before).value, last);
    if !last.SignalArrives? {
      SignalIsRemembered(before);
    }
  }

  lemma ReturnStep(s: State)
    requires Inv(s) && Step(s, CommandReturns).Some?
    ensures s.main.Command? && s.cancelled.None?
  {
  }

  /** A command during which a signal arrived never returns normally. */
  lemma InterruptedCommandsRaise(events: seq<Event>)
    requires Run(events + [CommandReturns]).Some?
    ensures !SignalSinceStart(events)
  {
    hide Step, Inv;
    assert (events + [CommandReturns])[..|events|] == events;
    ReachableInv(events);
    ReturnStep(Run(events).value);
    if SignalSinceStart(events) {
      SignalIsRemembered(events);
    }
  }

  lemma CloseReturnStep(s: State)
    requires Inv(s) && Step(s, CloseReturns).Some?
    ensures s.closed && Finished(s.worker) && s.recorded == {} && (!Unfinished(s.main) ==> s.installed == {})
  {
  }

  /** After a normal `close` the worker is joined and no recorded handler is left installed. */
  lemma CloseJoinsAndRestores(events: seq<Event>)
    requires Run(events + [CloseReturns]).Some?
    ensures Run(events).Some?
    ensures var s := Run(events).value;
            s.closed && Finished(s.worker) && s.recorded == {} && (!Unfinished(s.main) ==> s.installed == {})
  {
    hide Step, Inv, Finished, Unfinished;
    assert (events + [CloseReturns])[..|events|] == events;
    ReachableInv(events);
    CloseReturnStep(Run(events).value);
  }

  // ----- Which handlers a close restores -----

  /** A handler is installed and not yet recorded. */
  predicate Window(m: Main) {
    m == Constructing(InterruptInstalled) || m == Constructing(TerminateInstalled)
  }

  /** Some signal arrived between installing a handler and recording it. */
  predicate Hit(events: seq<Event>) {
    events != []
    && var before, last := events[..|events| - 1], events[|events| - 1];
       Hit(before) || (last.SignalArrives? && Run(before).Some? && Window(Run(before).value.main))
  }

  /** Outside the window all handlers are recorded; after a hit never again all of them. */
  predicate HandlerInv(s: State, hit: bool) {
    && (s.main.Constructing? ==> s.cancelled.None?)
    && if hit then s.recorded < s.installed && !s.main.Constructing? && Unfinished(s.main)
       else s.installed == s.recorded || Window(s.main)
  }

  lemma ConstructKeepsHandlers(s: State, e: Event, hit: bool)
    requires CloseInv(s) && HandlerInv(s, hit) && Construct(s, e).Some?
    ensures HandlerInv(Construct(s, e).value, hit)
  {
  }

  lemma WorkKeepsHandlers(s: State, e: Event, hit: bool)
    requires HandlerInv(s, hit) && Work(s, e).Some?
    ensures HandlerInv(Work(s, e).value, hit)
  {
  }

  lemma ForegroundKeepsHandlers(s: State, e: Event, hit: bool)
    requires HandlerInv(s, hit) && Foreground(s, e).Some?
    ensures HandlerInv(Foreground(s, e).value, hit)
  {
    hide Foreground;
    ForegroundFrame(s, e);
  }

  lemma ShutKeepsHandlers(s: State, e: Event, hit: bool)
    requires HandlerInv(s, hit) && Shut(s, e).Some?
    ensures HandlerInv(Shut(s, e).value, hit)
  {
    if e.CloseRestores? && hit {
      var x :| x in s.installed && x !in s.recorded;
      assert x in s.installed - {e.signal} && x !in s.recorded - {e.signal};
    }
  }

  lemma SignalKeepsHandlers(s: State, signal: Signal, hit: bool)
    requires Inv(s) && HandlerInv(s, hit) && signal in s.installed
    ensures HandlerInv(Cancel(s, signal), hit || Window(s.main))
  {
  }

  lemma StepKeepsHandlers(s: State, e: Event, hit: bool)
    requires Inv(s) && HandlerInv(s, hit) && Step(s, e).Some?
    ensures HandlerInv(Step(s, e).value, hit || (e.SignalArrives? && Window(s.main)))
  {
    hide LockInv, UpdateInv, CommandInv, CloseInv, HandlerInv, Construct, Work, Foreground, Shut, Cancel, Window;
    if e.SignalArrives? {
      SignalKeepsHandlers(s, e.signal, hit);
    } else if Construct(s, e).Some? {
      ConstructKeepsHandlers(s, e, hit);
    } else if Work(s, e).Some? {
      WorkKeepsHandlers(s, e, hit);
    } else if Foreground(s, e).Some? {
      ForegroundKeepsHandlers(s, e, hit);
    } else {
      ShutKeepsHandlers(s, e, hit);
    }
  }

  lemma {:induction false} ReachableHandlers(events: seq<Event>)
    requires Run(events).Some?
    ensures HandlerInv(Run(events).value, Hit(events))
  {
    hide Inv, Step, Window;
    if events == [] {
      StartHandlers();
    } else {
      hide HandlerInv;
      var before := events[..|events| - 1];
      ReachableHandlers(before);
      ReachableInv(before);
      StepKeepsHandlers(Run(before).value, events[|events| - 1], Hit(before));
    }
  }

  lemma StartHandlers()
    ensures HandlerInv(START, false)
  {
  }

  /**
   * A normal `close` leaves all handlers restored exactly when no signal arrived between
   * installing a handler and recording it.
   */
  lemma HandlersRestoredExactly(events: seq<Event>)
    requires Run(events + [CloseReturns]).Some?
    ensures Run(events).Some? && (Run(events).value.installed == {} <==> !Hit(events))
  {
    hide Step, Inv, Finished, Hit;
    assert (events + [CloseReturns])[..|events|] == events;
    ReachableInv(events);
    ReachableHandlers(events);
    CloseReturnStep(Run(events).value);
    CloseReturnsClosing(Run(events).value);
  }

  lemma CloseReturnsClosing(s: State)
    requires Step(s, CloseReturns).Some?
    ensures s.main.Closing?
  {
  }

  // ----- What a close does to the updater -----

  /** Some signal arrived after the updater was started and before the object knew it. */
  predicate ForkHit(events: seq<Event>) {
    events != []
    && var before, last := events[..|events| - 1], events[|events| - 1];
       ForkHit(before)
       || (last.SignalArrives? && Run(before).Some? && Run(before).value.main == Constructing(Forked))
  }

  /** A close failed to stop the group, and nothing else completed that. */
  predicate StopFailed(events: seq<Event>) {
    MainFailsStop in events && forall i :: 0 <= i < |events| ==> !CompletesStop(events[i])
  }

  predicate Stopped(s: State) {
    s.stopped || s.updater == Absent
  }

  /** The object knows every updater but one whose construction was hit, and forgets none. */
  predicate KnownInv(s: State, hit: bool) {
    && (s.main.Constructing? ==> s.cancelled.None?)
    && if hit then !s.stored && s.updater != Absent && !s.main.Constructing? && Unfinished(s.main)
       else (s.stored <==> s.updater != Absent) || s.main == Constructing(Forked)
  }

  /** Once closed, a known updater is stopped, unless that is under way or has failed. */
  predicate StopInv(s: State, failed: bool) {
    && (failed ==> s.stored)
    && (s.closed && !(s.main.Closing? && (s.main.close.Locking? || s.main.close.Deciding? || s.main.close.Killing?)) ==>
          s.stopped || !s.stored || failed)
  }

  predicate UpdaterInv(s: State, hit: bool, failed: bool) {
    KnownInv(s, hit) && StopInv(s, failed)
  }

  lemma ConstructKeepsUpdater(s: State, e: Event, hit: bool, failed: bool)
    requires UpdateInv(s) && CloseInv(s) && UpdaterInv(s, hit, failed) && Construct(s, e).Some?
    ensures UpdaterInv(Construct(s, e).value, hit, failed)
  {
  }

  lemma WorkKeepsUpdater(s: State, e: Event, hit: bool, failed: bool)
    requires UpdateInv(s) && UpdaterInv(s, hit, failed) && Work(s, e).Some?
    ensures UpdaterInv(Work(s, e).value, hit, failed)
  {
  }

  lemma ForegroundKeepsUpdater(s: State, e: Event, hit: bool, failed: bool)
    requires UpdaterInv(s, hit, failed) && Foreground(s, e).Some?
    ensures UpdaterInv(Foreground(s, e).value, hit, failed)
  {
    hide Foreground;
    ForegroundFrame(s, e);
  }

  lemma ShutKeepsUpdater(s: State, e: Event, hit: bool, failed: bool)
    requires LockInv(s) && UpdateInv(s) && CloseInv(s) && UpdaterInv(s, hit, failed) && Shut(s, e).Some?
    ensures UpdaterInv(Shut(s, e).value, hit, failed || e == MainFailsStop)
  {
  }

  lemma SignalKeepsUpdater(s: State, signal: Signal, hit: bool, failed: bool)
    requires Inv(s) && UpdaterInv(s, hit, failed)
    ensures UpdaterInv(Cancel(s, signal), hit || s.main == Constructing(Forked), failed)
  {
  }

  lemma OnlyShutFailsStop(s: State, e: Event)
    requires Construct(s, e).Some? || Work(s, e).Some? || Foreground(s, e).Some? || e.SignalArrives?
    ensures e != MainFailsStop
  {
  }

  lemma StepKeepsUpdater(s: State, e: Event, hit: bool, failed: bool)
    requires Inv(s) && UpdaterInv(s, hit, failed) && Step(s, e).Some?
    ensures UpdaterInv(Step(s, e).value, hit || (e.SignalArrives? && s.main == Constructing(Forked)),
                       failed || e == MainFailsStop)
  {
    hide LockInv, UpdateInv, CommandInv, CloseInv, UpdaterInv, Construct, Work, Foreground, Shut, Cancel;
    if Construct(s, e).Some? || Work(s, e).Some? || Foreground(s, e).Some? || e.SignalArrives? {
      OnlyShutFailsStop(s, e);
    }
    if e.SignalArrives? {
      SignalKeepsUpdater(s, e.signal, hit, failed);
    } else if Construct(s, e).Some? {
      ConstructKeepsUpdater(s, e, hit, failed);
    } else if Work(s, e).Some? {
      WorkKeepsUpdater(s, e, hit, failed);
    } else if Foreground(s, e).Some? {
      ForegroundKeepsUpdater(s, e, hit, failed);
    } else {
      ShutKeepsUpdater(s, e, hit, failed);
    }
  }

  lemma {:induction false} ReachableUpdater(events: seq<Event>)
    requires Run(events).Some?
    ensures UpdaterInv(Run(events).value, ForkHit(events), MainFailsStop in events)
  {
    hide Inv, Step;
    if events == [] {
      StartUpdater();
    } else {
      hide UpdaterInv;
      var before, last := events[..|events| - 1], events[|events| - 1];
      assert events == before + [last];
      ReachableUpdater(before);
      ReachableInv(before);
      StepKeepsUpdater(Run(before).value, last, ForkHit(before), MainFailsStop in before);
    }
  }

  lemma StartUpdater()
    ensures UpdaterInv(START, false, false)
  {
  }

  lemma StopSets(s: State, e: Event)
    requires Step(s, e).Some?
    ensures Step(s, e).value.stopped <==> s.stopped || CompletesStop(e)
  {
    hide Construct, Work, Foreground, Shut, Cancel;
    if e.SignalArrives? {
      SignalStopsNothing(s, e.signal);
    } else if Construct(s, e).Some? {
      ConstructStopsNothing(s, e);
    } else if Work(s, e).Some? {
      WorkSets(s, e);
    } else if Foreground(s, e).Some? {
      ForegroundStopsNothing(s, e);
    } else {
      ShutSets(s, e);
    }
  }

  lemma WorkSets(s: State, e: Event)
    requires Work(s, e).Some?
    ensures Work(s, e).value.stopped <==> s.stopped || CompletesStop(e)
  {
  }

  lemma ShutSets(s: State, e: Event)
    requires Shut(s, e).Some? && Work(s, e).None?
    ensures Shut(s, e).value.stopped <==> s.stopped || CompletesStop(e)
  {
  }

  lemma {:induction false} StoppedMeans(events: seq<Event>)
    requires Run(events).Some?
    ensures Run(events).value.stopped <==> exists i :: 0 <= i < |events| && CompletesStop(events[i])
  {
    hide Step, CompletesStop;
    if events != [] {
      var before, last := events[..|events| - 1], events[|events| - 1];
      StoppedMeans(before);
      StopSets(Run(before).value, last);
      assert forall i :: 0 <= i < |before| ==> before[i] == events[i];
    }
  }

  /**
   * After a normal `close` the updater never was or its group is stopped, exactly unless a
   * signal arrived between starting it and storing it, or an earlier close failed to stop it
   * and nothing did later.
   */
  lemma CloseStopsUpdater(events: seq<Event>)
    requires Run(events + [CloseReturns]).Some?
    ensures Run(events).Some? && (Stopped(Run(events).value) <==> !ForkHit(events) && !StopFailed(events))
  {
    hide Step, Inv, ForkHit, UpdaterInv, CompletesStop;
    assert (events + [CloseReturns])[..|events|] == events;
    ReachableInv(events);
    ReachableUpdater(events);
    StoppedMeans(events);
    CloseReturnStops(Run(events).value, ForkHit(events), MainFailsStop in events);
  }

  lemma CloseReturnStops(s: State, hit: bool, failed: bool)
    requires Inv(s) && UpdaterInv(s, hit, failed) && Step(s, CloseReturns).Some?
    ensures Stopped(s) <==> !hit && (failed ==> s.stopped)
  {
    hide LockInv, CommandInv;
  }

  // ----- What a command does to its child -----

  /** The step after which a command will end with its child's group not stopped. */
  predicate Loses(s: State, e: Event) {
    || e == CleanupKills(false)
    || (e.SignalArrives? && s.cancelled.None? && s.main.Command?
        && (s.main.command.Started? || s.main.command.EnteringCleanup?))
  }

  /** The latest command took such a step. */
  predicate Lost(events: seq<Event>) {
    events != []
    && var before, last := events[..|events| - 1], events[|events| - 1];
       !last.CommandStarts? && (Lost(before) || (Run(before).Some? && Loses(Run(before).value, last)))
  }

  predicate ChildInv(s: State, lost: bool) {
    match s.main
    case Command(_, Checking) => !s.child && !lost
    case Command(_, AwaitingUpdate) => !s.child && !lost
    case Command(_, Spawning) => !s.child && !lost
    case Command(_, Started) => s.child && !lost
    case Command(_, Polling) => s.child && !lost
    case Command(_, EnteringCleanup(_)) => s.child && !lost
    case Command(_, Cleaning(_)) => s.child && !lost
    case Command(_, LeavingCleanup(raising)) => s.child == lost && (lost ==> raising)
    case Command(_, FinalCheck(raising)) => s.child == lost && (lost ==> raising)
    case Command(_, Returning) => !s.child && !lost
    case _ => s.child == lost
  }

  lemma ConstructKeepsChild(s: State, e: Event, lost: bool)
    requires ChildInv(s, lost) && Construct(s, e).Some?
    ensures ChildInv(Construct(s, e).value, lost) && !e.CommandStarts? && !Loses(s, e)
  {
  }

  lemma WorkKeepsChild(s: State, e: Event, lost: bool)
    requires ChildInv(s, lost) && Work(s, e).Some?
    ensures ChildInv(Work(s, e).value, lost) && !e.CommandStarts? && !Loses(s, e)
  {
  }

  lemma ForegroundKeepsChild(s: State, e: Event, lost: bool)
    requires ChildInv(s, lost) && Foreground(s, e).Some?
    ensures ChildInv(Foreground(s, e).value, !e.CommandStarts? && (lost || Loses(s, e)))
  {
  }

  lemma ShutKeepsChild(s: State, e: Event, lost: bool)
    requires ChildInv(s, lost) && Shut(s, e).Some? && Foreground(s, e).None?
    ensures ChildInv(Shut(s, e).value, !e.CommandStarts? && (lost || Loses(s, e)))
  {
  }

  /** After a close no handler is installed, so a signal that reaches a command cancels it. */
  lemma SignalKeepsChild(s: State, signal: Signal, lost: bool)
    requires CommandInv(s) && CloseInv(s) && ChildInv(s, lost) && signal in s.installed
    ensures ChildInv(Cancel(s, signal), lost || Loses(s, SignalArrives(signal)))
  {
  }

  lemma StepKeepsChild(s: State, e: Event, lost: bool)
    requires Inv(s) && ChildInv(s, lost) && Step(s, e).Some?
    ensures ChildInv(Step(s, e).value, !e.CommandStarts? && (lost || Loses(s, e)))
  {
    hide LockInv, UpdateInv, CommandInv, CloseInv, ChildInv, Construct, Work, Foreground, Shut, Cancel, Loses;
    if e.SignalArrives? {
      SignalKeepsChild(s, e.signal, lost);
    } else if Construct(s, e).Some? {
      ConstructKeepsChild(s, e, lost);
    } else if Work(s, e).Some? {
      WorkKeepsChild(s, e, lost);
    } else if Foreground(s, e).Some? {
      ForegroundKeepsChild(s, e, lost);
    } else {
      ShutKeepsChild(s, e, lost);
    }
  }

  lemma {:induction false} ReachableChild(events: seq<Event>)
    requires Run(events).Some?
    ensures ChildInv(Run(events).value, Lost(events))
  {
    hide Inv, Step, Loses;
    if events == [] {
      StartChild();
    } else {
      hide ChildInv;
      var before := events[..|events| - 1];
      ReachableChild(before);
      ReachableInv(before);
      StepKeepsChild(Run(before).value, events[|events| - 1], Lost(before));
    }
  }

  lemma StartChild()
    ensures ChildInv(START, false)
  {
  }

  /**
   * A command that has ended leaves its child's group unstopped exactly if stopping failed or
   * the first signal arrived right after the start of the child or right before the cleanup.
   */
  lemma CommandStopsChild(events: seq<Event>)
    requires Run(events).Some? && !Run(events).value.main.Command?
    ensures Run(events).value.child <==> Lost(events)
  {
    hide Step, Lost;
    ReachableChild(events);
  }

  /** A command that returns normally has stopped its child's group. */
  lemma ReturnedCommandStoppedChild(events: seq<Event>)
    requires Run(events + [CommandReturns]).Some?
    ensures Run(events).Some? && !Run(events).value.child
  {
    hide Step, Inv, Lost;
    assert (events + [CommandReturns])[..|events|] == events;
    ReachableInv(events);
    ReachableChild(events);
    ReturnsFrom(Run(events).value);
  }

  lemma ReturnsFrom(s: State)
    requires Step(s, CommandReturns).Some?
    ensures s.main.Command? && s.main.command.Returning?
  {
  }

  // ----- What a failed update or a handled signal does to a command -----

  /** The update has failed, or a signal was handled. */
  predicate Failed(s: State) {
    s.worker == Done(false) || s.cancelled == Some(Interrupt) || s.cancelled == Some(Terminate)
  }

  /** That was so when the latest command started. */
  predicate FailedAtStart(events: seq<Event>) {
    events != []
    && var before, last := events[..|events| - 1], events[|events| - 1];
       if last.CommandStarts? then Run(before).Some? && Failed(Run(before).value) else FailedAtStart(before)
  }

  /** A loop check that fails, a loop left by an exception, or a child that is not stopped. */
  predicate Breaks(e: Event, failed: bool) {
    (e.CommandPolls? && failed) || (e.CommandLeavesLoop? && (e.raising || failed)) || e == CleanupKills(false)
  }

  /** Since the latest command started, one of these has happened. */
  predicate Broken(events: seq<Event>) {
    events != []
    && var before, last := events[..|events| - 1], events[|events| - 1];
       !last.CommandStarts?
       && (Broken(before) || Breaks(last, Run(before).Some? && Failed(Run(before).value)))
  }

  predicate RaisingCleanup(c: CommandStage) {
    || (c.EnteringCleanup? && c.raising) || (c.Cleaning? && c.raising) || (c.LeavingCleanup? && c.raising)
    || (c.FinalCheck? && c.raising)
  }

  /** A command that failed at its start stays at its check; a broken one raises, and but for signals no other. */
  predicate FailedInv(s: State, start: bool, broken: bool) {
    && (start ==> Failed(s) && (s.main.Command? ==> s.main.command == Checking))
    && (broken ==> s.main.Command? ==> RaisingCleanup(s.main.command))
    && (s.main.Command? && RaisingCleanup(s.main.command) ==> broken || s.cancelled.Some?)
  }

  lemma FailureStays(s: State, e: Event)
    requires Inv(s) && Step(s, e).Some? && Failed(s)
    ensures Failed(Step(s, e).value)
  {
    hide Construct, Work, Foreground, Shut, Cancel, Failed, LockInv, UpdateInv, CommandInv, CloseInv;
    if e.SignalArrives? {
      SignalKeepsFailure(s, e.signal);
    } else if Construct(s, e).Some? {
      ConstructKeepsFailure(s, e);
    } else if Work(s, e).Some? {
      WorkKeepsFailure(s, e);
    } else if Foreground(s, e).Some? {
      ForegroundFrame(s, e);
      FramedFailure(s, Foreground(s, e).value);
    } else {
      ShutKeepsFailure(s, e);
    }
  }

  lemma SignalKeepsFailure(s: State, signal: Signal)
    requires Failed(s)
    ensures Failed(Cancel(s, signal))
  {
  }

  lemma ConstructKeepsFailure(s: State, e: Event)
    requires UpdateInv(s) && Construct(s, e).Some? && Failed(s)
    ensures Failed(Construct(s, e).value)
  {
  }

  lemma WorkKeepsFailure(s: State, e: Event)
    requires Work(s, e).Some? && Failed(s)
    ensures Failed(Work(s, e).value)
  {
  }

  lemma FramedFailure(s: State, t: State)
    requires Framed(s, t) && Failed(s)
    ensures Failed(t)
  {
  }

  lemma ShutKeepsFailure(s: State, e: Event)
    requires Shut(s, e).Some? && Failed(s)
    ensures Failed(Shut(s, e).value)
  {
  }

  lemma ConstructIsNoCommand(s: State, e: Event)
    requires Construct(s, e).Some?
    ensures !Construct(s, e).value.main.Command? && !e.CommandStarts? && !Breaks(e, Failed(s))
  {
    hide Failed;
  }

  lemma ConstructKeepsFailed(s: State, e: Event, start: bool, broken: bool)
    requires FailedInv(s, start, broken) && Construct(s, e).Some? && (start ==> Failed(Construct(s, e).value))
    ensures FailedInv(Construct(s, e).value, start, broken) && !e.CommandStarts? && !Breaks(e, Failed(s))
  {
    ConstructIsNoCommand(s, e);
    hide Failed, Construct, Breaks;
  }

  lemma WorkKeepsFailed(s: State, e: Event, start: bool, broken: bool)
    requires FailedInv(s, start, broken) && Work(s, e).Some? && (start ==> Failed(Work(s, e).value))
    ensures FailedInv(Work(s, e).value, start, broken) && !e.CommandStarts? && !Breaks(e, Failed(s))
  {
    hide Failed;
  }

  lemma ForegroundKeepsFailed(s: State, e: Event, start: bool, broken: bool)
    requires FailedInv(s, start, broken) && Foreground(s, e).Some?
    requires Failed(s) ==> Failed(Foreground(s, e).value)
    ensures FailedInv(Foreground(s, e).value, if e.CommandStarts? then Failed(s) else start,
                      !e.CommandStarts? && (broken || Breaks(e, Failed(s))))
  {
    hide Failed, CommandLine;
    if !e.CommandStarts? {
      CommandLineKeepsFailed(s, s.main.grype, s.main.command, e, start, broken);
    }
  }

  lemma CommandLineKeepsFailed(s: State, g: bool, c: CommandStage, e: Event, start: bool, broken: bool)
    requires FailedInv(s, start, broken) && s.main == Command(g, c) && CommandLine(s, g, c, e).Some?
    requires Failed(s) ==> Failed(CommandLine(s, g, c, e).value)
    ensures FailedInv(CommandLine(s, g, c, e).value, start, broken || Breaks(e, Failed(s)))
  {
    CheckMeans(s);
    hide Failed, CheckFails;
  }

  lemma CheckMeans(s: State)
    ensures CheckFails(s) <==> Failed(s)
  {
    assert s.cancelled.Some? ==> s.cancelled.value == Interrupt || s.cancelled.value == Terminate;
  }

  lemma ShutKeepsFailed(s: State, e: Event, start: bool, broken: bool)
    requires FailedInv(s, start, broken) && Shut(s, e).Some? && (start ==> Failed(Shut(s, e).value))
    ensures FailedInv(Shut(s, e).value, start, broken) && !e.CommandStarts? && !Breaks(e, Failed(s))
  {
    hide Failed;
  }

  lemma SignalKeepsFailed(s: State, signal: Signal, start: bool, broken: bool)
    requires FailedInv(s, start, broken) && (start ==> Failed(Cancel(s, signal)))
    ensures FailedInv(Cancel(s, signal), start, broken)
  {
    hide Failed;
  }

  lemma StepKeepsFailed(s: State, e: Event, start: bool, broken: bool)
    requires Inv(s) && FailedInv(s, start, broken) && Step(s, e).Some?
    ensures FailedInv(Step(s, e).value, if e.CommandStarts? then Failed(s) else start,
                      !e.CommandStarts? && (broken || Breaks(e, Failed(s))))
  {
    if Failed(s) {
      FailureStays(s, e);
    }
    FailedStart(s, start, broken);
    hide Construct, Work, Foreground, Shut, Cancel, Failed, LockInv, UpdateInv, CommandInv, CloseInv, FailedInv;
    if e.SignalArrives? {
      SignalKeepsFailed(s, e.signal, start, broken);
    } else if Construct(s, e).Some? {
      ConstructKeepsFailed(s, e, start, broken);
    } else if Work(s, e).Some? {
      WorkKeepsFailed(s, e, start, broken);
    } else if Foreground(s, e).Some? {
      ForegroundKeepsFailed(s, e, start, broken);
    } else {
      ShutKeepsFailed(s, e, start, broken);
    }
  }

  lemma FailedStart(s: State, start: bool, broken: bool)
    requires FailedInv(s, start, broken)
    ensures start ==> Failed(s)
  {
  }

  lemma {:induction false} ReachableFailed(events: seq<Event>)
    requires Run(events).Some?
    ensures FailedInv(Run(events).value, FailedAtStart(events), Broken(events))
  {
    hide Inv, Step, Failed;
    if events != [] {
      hide FailedInv;
      var before := events[..|events| - 1];
      ReachableFailed(before);
      ReachableInv(before);
      StepKeepsFailed(Run(before).value, events[|events| - 1], FailedAtStart(before), Broken(before));
    }
  }

  /** A command that starts after the update failed, or after a signal, never starts a child. */
  lemma FailedCommandSpawnsNothing(events: seq<Event>, ok: bool)
    requires Run(events + [CommandSpawns(ok)]).Some?
    ensures !FailedAtStart(events)
  {
    hide Step, FailedAtStart, Broken, Failed;
    RunAppend(events, CommandSpawns(ok));
    ReachableFailed(events);
    SpawnsFrom(Run(events).value, ok);
  }

  lemma SpawnsFrom(s: State, ok: bool)
    requires Step(s, CommandSpawns(ok)).Some?
    ensures s.main.Command? && s.main.command == Spawning
  {
  }

  /** A command that was broken never returns normally. */
  lemma BrokenCommandRaises(events: seq<Event>)
    requires Run(events + [CommandReturns]).Some?
    ensures !Broken(events)
  {
    hide Step, FailedAtStart, Broken, Failed;
    RunAppend(events, CommandReturns);
    ReachableFailed(events);
    ReturnsFrom(Run(events).value);
  }

  /** At its last check a command goes on to return exactly if it was not broken and no signal has arrived. */
  lemma CommandEndsExactly(events: seq<Event>)
    requires Run(events + [CommandDecides]).Some?
    ensures Run(events + [CommandDecides]).value.main == Command(Run(events).value.main.grype, Returning)
       <==> !Broken(events) && Run(events).value.cancelled.None?
  {
    hide Step, FailedAtStart, Broken, Failed;
    RunAppend(events, CommandDecides);
    ReachableFailed(events);
    DecidesFrom(Run(events).value);
  }

  lemma DecidesFrom(s: State)
    requires Step(s, CommandDecides).Some?
    ensures s.main.Command? && s.main.command.FinalCheck?
    ensures Step(s, CommandDecides).value.main == Command(s.main.grype, Returning)
       <==> !RaisingCleanup(s.main.command) && s.cancelled.None?
  {
  }

  lemma RunAppend(events: seq<Event>, e: Event)
    ensures Run(events + [e]) == if Run(events).None? then None else Step(Run(events).value, e)
  {
    hide Step;
    assert (events + [e])[..|events|] == events;
  }

  // ----- Runs in which `close` does not know what to undo -----

  /** The close of an interrupted constructor, up to restoring the handlers. */
  const CLOSING: seq<Event> := [CloseEnters, CloseMarks, CloseLocks, MainSkipsStop, CloseJoins, CloseReports(true)]

  /** A signal between installing a handler and recording it. */
  const UNRECORDED: seq<Event> := [InstallHandler, SignalArrives(Interrupt)]

  /** A signal between starting the updater and storing it. */
  const UNSTORED: seq<Event> :=
    [InstallHandler, RecordHandler, InstallHandler, RecordHandler, SpawnUpdater(true), SignalArrives(Interrupt)]

  const RESTORING: seq<Event> := [CloseRestores(Interrupt), CloseRestores(Terminate)]

  /** A constructor interrupted before it stored its updater, at some line of its `close`. */
  predicate AtLine(s: State, stage: CloseStage, lock: Lock, closed: bool) {
    && s.main == Closing(stage, true) && s.worker == Unsubmitted && !s.stored && !s.stopped
    && s.lock == lock && s.closed == closed
  }

  lemma CloseSteps(s: State, e: Event)
    requires s.main.Closing?
    requires e.CloseEnters? || e.CloseMarks? || e.CloseLocks? || e.MainSkipsStop? || e.CloseJoins?
             || e.CloseReports? || e.CloseRestores?
    ensures Step(s, e) == Shut(s, e)
  {
    hide Shut;
  }

  lemma EntersAndMarks(s: State)
    requires AtLine(s, Entering, Free, false)
    ensures Step(s, CloseEnters) == Some(s.(main := Closing(Marking, true)))
    ensures Step(s.(main := Closing(Marking, true)), CloseMarks)
         == Some(s.(main := Closing(Locking, true), closed := true))
  {
    hide Step;
    CloseSteps(s, CloseEnters);
    CloseSteps(s.(main := Closing(Marking, true)), CloseMarks);
  }

  lemma LocksAndSkips(s: State)
    requires AtLine(s, Locking, Free, true)
    ensures Step(s, CloseLocks) == Some(s.(main := Closing(Deciding, true), lock := HeldByMain))
    ensures Step(s.(main := Closing(Deciding, true), lock := HeldByMain), MainSkipsStop)
         == Some(s.(main := Closing(Joining(false), true)))
  {
    hide Step;
    CloseSteps(s, CloseLocks);
    CloseSteps(s.(main := Closing(Deciding, true), lock := HeldByMain), MainSkipsStop);
  }

  lemma JoinsAndReports(s: State)
    requires AtLine(s, Joining(false), Free, true)
    ensures Step(s, CloseJoins) == Some(s.(main := Closing(Reporting(false), true)))
    ensures Step(s.(main := Closing(Reporting(false), true)), CloseReports(true))
         == Some(s.(main := Closing(Restoring(false), true)))
  {
    hide Step;
    CloseSteps(s, CloseJoins);
    CloseSteps(s.(main := Closing(Reporting(false), true)), CloseReports(true));
  }

  lemma RunTwo(events: seq<Event>, d: Event, e: Event)
    requires Run(events).Some? && Step(Run(events).value, d).Some?
    ensures Run(events + [d, e]) == Step(Step(Run(events).value, d).value, e)
  {
    hide Step;
    RunAppend(events, d);
    RunAppend(events + [d], e);
    assert events + [d, e] == events + [d] + [e];
  }

  /** From there `close` skips the updater and gets as far as restoring the handlers. */
  lemma ClosingRun(events: seq<Event>)
    requires Run(events).Some? && AtLine(Run(events).value, Entering, Free, false)
    ensures Run(events + CLOSING) == Some(Run(events).value.(main := Closing(Restoring(false), true), closed := true))
  {
    hide Run, Step;
    var s := Run(events).value;
    var marked := s.(main := Closing(Locking, true), closed := true);
    var joining := marked.(main := Closing(Joining(false), true));
    EntersAndMarks(s);
    RunTwo(events, CloseEnters, CloseMarks);
    LocksAndSkips(marked);
    RunTwo(events + [CloseEnters, CloseMarks], CloseLocks, MainSkipsStop);
    JoinsAndReports(joining);
    RunTwo(events + [CloseEnters, CloseMarks] + [CloseLocks, MainSkipsStop], CloseJoins, CloseReports(true));
    assert events + CLOSING
        == events + [CloseEnters, CloseMarks] + [CloseLocks, MainSkipsStop] + [CloseJoins, CloseReports(true)];
  }

  lemma Installs(s: State)
    requires s.main == Constructing(NoHandlers) || s.main == Constructing(OneHandler)
    ensures var t := if s.main == Constructing(NoHandlers)
              then s.(main := Constructing(InterruptInstalled), installed := {Interrupt})
              else s.(main := Constructing(TerminateInstalled), installed := s.installed + {Terminate});
            var u := if s.main == Constructing(NoHandlers)
              then t.(main := Constructing(OneHandler), recorded := {Interrupt})
              else t.(main := Constructing(BothHandlers), recorded := s.recorded + {Terminate});
            Step(s, InstallHandler) == Some(t) && Step(t, RecordHandler) == Some(u)
  {
    hide Work, Foreground, Shut;
  }

  lemma InterruptsAt(s: State)
    requires s.main.Constructing? && s.cancelled.None? && !s.closed && !s.cleaning && Interrupt in s.installed
    ensures Step(s, SignalArrives(Interrupt)) == Some(s.(main := Closing(Entering, true), cancelled := Some(Interrupt)))
  {
  }

  lemma SpawnsAt(s: State)
    requires s.main == Constructing(BothHandlers)
    ensures Step(s, SpawnUpdater(true)) == Some(s.(main := Constructing(Forked), updater := Running))
  {
    hide Work, Foreground, Shut;
  }

  /** The states in which the two constructors are interrupted. */
  const UNRECORDED_STATE := START.(
    main := Closing(Entering, true), cancelled := Some(Interrupt), installed := {Interrupt})
  const UNSTORED_STATE := START.(
    main := Closing(Entering, true), updater := Running, cancelled := Some(Interrupt),
    installed := {Interrupt, Terminate}, recorded := {Interrupt, Terminate})

  lemma UnrecordedRun()
    ensures Run(UNRECORDED) == Some(UNRECORDED_STATE)
  {
    hide Step;
    assert Run([]) == Some(START);
    Installs(START);
    InterruptsAt(Step(START, InstallHandler).value);
    RunTwo([], InstallHandler, SignalArrives(Interrupt));
    assert [] + [InstallHandler, SignalArrives(Interrupt)] == UNRECORDED;
  }

  lemma UnstoredRun()
    ensures Run(UNSTORED) == Some(UNSTORED_STATE)
  {
    hide Step;
    assert Run([]) == Some(START);
    hide Run;
    var installs := [InstallHandler, RecordHandler];
    Installs(START);
    RunTwo([], InstallHandler, RecordHandler);
    assert [] + installs == installs;
    var one := Run(installs).value;
    Installs(one);
    RunTwo(installs, InstallHandler, RecordHandler);
    var both := Run(installs + installs).value;
    assert {Interrupt} + {Terminate} == {Interrupt, Terminate};
    SpawnsAt(both);
    InterruptsAt(Step(both, SpawnUpdater(true)).value);
    RunTwo(installs + installs, SpawnUpdater(true), SignalArrives(Interrupt));
    assert installs + installs + [SpawnUpdater(true), SignalArrives(Interrupt)] == UNSTORED;
  }

  lemma ReturnsAt(s: State)
    requires s.main == Closing(Restoring(false), true) && s.recorded == {}
    ensures Step(s, CloseReturns).Some?
  {
    hide Work;
  }

  lemma RestoresBoth(s: State)
    requires s.main == Closing(Restoring(false), true) && s.recorded == s.installed == {Interrupt, Terminate}
    ensures Step(s, CloseRestores(Interrupt)) == Some(s.(recorded := {Terminate}, installed := {Terminate}))
    ensures Step(s.(recorded := {Terminate}, installed := {Terminate}), CloseRestores(Terminate))
         == Some(s.(recorded := {}, installed := {}))
  {
    hide Step;
    assert {Interrupt, Terminate} - {Interrupt} == {Terminate} && {Terminate} - {Terminate} == {};
    CloseSteps(s, CloseRestores(Interrupt));
    CloseSteps(s.(recorded := {Terminate}, installed := {Terminate}), CloseRestores(Terminate));
  }

  /** A constructor interrupted before it recorded a handler leaves it installed: `close` cannot know it. */
  lemma InterruptedConstructionLeavesHandler()
    ensures Run(UNRECORDED + CLOSING + [CloseReturns]).Some?
    ensures Run(UNRECORDED + CLOSING).Some? && Run(UNRECORDED + CLOSING).value.installed == {Interrupt}
  {
    UnrecordedRun();
    ClosingRun(UNRECORDED);
    hide Run, Step;
    ReturnsAt(Run(UNRECORDED + CLOSING).value);
    RunAppend(UNRECORDED + CLOSING, CloseReturns);
  }

  /** One interrupted before it stored its updater closes normally, and leaves the updater running. */
  lemma InterruptedConstructionLeavesUpdater()
    ensures Run(UNSTORED + CLOSING + RESTORING + [CloseReturns]).Some?
    ensures var s := Run(UNSTORED + CLOSING + RESTORING);
            s.Some? && s.value.updater == Running && !s.value.stopped && s.value.worker == Unsubmitted
  {
    UnstoredRun();
    ClosingRun(UNSTORED);
    hide Run, Step;
    var s := Run(UNSTORED + CLOSING).value;
    RestoresBoth(s);
    RunTwo(UNSTORED + CLOSING, CloseRestores(Interrupt), CloseRestores(Terminate));
    ReturnsAt(Run(UNSTORED + CLOSING + RESTORING).value);
    RunAppend(UNSTORED + CLOSING + RESTORING, CloseReturns);
  }
}
