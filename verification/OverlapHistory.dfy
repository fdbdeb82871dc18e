/** What runs of the database overlap of scripts/bluebuild/security-scan.py say of the events before. */
module OverlapHistory {
  import opened Wrappers
  import opened DatabaseOverlap

  // ----- When a construction succeeds -----

  /** Nothing failed so far and no signal arrived; past a stage, what that stage does was done. */
  ghost predicate Smooth(events: seq<Event>, stage: ConstructStage) {
    && SpawnUpdater(false) !in events && Submit(false) !in events && (forall n :: SignalArrives(n) !in events)
    && (stage == Submitted ==> SpawnUpdater(true) in events && StoreUpdater in events && Submit(true) in events)
    && (stage == Spawned ==> SpawnUpdater(true) in events && StoreUpdater in events)
    && (stage == Forked ==> SpawnUpdater(true) in events)
  }

  ghost predicate Undisturbed(s: State) {
    s.main.Constructing? && s.cancelled.None? && !s.closed && !s.cleaning
  }

  /** Which step leads to which stage of a construction. */
  ghost predicate Leads(s: State, e: Event, t: State) {
    && Undisturbed(s) && Undisturbed(t)
    && e != SpawnUpdater(false) && e != Submit(false) && !e.SignalArrives?
    && var was, now := s.main.construct, t.main.construct;
       && (now == Submitted ==> was == Submitted || (was == Spawned && e == Submit(true)))
       && (now == Spawned ==> was == Spawned || (was == Forked && e == StoreUpdater))
       && (now == Forked ==> was == Forked || e == SpawnUpdater(true))
  }

  lemma ConstructLeads(s: State, e: Event)
    requires s.main.Constructing? ==> Undisturbed(s)
    requires Construct(s, e).Some? && Construct(s, e).value.main.Constructing?
    ensures Leads(s, e, Construct(s, e).value)
  {
  }

  lemma WorkLeads(s: State, e: Event)
    requires Undisturbed(s) && Work(s, e).Some?
    ensures Leads(s, e, Work(s, e).value)
  {
  }

  lemma WorkKeepsMain(s: State, e: Event)
    requires Work(s, e).Some?
    ensures Work(s, e).value.main == s.main
  {
  }

  lemma SignalInterrupts(s: State, signal: Signal)
    requires s.main.Constructing? ==> Undisturbed(s)
    ensures !Cancel(s, signal).main.Constructing?
  {
  }

  lemma OthersDoNotConstruct(s: State, e: Event)
    ensures Foreground(s, e).Some? ==> !Foreground(s, e).value.main.Constructing?
    ensures Shut(s, e).Some? ==> !Shut(s, e).value.main.Constructing?
  {
  }

  lemma StepInConstruction(s: State, e: Event)
    requires s.main.Constructing? ==> Undisturbed(s)
    requires Step(s, e).Some? && Step(s, e).value.main.Constructing?
    ensures Leads(s, e, Step(s, e).value)
  {
    hide Construct, Work, Foreground, Shut, Cancel, Undisturbed, Leads;
    OthersDoNotConstruct(s, e);
    if e.SignalArrives? {
      SignalInterrupts(s, e.signal);
    } else if Construct(s, e).Some? {
      ConstructLeads(s, e);
    } else if Work(s, e).Some? {
      WorkKeepsMain(s, e);
      WorkLeads(s, e);
    }
  }

  lemma {:induction false} ConstructingIsSmooth(events: seq<Event>)
    requires Run(events).Some? && Run(events).value.main.Constructing?
    ensures Smooth(events, Run(events).value.main.construct) && Undisturbed(Run(events).value)
  {
    hide Step;
    if events != [] {
      var before, e := events[..|events| - 1], events[|events| - 1];
      var s := Run(before).value;
      assert events == before + [e];
      if s.main.Constructing? {
        ConstructingIsSmooth(before);
      }
      StepInConstruction(s, e);
    }
  }

  /** The constructor returns only if starting and submitting succeeded and no signal has arrived. */
  lemma ReturnedConstructionIsWhole(events: seq<Event>)
    requires Run(events + [ConstructReturns]).Some?
    ensures SpawnUpdater(true) in events && StoreUpdater in events && Submit(true) in events
    ensures SpawnUpdater(false) !in events && Submit(false) !in events && forall n :: SignalArrives(n) !in events
  {
    hide Step, Run;
    RunAppend(events, ConstructReturns);
    ReturnsFromSubmitted(Run(events).value);
    ConstructingIsSmooth(events);
  }

  lemma ReturnsFromSubmitted(s: State)
    requires Step(s, ConstructReturns).Some?
    ensures s.main == Constructing(Submitted)
  {
  }

  // ----- Whose object it is, whose exit it was, and how a close ends -----

  /** In the latest close that got to work, stopping or reporting failed. */
  predicate Troubled(events: seq<Event>) {
    events != []
    && var before, last := events[..|events| - 1], events[|events| - 1];
       !last.CloseMarks? && (Troubled(before) || last.MainFailsStop? || last == CloseReports(false))
  }

  /** The constructor has returned exactly when the caller has, or had, the object. */
  predicate Owned(main: Main, returned: bool) {
    match main
    case Constructing(_) => !returned
    case Gone => !returned
    case Closing(_, constructing) => constructing <==> !returned
    case _ => returned
  }

  predicate Raises(main: Main, troubled: bool) {
    main.Closing? ==>
      match main.close
      case Entering => true
      case Marking => true
      case Joining(raising) => raising <==> troubled
      case Reporting(raising) => raising <==> troubled
      case Restoring(raising) => raising <==> troubled
      case _ => !troubled
  }

  predicate Past(s: State, returned: bool, zero: bool, troubled: bool) {
    Owned(s.main, returned) && Raises(s.main, troubled) && (s.updater == Exited(true) ==> zero)
  }

  predicate PastStep(s: State, e: Event, t: State, returned: bool, zero: bool, troubled: bool) {
    Past(t, returned || e == ConstructReturns, zero || e == UpdaterExits(true),
         !e.CloseMarks? && (troubled || e.MainFailsStop? || e == CloseReports(false)))
  }

  lemma SignalKeepsPast(s: State, e: Event, returned: bool, zero: bool, troubled: bool)
    requires Past(s, returned, zero, troubled) && e.SignalArrives?
    ensures PastStep(s, e, Cancel(s, e.signal), returned, zero, troubled)
  {
  }

  lemma ConstructReaches(s: State, e: Event)
    requires Construct(s, e).Some?
    ensures var t := Construct(s, e).value;
            && s.main.Constructing?
            && (if e == ConstructReturns then t.main == Idle
                else t.main.Constructing? || t.main == Closing(Entering, true))
  {
  }

  lemma ConstructStartsUpdater(s: State, e: Event)
    requires Construct(s, e).Some?
    ensures Construct(s, e).value.updater == s.updater || Construct(s, e).value.updater == Running
  {
  }

  lemma ConstructKeepsPast(s: State, e: Event, returned: bool, zero: bool, troubled: bool)
    requires Past(s, returned, zero, troubled) && Construct(s, e).Some?
    ensures PastStep(s, e, Construct(s, e).value, returned, zero, troubled)
  {
    ConstructReaches(s, e);
    ConstructStartsUpdater(s, e);
    hide Construct;
  }

  lemma WorkKeepsPast(s: State, e: Event, returned: bool, zero: bool, troubled: bool)
    requires Past(s, returned, zero, troubled) && Work(s, e).Some?
    ensures PastStep(s, e, Work(s, e).value, returned, zero, troubled)
  {
  }

  lemma ForegroundKeepsPast(s: State, e: Event, returned: bool, zero: bool, troubled: bool)
    requires Past(s, returned, zero, troubled) && Foreground(s, e).Some?
    ensures PastStep(s, e, Foreground(s, e).value, returned, zero, troubled)
  {
    ForegroundFrame(s, e);
    hide Foreground;
  }

  lemma ShutKeepsPast(s: State, e: Event, returned: bool, zero: bool, troubled: bool)
    requires Past(s, returned, zero, troubled) && Shut(s, e).Some?
    ensures PastStep(s, e, Shut(s, e).value, returned, zero, troubled)
  {
  }

  lemma StepKeepsPast(s: State, e: Event, returned: bool, zero: bool, troubled: bool)
    requires Past(s, returned, zero, troubled) && Step(s, e).Some?
    ensures PastStep(s, e, Step(s, e).value, returned, zero, troubled)
  {
    hide Construct, Work, Foreground, Shut, Cancel, Past, PastStep;
    if e.SignalArrives? {
      SignalKeepsPast(s, e, returned, zero, troubled);
    } else if Construct(s, e).Some? {
      ConstructKeepsPast(s, e, returned, zero, troubled);
    } else if Work(s, e).Some? {
      WorkKeepsPast(s, e, returned, zero, troubled);
    } else if Foreground(s, e).Some? {
      ForegroundKeepsPast(s, e, returned, zero, troubled);
    } else {
      ShutKeepsPast(s, e, returned, zero, troubled);
    }
  }

  lemma {:induction false} ReachablePast(events: seq<Event>)
    requires Run(events).Some?
    ensures Past(Run(events).value, ConstructReturns in events, UpdaterExits(true) in events, Troubled(events))
  {
    hide Step;
    if events != [] {
      hide Past;
      var before, e := events[..|events| - 1], events[|events| - 1];
      assert events == before + [e];
      ReachablePast(before);
      StepKeepsPast(Run(before).value, e, ConstructReturns in before, UpdaterExits(true) in before, Troubled(before));
    }
  }

  /** The caller has the object exactly after the constructor returned; a failed constructor hands out none. */
  lemma CallersHaveReturnedObjects(events: seq<Event>)
    requires Run(events).Some?
    ensures var main := Run(events).value.main;
            && (main.Idle? || main.Command? ==> ConstructReturns in events)
            && (main.Gone? || main.Constructing? ==> ConstructReturns !in events)
            && (main.Closing? ==> (main.constructing <==> ConstructReturns !in events))
  {
    hide Step, Troubled;
    ReachablePast(events);
  }

  /** A foreground `grype` starts only after the updater itself exited with zero. */
  lemma GrypeFollowsUpdate(events: seq<Event>, i: nat, ok: bool)
    requires Run(events).Some? && i < |events| && events[i] == CommandSpawns(ok)
    requires Run(events[..i]).Some? && Run(events[..i]).value.main.Command? && Run(events[..i]).value.main.grype
    ensures UpdaterExits(true) in events[..i]
  {
    hide Step, Troubled, Run;
    GrypeStartsAfterUpdate(events, i, ok);
    ReachablePast(events[..i]);
  }

  /** A close whose handlers are restored raises exactly if stopping the updater or reporting failed. */
  lemma CloseEndsExactly(events: seq<Event>)
    requires Run(events).Some? && Run(events).value.main.Closing?
    requires Run(events).value.main.close.Restoring? && Run(events).value.recorded == {}
    ensures Run(events + [CloseRaises]).Some? <==> Troubled(events)
    ensures Run(events + [CloseReturns]).Some? <==> !Troubled(events)
  {
    hide Step, Troubled;
    ReachablePast(events);
    RunAppend(events, CloseRaises);
    RunAppend(events, CloseReturns);
    RestoredEnds(Run(events).value);
  }

  lemma RestoredEnds(s: State)
    requires s.main.Closing? && s.main.close.Restoring? && s.recorded == {}
    ensures Step(s, CloseRaises).Some? <==> s.main.close.raising
    ensures Step(s, CloseReturns).Some? <==> !s.main.close.raising
  {
  }
}
