/**
 The self-test routine of the app: one status byte, shared by the handler of RoutineControl and by
 any number of LED cascade threads. Every atomic load and store is a step of its own, and the steps
 of the handler and of all threads interleave freely.
 */
module SelfTest {
  import opened Wrappers

  /** The number of LEDs, and so of abort checks a cascade passes. */
  const LED_COUNT: nat := 5

  datatype Status = Idle | Running | Completed | Aborted

  /** Where a cascade thread is: before its first store, between checks, or on its way out. */
  datatype Thread = Spawned | Checking(passed: nat) | Aborting | Ended(completed: bool)

  /** Where the handler is: its load has been answered and its store or spawn is still to come. */
  datatype Handler = Ready | StartAccepted | StopAccepted

  datatype State = State(status: Status, threads: seq<Thread>, handler: Handler)

  datatype Step =
    | StartLoad
    | Spawn
    | StopLoad
    | StopStore
    | StoreRunning(thread: nat)
    | Check(thread: nat)
    | StoreCompleted(thread: nat)
    | Leave(thread: nat)

  const INITIAL := State(Idle, [], Ready)

  predicate Enabled(s: State, step: Step) {
    match step
    case StartLoad => s.handler.Ready?
    case Spawn => s.handler.StartAccepted?
    case StopLoad => s.handler.Ready?
    case StopStore => s.handler.StopAccepted?
    case StoreRunning(t) => t < |s.threads| && s.threads[t].Spawned?
    case Check(t) => t < |s.threads| && s.threads[t].Checking? && s.threads[t].passed < LED_COUNT
    case StoreCompleted(t) => t < |s.threads| && s.threads[t] == Checking(LED_COUNT)
    case Leave(t) => t < |s.threads| && s.threads[t].Aborting?
  }

  function Apply(s: State, step: Step): State
    requires Enabled(s, step)
  {
    match step
    case StartLoad => if s.status.Running? then s else s.(handler := StartAccepted)
    case Spawn => s.(threads := s.threads + [Spawned], handler := Ready)
    case StopLoad => if s.status.Running? then s.(handler := StopAccepted) else s
    case StopStore => s.(status := Aborted, handler := Ready)
    case StoreRunning(t) => s.(status := Running, threads := s.threads[t := Checking(0)])
    case Check(t) =>
      s.(threads := s.threads[t := if s.status.Aborted? then Aborting else Checking(s.threads[t].passed + 1)])
    case StoreCompleted(t) => s.(status := Completed, threads := s.threads[t := Ended(true)])
    case Leave(t) => s.(threads := s.threads[t := Ended(false)])
  }

  /** The state after a schedule, if each of its steps was enabled in turn. */
  function RunFrom(s: State, steps: seq<Step>): Option<State> {
    if steps == [] then Some(s)
    else
      var before := RunFrom(s, steps[..|steps| - 1]);
      if before.Some? && Enabled(before.value, steps[|steps| - 1])
      then Some(Apply(before.value, steps[|steps| - 1])) else None
  }

  // ---------------------------------------------------------------------------------------------
  // The status is never stale

  ghost predicate Witnessed(s: State) {
    // running: some thread is past its first store and has neither ended nor seen an abort
    && (s.status.Running? ==> exists t :: 0 <= t < |s.threads| && s.threads[t].Checking?)
    // completed: some thread passed all its checks
    && (s.status.Completed? ==> exists t :: 0 <= t < |s.threads| && s.threads[t] == Ended(true))
  }

  ghost predicate IdleUntilBegun(s: State) {
    // idle: exactly as long as no thread has begun; until then there is nothing to stop
    && (s.status.Idle? <==> forall t :: 0 <= t < |s.threads| ==> s.threads[t].Spawned?)
    && (s.status.Idle? ==> !s.handler.StopAccepted?)
  }

  lemma StepKeepsWitnesses(s: State, step: Step)
    requires Witnessed(s) && Enabled(s, step)
    ensures Witnessed(Apply(s, step))
  {
    var after := Apply(s, step);
    assert forall t :: 0 <= t < |s.threads| && s.threads[t] == Ended(true) ==> after.threads[t] == Ended(true);
    assert after.status.Running? ==>
             forall t :: 0 <= t < |s.threads| && s.threads[t].Checking? ==> after.threads[t].Checking?;
    match step {
      case StoreRunning(t) => assert after.threads[t] == Checking(0);
      case StoreCompleted(t) => assert after.threads[t] == Ended(true);
      case _ =>
    }
  }

  lemma StepKeepsIdle(s: State, step: Step)
    requires IdleUntilBegun(s) && Enabled(s, step)
    ensures IdleUntilBegun(Apply(s, step))
  {
    var after := Apply(s, step);
    assert forall t :: 0 <= t < |s.threads| && !s.threads[t].Spawned? ==> !after.threads[t].Spawned?;
    match step {
      case StoreRunning(t) => assert !after.threads[t].Spawned?;
      case StoreCompleted(t) => assert !after.threads[t].Spawned?;
      case Check(t) => assert !after.threads[t].Spawned?;
      case Leave(t) => assert !after.threads[t].Spawned?;
      case _ => assert forall t :: 0 <= t < |s.threads| ==> after.threads[t] == s.threads[t];
    }
  }

  /**
   Under every interleaving: RUNNING means that a thread is running, COMPLETED that one ran to its end,
   and IDLE that none has begun.
   */
  lemma {:induction false} StatusIsNeverStale(steps: seq<Step>)
    requires RunFrom(INITIAL, steps).Some?
    ensures Witnessed(RunFrom(INITIAL, steps).value) && IdleUntilBegun(RunFrom(INITIAL, steps).value)
  {
    hide Apply;
    if steps != [] {
      StatusIsNeverStale(steps[..|steps| - 1]);
      StepKeepsWitnesses(RunFrom(INITIAL, steps[..|steps| - 1]).value, steps[|steps| - 1]);
      StepKeepsIdle(RunFrom(INITIAL, steps[..|steps| - 1]).value, steps[|steps| - 1]);
    }
  }

  /** How often a thread has looked for an abort. */
  function ChecksOf(steps: seq<Step>, t: nat): nat {
    if steps == [] then 0
    else ChecksOf(steps[..|steps| - 1], t) + if steps[|steps| - 1] == Check(t) then 1 else 0
  }

  /** A thread between checks has made those it counts, at most five, and one that completed has made all five. */
  lemma {:induction false} ChecksAreMade(steps: seq<Step>, t: nat)
    requires RunFrom(INITIAL, steps).Some?
    ensures var threads := RunFrom(INITIAL, steps).value.threads;
            && (t >= |threads| || threads[t].Spawned? ==> ChecksOf(steps, t) == 0)
            && (t < |threads| && threads[t].Checking? ==> ChecksOf(steps, t) == threads[t].passed <= 5)
            && (t < |threads| && threads[t] == Ended(true) ==> ChecksOf(steps, t) == 5)
            && ChecksOf(steps, t) <= 5
  {
    if steps != [] {
      ChecksAreMade(steps[..|steps| - 1], t);
    }
  }

  /** Once every thread has ended, the status says that the last word was an end or an abort. */
  lemma EndedThreadsDoNotRun(steps: seq<Step>)
    requires RunFrom(INITIAL, steps).Some? && RunFrom(INITIAL, steps).value.threads != []
    requires forall t :: t in RunFrom(INITIAL, steps).value.threads ==> t.Ended?
    ensures var s := RunFrom(INITIAL, steps).value; s.status.Completed? || s.status.Aborted?
  {
    StatusIsNeverStale(steps);
    var s := RunFrom(INITIAL, steps).value;
    assert forall t :: 0 <= t < |s.threads| ==> s.threads[t] in s.threads;
    assert !s.threads[0].Spawned?;
  }

  // ---------------------------------------------------------------------------------------------
  // Schedules, step by step

  lemma OneMoreStep(s: State, steps: seq<Step>, step: Step)
    requires RunFrom(s, steps).Some? && Enabled(RunFrom(s, steps).value, step)
    ensures RunFrom(s, steps + [step]) == Some(Apply(RunFrom(s, steps).value, step))
  {
    assert (steps + [step])[..|steps|] == steps;
  }

  lemma {:induction false} RunFromAppend(s: State, a: seq<Step>, b: seq<Step>)
    ensures RunFrom(s, a + b)
            == match RunFrom(s, a) case Some(mid) => RunFrom(mid, b) case None => None
  {
    if b == [] {
      assert a + b == a;
    } else {
      assert (a + b)[..|a + b| - 1] == a + b[..|b| - 1];
      RunFromAppend(s, a, b[..|b| - 1]);
    }
  }

  /** The status after a schedule, told from its stores alone. */
  function LastStore(before: Status, steps: seq<Step>): Status {
    if steps == [] then before
    else
      match steps[|steps| - 1]
      case StopStore => Aborted
      case StoreRunning(_) => Running
      case StoreCompleted(_) => Completed
      case _ => LastStore(before, steps[..|steps| - 1])
  }

  lemma {:induction false} StatusIsLastStore(s: State, steps: seq<Step>)
    requires RunFrom(s, steps).Some?
    ensures RunFrom(s, steps).value.status == LastStore(s.status, steps)
  {
    if steps != [] {
      StatusIsLastStore(s, steps[..|steps| - 1]);
    }
  }

  // ---------------------------------------------------------------------------------------------
  // When a stop is final

  /** The schedule has the handler accept no Start; a Start it turns away finds the status RUNNING. */
  ghost predicate AcceptsNoStart(s: State, steps: seq<Step>) {
    forall k :: 0 <= k < |steps| && steps[k].StartLoad? ==>
      RunFrom(s, steps[..k]).Some? && RunFrom(s, steps[..k]).value.status.Running?
  }

  /** A thread that will store to the status again whatever it finds there. */
  predicate StoresBlindly(t: Thread) {
    t.Spawned? || t == Checking(LED_COUNT)
  }

  predicate IsFinal(s: State) {
    && s.status.Aborted?
    && !s.handler.StartAccepted?
    && forall t :: 0 <= t < |s.threads| ==> !StoresBlindly(s.threads[t])
  }

  /**
   As long as no further Start is accepted, an abort stands under every interleaving exactly when no Start is
   half way and no thread has yet to begin or has made its last check. Such a thread ends the cascade as
   COMPLETED, or starts it over, although its stop was accepted.
   */
  lemma StopIsFinalIff(s: State)
    requires s.status.Aborted?
    ensures (forall steps :: RunFrom(s, steps).Some? && AcceptsNoStart(s, steps) ==>
                               RunFrom(s, steps).value.status.Aborted?)
            <==> IsFinal(s)
  {
    if IsFinal(s) {
      forall steps | RunFrom(s, steps).Some? && AcceptsNoStart(s, steps)
        ensures RunFrom(s, steps).value.status.Aborted?
      {
        AbortStays(s, steps);
      }
    } else {
      var steps := Overwrites(s);
      assert !RunFrom(s, steps).value.status.Aborted?;
    }
  }

  lemma {:induction false} AbortStays(s: State, steps: seq<Step>)
    requires IsFinal(s) && RunFrom(s, steps).Some? && AcceptsNoStart(s, steps)
    ensures IsFinal(RunFrom(s, steps).value)
  {
    if steps != [] {
      var n := |steps| - 1;
      assert AcceptsNoStart(s, steps[..n]) by {
        assert forall k :: 0 <= k < n ==> steps[..n][..k] == steps[..k];
      }
      AbortStays(s, steps[..n]);
      FinalStays(RunFrom(s, steps[..n]).value, steps[n]);
    }
  }

  lemma FinalStays(s: State, step: Step)
    requires IsFinal(s) && Enabled(s, step) && !step.StartLoad?
    ensures IsFinal(Apply(s, step))
  {
  }

  lemma Overwrites(s: State) returns (steps: seq<Step>)
    requires s.status.Aborted? && !IsFinal(s)
    ensures RunFrom(s, steps).Some? && AcceptsNoStart(s, steps) && !RunFrom(s, steps).value.status.Aborted?
  {
    if s.handler.StartAccepted? {
      steps := [Spawn] + [StoreRunning(|s.threads|)];
      OneMoreStep(s, [], Spawn);
      assert [] + [Spawn] == [Spawn];
      OneMoreStep(s, [Spawn], StoreRunning(|s.threads|));
    } else {
      var t :| 0 <= t < |s.threads| && StoresBlindly(s.threads[t]);
      var step := if s.threads[t].Spawned? then StoreRunning(t) else StoreCompleted(t);
      steps := [] + [step];
      OneMoreStep(s, [], step);
    }
  }

  // ---------------------------------------------------------------------------------------------
  // When a stopped thread completes all the same

  predicate BetweenChecks(s: State, t: nat) {
    t < |s.threads| && s.threads[t].Checking? && s.threads[t].passed < LED_COUNT
  }

  /** The schedule leads to the thread's having run to its end. */
  predicate Completes(s: State, steps: seq<Step>, t: nat) {
    var after := RunFrom(s, steps);
    after.Some? && t < |after.value.threads| && after.value.threads[t] == Ended(true)
  }

  /**
   A thread that was stopped between two checks, and whose next check is still to come after the schedule, can
   run to its end from that check on exactly when a RUNNING or COMPLETED store has come after the last abort.
   */
  lemma StoppedThreadCompletesIff(s: State, steps: seq<Step>, t: nat)
    requires s.status.Aborted? && BetweenChecks(s, t) && RunFrom(s, steps).Some? && Check(t) !in steps
    ensures (exists more :: Completes(s, steps + [Check(t)] + more, t)) <==> LastStore(Aborted, steps) != Aborted
  {
    StatusIsLastStore(s, steps);
    NoStoreIsIdle(steps);
    ThreadWaits(s, steps, t);
    var mid := RunFrom(s, steps).value;
    OneMoreStep(s, steps, Check(t));
    forall more
      ensures Completes(s, steps + [Check(t)] + more, t) <==> Completes(Apply(mid, Check(t)), more, t)
    {
      RunFromAppend(s, steps + [Check(t)], more);
    }
    if mid.status.Aborted? {
      forall more ensures !Completes(Apply(mid, Check(t)), more, t) {
        AbortingThreadNeverCompletes(Apply(mid, Check(t)), more, t);
      }
    } else {
      var more := RunningThreadCompletes(Apply(mid, Check(t)), t);
      assert Completes(s, steps + [Check(t)] + more, t);
    }
  }

  lemma {:induction false} NoStoreIsIdle(steps: seq<Step>)
    ensures !LastStore(Aborted, steps).Idle?
  {
    if steps != [] {
      NoStoreIsIdle(steps[..|steps| - 1]);
    }
  }

  lemma {:induction false} ThreadWaits(s: State, steps: seq<Step>, t: nat)
    requires BetweenChecks(s, t) && RunFrom(s, steps).Some? && Check(t) !in steps
    ensures t < |RunFrom(s, steps).value.threads| && RunFrom(s, steps).value.threads[t] == s.threads[t]
  {
    if steps != [] {
      assert steps[|steps| - 1] in steps;
      ThreadWaits(s, steps[..|steps| - 1], t);
    }
  }

  lemma {:induction false} AbortingThreadNeverCompletes(s: State, steps: seq<Step>, t: nat)
    requires t < |s.threads| && (s.threads[t].Aborting? || s.threads[t] == Ended(false))
    ensures RunFrom(s, steps).Some? ==>
              var after := RunFrom(s, steps).value;
              t < |after.threads| && (after.threads[t].Aborting? || after.threads[t] == Ended(false))
  {
    if steps != [] {
      AbortingThreadNeverCompletes(s, steps[..|steps| - 1], t);
    }
  }

  /** Left to itself, a thread that finds no abort passes its checks and stores COMPLETED. */
  lemma RunningThreadCompletes(s: State, t: nat) returns (steps: seq<Step>)
    requires !s.status.Aborted? && t < |s.threads| && s.threads[t].Checking? && s.threads[t].passed <= LED_COUNT
    ensures Completes(s, steps, t)
  {
    steps := PassesChecks(s, t, LED_COUNT - s.threads[t].passed);
    OneMoreStep(s, steps, StoreCompleted(t));
    steps := steps + [StoreCompleted(t)];
  }

  lemma {:induction false} PassesChecks(s: State, t: nat, n: nat) returns (steps: seq<Step>)
    requires !s.status.Aborted? && t < |s.threads| && s.threads[t].Checking? && s.threads[t].passed + n <= LED_COUNT
    ensures RunFrom(s, steps) == Some(s.(threads := s.threads[t := Checking(s.threads[t].passed + n)]))
  {
    if n == 0 {
      steps := [];
      assert s.threads[t := Checking(s.threads[t].passed + n)] == s.threads;
    } else {
      var p := s.threads[t].passed;
      steps := PassesChecks(s, t, n - 1);
      OneMoreStep(s, steps, Check(t));
      assert s.threads[t := Checking(p + n - 1)][t := Checking(p + n)] == s.threads[t := Checking(p + n)];
      steps := steps + [Check(t)];
    }
  }

  // ---------------------------------------------------------------------------------------------
  // Accepted stops that fail

  ghost predicate Reaches(s: State, t: State) {
    exists steps :: RunFrom(s, steps) == Some(t)
  }

  lemma ReachesThrough(s: State, m: State, t: State)
    requires Reaches(s, m) && Reaches(m, t)
    ensures Reaches(s, t)
  {
    var a, b :| RunFrom(s, a) == Some(m) && RunFrom(m, b) == Some(t);
    RunFromAppend(s, a, b);
  }

  lemma ReachesNext(s: State, step: Step)
    requires Enabled(s, step)
    ensures Reaches(s, Apply(s, step))
  {
    OneMoreStep(s, [], step);
  }

  lemma StartedReaches(s: State)
    requires s.handler.StartAccepted?
    ensures Reaches(s, State(Running, s.threads + [Checking(0)], Ready))
  {
    var spawned := State(s.status, s.threads + [Spawned], Ready);
    ReachesNext(s, Spawn);
    ReachesNext(spawned, StoreRunning(|s.threads|));
    assert spawned.threads[|s.threads| := Checking(0)] == s.threads + [Checking(0)];
    ReachesThrough(s, spawned, State(Running, s.threads + [Checking(0)], Ready));
  }

  /** A Start that is accepted, up to the thread's first store. */
  lemma StartReaches(s: State)
    requires s.handler.Ready? && !s.status.Running?
    ensures Reaches(s, State(Running, s.threads + [Checking(0)], Ready))
  {
    ReachesNext(s, StartLoad);
    StartedReaches(s.(handler := StartAccepted));
    ReachesThrough(s, s.(handler := StartAccepted), State(Running, s.threads + [Checking(0)], Ready));
  }

  lemma SpawnReaches(s: State)
    requires s.handler.Ready? && !s.status.Running?
    ensures Reaches(s, s.(threads := s.threads + [Spawned]))
  {
    ReachesNext(s, StartLoad);
    var accepted := s.(handler := StartAccepted);
    ReachesNext(accepted, Spawn);
    ReachesThrough(s, accepted, s.(threads := s.threads + [Spawned]));
  }

  /** A Stop that is accepted. */
  lemma StopReaches(s: State)
    requires s.handler.Ready? && s.status.Running?
    ensures Reaches(s, s.(status := Aborted))
  {
    ReachesNext(s, StopLoad);
    var accepted := s.(handler := StopAccepted);
    ReachesNext(accepted, StopStore);
    ReachesThrough(s, accepted, s.(status := Aborted));
  }

  lemma ChecksReach(s: State, t: nat, n: nat)
    requires !s.status.Aborted? && t < |s.threads| && s.threads[t].Checking? && s.threads[t].passed + n <= LED_COUNT
    ensures Reaches(s, s.(threads := s.threads[t := Checking(s.threads[t].passed + n)]))
  {
    var steps := PassesChecks(s, t, n);
  }

  lemma RunningIsReached(s: State)
    ensures Reaches(s, State(Running, s.threads + [Checking(0)], Ready)) || s.status.Running?
  {
    hide Reaches;
    match s.handler
    case Ready =>
      if !s.status.Running? {
        StartReaches(s);
      }
    case StartAccepted => StartedReaches(s);
    case StopAccepted =>
      ReachesNext(s, StopStore);
      StartReaches(State(Aborted, s.threads, Ready));
      ReachesThrough(s, State(Aborted, s.threads, Ready), State(Running, s.threads + [Checking(0)], Ready));
  }

  /** Where Starts are accepted no stop is final: every thread stopped between its checks can still complete. */
  lemma AnyStoppedThreadCanComplete(s: State, t: nat)
    requires s.status.Aborted? && BetweenChecks(s, t)
    ensures exists steps :: Completes(s, steps, t)
  {
    RunningIsReached(s);
    var running := State(Running, s.threads + [Checking(0)], Ready);
    var steps :| RunFrom(s, steps) == Some(running);
    var more := RunningThreadCompletes(running, t);
    RunFromAppend(s, steps, more);
    assert Completes(s, steps + more, t);
  }

  /** A stop after the last check: the cascade ends as COMPLETED. */
  lemma StopAfterLastCheckFails()
    ensures var stopped := State(Aborted, [Checking(5)], Ready);
            Reaches(INITIAL, stopped) && Reaches(stopped, State(Completed, [Ended(true)], Ready))
  {
    hide Reaches;
    var begun, checked := State(Running, [Checking(0)], Ready), State(Running, [Checking(LED_COUNT)], Ready);
    assert INITIAL.threads + [Checking(0)] == begun.threads;
    assert begun.threads[0 := Checking(LED_COUNT)] == checked.threads;
    assert checked.threads[0 := Ended(true)] == [Ended(true)];
    StartReaches(INITIAL);
    ChecksReach(begun, 0, LED_COUNT);
    ReachesThrough(INITIAL, begun, checked);
    StopReaches(checked);
    ReachesThrough(INITIAL, checked, State(Aborted, [Checking(LED_COUNT)], Ready));
    ReachesNext(State(Aborted, [Checking(LED_COUNT)], Ready), StoreCompleted(0));
  }

  /** A stop between two threads' first stores: the second thread runs. */
  lemma StopBeforeBeginFails()
    ensures var stopped := State(Aborted, [Spawned, Checking(0)], Ready);
            Reaches(INITIAL, stopped) && Reaches(stopped, State(Running, [Checking(0), Checking(0)], Ready))
  {
    hide Reaches;
    var spawned, running := State(Idle, [Spawned], Ready), State(Running, [Spawned, Checking(0)], Ready);
    assert INITIAL.threads + [Spawned] == spawned.threads;
    assert spawned.threads + [Checking(0)] == running.threads;
    assert running.threads[0 := Checking(0)] == [Checking(0), Checking(0)];
    SpawnReaches(INITIAL);
    StartReaches(spawned);
    ReachesThrough(INITIAL, spawned, running);
    StopReaches(running);
    ReachesThrough(INITIAL, running, State(Aborted, [Spawned, Checking(0)], Ready));
    ReachesNext(State(Aborted, [Spawned, Checking(0)], Ready), StoreRunning(0));
  }

  /** A stop between two checks, and a Start before the second of them: the stopped cascade goes on to COMPLETED. */
  lemma StopThenStartFails()
    ensures var stopped := State(Aborted, [Checking(1)], Ready);
            && IsFinal(stopped) && Reaches(INITIAL, stopped)
            && Reaches(stopped, State(Completed, [Ended(true), Checking(0)], Ready))
  {
    hide Reaches;
    var begun, checked := State(Running, [Checking(0)], Ready), State(Running, [Checking(1)], Ready);
    var stopped, revived := State(Aborted, [Checking(1)], Ready), State(Running, [Checking(1), Checking(0)], Ready);
    var last := State(Running, [Checking(LED_COUNT), Checking(0)], Ready);
    assert INITIAL.threads + [Checking(0)] == begun.threads && begun.threads[0 := Checking(1)] == checked.threads;
    assert stopped.threads + [Checking(0)] == revived.threads;
    assert revived.threads[0 := Checking(LED_COUNT)] == last.threads;
    assert last.threads[0 := Ended(true)] == [Ended(true), Checking(0)];
    StartReaches(INITIAL);
    ChecksReach(begun, 0, 1);
    ReachesThrough(INITIAL, begun, checked);
    StopReaches(checked);
    ReachesThrough(INITIAL, checked, stopped);
    StartReaches(stopped);
    ChecksReach(revived, 0, 4);
    ReachesThrough(stopped, revived, last);
    ReachesNext(last, StoreCompleted(0));
    ReachesThrough(stopped, last, State(Completed, [Ended(true), Checking(0)], Ready));
  }

  // ---------------------------------------------------------------------------------------------
  // When two cascades are under way at once

  predicate IsUnderWay(s: State, t: nat) {
    t < |s.threads| && !s.threads[t].Ended?
  }

  ghost predicate NoneUnderWay(s: State) {
    forall t: nat :: !IsUnderWay(s, t)
  }

  ghost predicate AtMostOneUnderWay(s: State) {
    forall t: nat, u: nat :: IsUnderWay(s, t) && IsUnderWay(s, u) ==> t == u
  }

  /** At no moment of the schedule are two cascades under way. */
  ghost predicate NeverTwo(steps: seq<Step>)
    requires RunFrom(INITIAL, steps).Some?
  {
    AtMostOneUnderWay(RunFrom(INITIAL, steps).value) && (steps != [] ==> NeverTwo(steps[..|steps| - 1]))
  }

  /** Every thread is spawned at a moment when no other is under way. */
  ghost predicate SpawnsAlone(steps: seq<Step>)
    requires RunFrom(INITIAL, steps).Some?
  {
    steps != [] ==>
      var front, step := steps[..|steps| - 1], steps[|steps| - 1];
      SpawnsAlone(front) && (step.Spawn? ==> NoneUnderWay(RunFrom(INITIAL, front).value))
  }

  lemma {:induction false} NeverTwoIffSpawnsAlone(steps: seq<Step>)
    requires RunFrom(INITIAL, steps).Some?
    ensures NeverTwo(steps) <==> SpawnsAlone(steps)
  {
    hide Apply, AtMostOneUnderWay, NoneUnderWay;
    if steps == [] {
      NoneAtFirst();
    } else {
      var front, step := steps[..|steps| - 1], steps[|steps| - 1];
      NeverTwoIffSpawnsAlone(front);
      if NeverTwo(front) {
        StepStaysAloneIff(RunFrom(INITIAL, front).value, step);
      }
    }
  }

  lemma NoneAtFirst()
    ensures AtMostOneUnderWay(INITIAL)
  {
  }

  lemma StepStaysAloneIff(s: State, step: Step)
    requires Enabled(s, step) && AtMostOneUnderWay(s)
    ensures AtMostOneUnderWay(Apply(s, step)) <==> step.Spawn? ==> NoneUnderWay(s)
  {
    var after := Apply(s, step);
    if step.Spawn? {
      assert IsUnderWay(after, |s.threads|);
      assert forall t: nat :: t < |s.threads| ==> (IsUnderWay(after, t) <==> IsUnderWay(s, t));
    } else {
      assert forall t: nat :: IsUnderWay(after, t) ==> IsUnderWay(s, t);
    }
  }

  /** What a lone cascade leaves the status at. */
  ghost predicate StatusFits(s: State) {
    forall t: nat :: IsUnderWay(s, t) ==>
      match s.threads[t]
      case Spawned => !s.status.Running?
      case Checking(_) => s.status.Running? || s.status.Aborted?
      case Aborting => s.status.Aborted?
      case _ => true
  }

  lemma StepKeepsStatus(s: State, step: Step)
    requires Enabled(s, step) && StatusFits(s) && Witnessed(s)
    requires AtMostOneUnderWay(s) && AtMostOneUnderWay(Apply(s, step))
    ensures StatusFits(Apply(s, step))
  {
    var after := Apply(s, step);
    forall t: nat | IsUnderWay(after, t)
      ensures match after.threads[t]
              case Spawned => !after.status.Running?
              case Checking(_) => after.status.Running? || after.status.Aborted?
              case Aborting => after.status.Aborted?
              case _ => true
    {
      if step.Spawn? {
        StepStaysAloneIff(s, step);
        if s.status.Running? {
          var u :| 0 <= u < |s.threads| && s.threads[u].Checking?;
          assert IsUnderWay(s, u);
        }
      } else {
        assert IsUnderWay(s, t);
        assert step.StoreRunning? || step.StoreCompleted? || step.Check? || step.Leave? ==> IsUnderWay(s, step.thread);
      }
    }
  }

  lemma {:induction false} StatusFollowsLoneCascade(steps: seq<Step>)
    requires RunFrom(INITIAL, steps).Some? && NeverTwo(steps)
    ensures StatusFits(RunFrom(INITIAL, steps).value)
  {
    hide Apply, StatusFits, AtMostOneUnderWay;
    if steps == [] {
      NothingToFit();
    } else {
      var front, step := steps[..|steps| - 1], steps[|steps| - 1];
      StatusFollowsLoneCascade(front);
      StatusIsNeverStale(front);
      StepKeepsStatus(RunFrom(INITIAL, front).value, step);
    }
  }

  lemma NothingToFit()
    ensures StatusFits(INITIAL)
  {
  }

  /**
   As long as cascades have been alone, a Start during one is accepted exactly before the cascade's RUNNING store
   and after an abort; the thread it then spawns makes two, unless the first has ended by then.
   */
  lemma SecondStartIsAcceptedIff(steps: seq<Step>, t: nat)
    requires RunFrom(INITIAL, steps).Some? && NeverTwo(steps)
    requires var s := RunFrom(INITIAL, steps).value; s.handler.Ready? && IsUnderWay(s, t)
    ensures var s := RunFrom(INITIAL, steps).value;
            && (Apply(s, StartLoad).handler.StartAccepted? <==> s.threads[t].Spawned? || s.status.Aborted?)
            && (Apply(s, StartLoad).handler.StartAccepted? ==>
                  !AtMostOneUnderWay(Apply(Apply(s, StartLoad), Spawn)))
  {
    StatusFollowsLoneCascade(steps);
    var s := RunFrom(INITIAL, steps).value;
    if Apply(s, StartLoad).handler.StartAccepted? {
      assert forall u: nat :: IsUnderWay(Apply(s, StartLoad), u) <==> IsUnderWay(s, u);
      StepStaysAloneIff(Apply(s, StartLoad), Spawn);
    }
  }

  // ---------------------------------------------------------------------------------------------
  // Which requests are accepted

  /** A Stop leads to an abort exactly when the status reported is RUNNING, and a Start to a thread exactly when not. */
  lemma RequestsAreAcceptedIff(s: State)
    requires s.handler.Ready?
    ensures RunFrom(s, [StopLoad] + [StopStore])
            == if s.status.Running? then Some(s.(status := Aborted)) else None
    ensures RunFrom(s, [StartLoad] + [Spawn])
            == if s.status.Running? then None else Some(s.(threads := s.threads + [Spawned]))
    ensures Apply(s, StopLoad).status == s.status && Apply(s, StartLoad).status == s.status
  {
    TwoSteps(s, StopLoad, StopStore);
    TwoSteps(s, StartLoad, Spawn);
  }

  lemma TwoSteps(s: State, first: Step, second: Step)
    requires Enabled(s, first)
    ensures RunFrom(s, [first] + [second])
            == var mid := Apply(s, first); if Enabled(mid, second) then Some(Apply(mid, second)) else None
  {
    OneMoreStep(s, [], first);
    assert [] + [first] == [first];
    assert ([first] + [second])[..1] == [first];
  }

  /** The outcome of a self-test whose threads have all ended stands until a Start is accepted. */
  lemma {:induction false} OutcomeStands(s: State, steps: seq<Step>)
    requires s.handler.Ready? && NoneUnderWay(s) && !s.status.Running?
    requires RunFrom(s, steps).Some? && AcceptsNoStart(s, steps)
    ensures RunFrom(s, steps).value == s
  {
    if steps != [] {
      var n := |steps| - 1;
      assert AcceptsNoStart(s, steps[..n]) by {
        assert forall k :: 0 <= k < n ==> steps[..n][..k] == steps[..k];
      }
      OutcomeStands(s, steps[..n]);
      var step := steps[n];
      assert step.StoreRunning? || step.Check? || step.StoreCompleted? || step.Leave? ==> IsUnderWay(s, step.thread);
    }
  }

  // ---------------------------------------------------------------------------------------------
  // Every cascade ends

  /** The step is one of the thread's own. */
  predicate IsOwn(step: Step, t: nat) {
    step in {StoreRunning(t), Check(t), StoreCompleted(t), Leave(t)}
  }

  function OwnSteps(steps: seq<Step>, t: nat): nat {
    if steps == [] then 0 else OwnSteps(steps[..|steps| - 1], t) + if IsOwn(steps[|steps| - 1], t) then 1 else 0
  }

  /** The steps a thread has left at most: seven from its first store to its end. */
  function StepsLeft(threads: seq<Thread>, t: nat): int {
    if t >= |threads| then 7
    else
      match threads[t]
      case Spawned => 7
      case Checking(passed) => 6 - passed
      case Aborting => 1
      case Ended(_) => 0
  }

  /** A thread is never stuck before its end, and it gets there in at most seven steps of its own. */
  lemma {:induction false} ThreadsEnd(steps: seq<Step>, t: nat)
    requires RunFrom(INITIAL, steps).Some?
    ensures var s := RunFrom(INITIAL, steps).value;
            && 0 <= StepsLeft(s.threads, t) && OwnSteps(steps, t) + StepsLeft(s.threads, t) <= 7
            && (IsUnderWay(s, t) ==> exists step :: IsOwn(step, t) && Enabled(s, step))
  {
    hide ChecksOf, IsOwn;
    ChecksAreMade(steps, t);
    ThreadIsNotStuck(RunFrom(INITIAL, steps).value, t);
    if steps != [] {
      hide Apply, Enabled;
      var front, step := steps[..|steps| - 1], steps[|steps| - 1];
      ThreadsEnd(front, t);
      StepIsOneLess(RunFrom(INITIAL, front).value, step, t);
    }
  }

  lemma StepIsOneLess(s: State, step: Step, t: nat)
    requires Enabled(s, step)
    ensures StepsLeft(Apply(s, step).threads, t) + (if IsOwn(step, t) then 1 else 0) <= StepsLeft(s.threads, t)
  {
  }

  lemma ThreadIsNotStuck(s: State, t: nat)
    requires t < |s.threads| && s.threads[t].Checking? ==> s.threads[t].passed <= 5
    ensures IsUnderWay(s, t) ==> exists step :: IsOwn(step, t) && Enabled(s, step)
  {
    if IsUnderWay(s, t) {
      var step := match s.threads[t]
        case Spawned => StoreRunning(t)
        case Checking(passed) => if passed < 5 then Check(t) else StoreCompleted(t)
        case _ => Leave(t);
      assert IsOwn(step, t) && Enabled(s, step);
    }
  }
}
