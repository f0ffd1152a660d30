/**
 The session of the dispatcher with any handlers at all: it is that of the session machine fed with the
 operations a run makes on it, those of its handlers included.
 */
module DispatcherSessions {
  import opened Wrappers
  import opened Words
  import opened Sessions
  import opened Dispatcher
  import opened DispatcherRuns
  import Security
  import SessionRuns

  /** The operations that a handler's calls make on the session it is lent. */
  function OnlySession(calls: seq<HandlerCall>): seq<SessionRuns.Op> {
    if calls == [] then []
    else
      OnlySession(calls[..|calls| - 1])
      + match calls[|calls| - 1]
        case OnSecurity(_) => []
        case OnTouch(now) => [SessionRuns.Touch(now)]
        case OnTick(now) => [SessionRuns.Tick(now)]
        case OnTransition(now, session) => [SessionRuns.Move(now, session)]
  }

  /** What a request that passed the gate does to the session. */
  function Served(c: Setup, e: Ecu, ev: Event): seq<SessionRuns.Op>
    requires ev.Request? && ev.request != []
  {
    if ev.request[0] == DSC then
      var accepted := AcceptedSession(c, e, ev);
      if accepted.Some? then [SessionRuns.Move(ev.clock.now, accepted.value)] else []
    else if ev.request[0] == SECURITY_ACCESS then
      []
    else if ev.request[0] == TESTER_PRESENT then
      if TouchesAgain(c, e, ev) then [SessionRuns.Touch(ev.clock.now)] else []
    else
      OnlySession(ev.handler.calls)
  }

  /** The operations on the session that one event makes. */
  function Ops(c: Setup, e: Ecu, ev: Event): seq<SessionRuns.Op> {
    match ev
    case Tick(now) => [SessionRuns.Tick(now)]
    case Request(clock, request, _, _) =>
      [SessionRuns.Touch(clock.touched), SessionRuns.Tick(clock.ticked)]
      + if request == [] || Refusal(e, ev).Some? then [] else Served(c, e, ev)
  }

  function OpsOf(c: Setup, evs: seq<Event>): seq<SessionRuns.Op> {
    if evs == [] then []
    else
      var front := evs[..|evs| - 1];
      OpsOf(c, front) + Ops(c, Run(c, front), evs[|evs| - 1])
  }

  function Fed(c: Setup, s: State, ops: seq<SessionRuns.Op>): State {
    SessionRuns.RunFrom(s, c.allowed, SessionRuns.FIVE_SECONDS, ops)
  }

  lemma OneOp(c: Setup, s: State, op: SessionRuns.Op)
    ensures Fed(c, s, [op]) == SessionRuns.Step(s, c.allowed, SessionRuns.FIVE_SECONDS, op)
    ensures Fed(c, s, []) == s
  {
    var none: seq<SessionRuns.Op> := [];
    assert [op][..0] == none;
    assert Fed(c, s, none) == s;
  }

  lemma {:induction false} HandlerDrivesSession(c: Setup, e: Ecu, calls: seq<HandlerCall>)
    ensures HandlerEffect(e, c.allowed, calls).session == Fed(c, e.session, OnlySession(calls))
  {
    if calls == [] {
      assert OnlySession(calls) == [];
    } else {
      var front, last := calls[..|calls| - 1], calls[|calls| - 1];
      HandlerDrivesSession(c, e, front);
      var op := OnlySession([last]);
      OneCallDrives(c, HandlerEffect(e, c.allowed, front), last);
      assert OnlySession(calls) == OnlySession(front) + op by { OneCallOps(last); }
      SessionRuns.RunFromAppend(e.session, c.allowed, SessionRuns.FIVE_SECONDS, OnlySession(front), op);
    }
  }

  lemma OneCallOps(call: HandlerCall)
    ensures OnlySession([call])
            == match call
               case OnSecurity(_) => []
               case OnTouch(now) => [SessionRuns.Touch(now)]
               case OnTick(now) => [SessionRuns.Tick(now)]
               case OnTransition(now, session) => [SessionRuns.Move(now, session)]
  {
    assert [call][..0] == [];
  }

  lemma OneCallDrives(c: Setup, e: Ecu, call: HandlerCall)
    ensures HandlerStep(e, c.allowed, call).session == Fed(c, e.session, OnlySession([call]))
  {
    hide Fed, OnlySession, Security.Step;
    OneCallOps(call);
    match call
    case OnSecurity(_) => OneOp(c, e.session, SessionRuns.Touch(0));
    case OnTouch(now) => OneOp(c, e.session, SessionRuns.Touch(now));
    case OnTick(now) => OneOp(c, e.session, SessionRuns.Tick(now));
    case OnTransition(now, session) => OneOp(c, e.session, SessionRuns.Move(now, session));
  }

  lemma EventDrivesSession(c: Setup, e: Ecu, ev: Event)
    ensures Step(c, e, ev).session == Fed(c, e.session, Ops(c, e, ev))
  {
    hide Security.SeedOutcome, Security.KeyOutcome, Security.HasBit;
    match ev
    case Tick(now) => OneOp(c, e.session, SessionRuns.Tick(now));
    case Request(clock, request, handler, _) =>
      AwakeIsFed(c, e, clock);
      var awake := Awake(e, clock);
      var served := if request == [] || Refusal(e, ev).Some? then [] else Served(c, e, ev);
      assert Step(c, e, ev).session == Fed(c, awake.session, served) by {
        hide Fed, OnlySession, HandlerEffect;
        HandlerDrivesSession(c, awake, handler.calls);
        OneOp(c, awake.session, if |served| == 1 then served[0] else SessionRuns.Touch(0));
      }
      SessionRuns.RunFromAppend(e.session, c.allowed, SessionRuns.FIVE_SECONDS,
                                [SessionRuns.Touch(clock.touched), SessionRuns.Tick(clock.ticked)], served);
  }

  lemma AwakeIsFed(c: Setup, e: Ecu, clock: Clock)
    ensures Awake(e, clock).session
            == Fed(c, e.session, [SessionRuns.Touch(clock.touched), SessionRuns.Tick(clock.ticked)])
  {
    var touch, tick := SessionRuns.Touch(clock.touched), SessionRuns.Tick(clock.ticked);
    OneOp(c, e.session, touch);
    assert [touch, tick][..1] == [touch];
  }

  /** The session state of a run is that of the session machine after the operations of the run. */
  lemma {:induction false} DispatcherRefinesSession(c: Setup, evs: seq<Event>)
    ensures Run(c, evs).session == Fed(c, State(Default, c.started), OpsOf(c, evs))
  {
    if evs != [] {
      var front := evs[..|evs| - 1];
      DispatcherRefinesSession(c, front);
      EventDrivesSession(c, Run(c, front), evs[|evs| - 1]);
      SessionRuns.RunFromAppend(State(Default, c.started), c.allowed, SessionRuns.FIVE_SECONDS, OpsOf(c, front),
                                Ops(c, Run(c, front), evs[|evs| - 1]));
    }
  }

  /**
   After any run, whatever its handlers do, a session other than the default one is current exactly when the last
   move that was carried out, by a request or by a handler, was to it and the timer has not run out since.
   */
  lemma SessionIsToldByOperations(c: Setup, evs: seq<Event>, session: Session)
    requires session != Default
    ensures var ops := OpsOf(c, evs);
            Run(c, evs).session.current == session
            <==> exists m :: 0 <= m < |ops| && SessionRuns.MovedLast(c.started, c.allowed, ops, m, session)
  {
    DispatcherRefinesSession(c, evs);
    SessionRuns.SessionIsMovedLast(c.started, c.allowed, OpsOf(c, evs), session);
  }
}
