/**
 What every run of the dispatcher satisfies: its security state is that of the seed/key machine fed
 with the calls the run makes, so the gate opens a secured service only after an exchange; its session
 is the one last asked for unless the S3 timer ended it; and every answer has one of three shapes.
 */
module DispatcherRuns {
  import opened Wrappers
  import opened Words
  import opened NegativeResponses
  import opened Sessions
  import opened Dispatcher
  import Security
  import SecurityRuns

  /** How the dispatcher was constructed. */
  datatype Setup = Setup(allowed: seq<Session>, started: nat)

  datatype Event =
    | Request(clock: Clock, request: seq<u8>, handler: Handler, entropy: u32)
    | Tick(now: nat)

  function Step(c: Setup, e: Ecu, ev: Event): Ecu {
    match ev
    case Request(clock, request, handler, entropy) =>
      ProcessOutcome(e, c.allowed, request, handler, clock, entropy).0
    case Tick(now) => e.(session := Ticked(e.session, S3_TIMEOUT, now))
  }

  function Run(c: Setup, evs: seq<Event>): Ecu {
    if evs == [] then Ecu(State(Default, c.started), Security.FRESH)
    else Step(c, Run(c, evs[..|evs| - 1]), evs[|evs| - 1])
  }

  // ---------------------------------------------------------------------------------------------
  // The dispatcher drives the seed/key machine

  function OnlySecurity(calls: seq<HandlerCall>): seq<Security.Event> {
    if calls == [] then []
    else
      var last := calls[|calls| - 1];
      OnlySecurity(calls[..|calls| - 1]) + if last.OnSecurity? then [last.event] else []
  }

  /** The reason the gate turns a request away, if it does. */
  function Refusal(e: Ecu, ev: Event): Option<Nrc>
    requires ev.Request? && ev.request != []
  {
    Gate(Awake(e, ev.clock), ev.request[0], ev.handler)
  }

  /** The session a request moves to, when it is a DiagnosticSessionControl that is accepted. */
  function AcceptedSession(c: Setup, e: Ecu, ev: Event): Option<Session> {
    if ev.Request? && |ev.request| >= 2 && ev.request[0] == DSC && Refusal(e, ev).None? then
      var target := FromByte(ev.request[1] & 0x7F);
      if target.Some? && target.value in c.allowed then target else None
    else
      None
  }

  /** An accepted DiagnosticSessionControl that leaves a non-default session for the default one. */
  predicate ReturnsToDefault(c: Setup, e: Ecu, ev: Event) {
    && AcceptedSession(c, e, ev) == Some(Default)
    && Awake(e, ev.clock).session.current != Default
  }

  /** The calls on the seed/key machine that one event makes. */
  function SecurityCalls(c: Setup, e: Ecu, ev: Event): seq<Security.Event> {
    if ev.Tick? || ev.request == [] || Refusal(e, ev).Some? then
      []
    else if ev.request[0] == DSC then
      if ReturnsToDefault(c, e, ev) then [Security.At(ev.clock.now, Security.Relock)] else []
    else if ev.request[0] == SECURITY_ACCESS then
      if |ev.request| < 2 then []
      else if ev.request[1] % 2 == 1 then [Security.At(ev.clock.now, Security.Seed(ev.request[1], ev.entropy))]
      else [Security.At(ev.clock.now, Security.Key(ev.request[1], ev.request[2..]))]
    else if ev.request[0] == TESTER_PRESENT then
      []
    else
      OnlySecurity(ev.handler.calls)
  }

  function Trace(c: Setup, evs: seq<Event>): seq<Security.Event> {
    if evs == [] then []
    else
      var front := evs[..|evs| - 1];
      Trace(c, front) + SecurityCalls(c, Run(c, front), evs[|evs| - 1])
  }

  lemma {:induction false} HandlerDrivesSecurity(e: Ecu, allowed: seq<Session>, calls: seq<HandlerCall>)
    ensures HandlerEffect(e, allowed, calls).security == Security.RunFrom(e.security, OnlySecurity(calls))
  {
    if calls != [] {
      var front, last := calls[..|calls| - 1], calls[|calls| - 1];
      HandlerDrivesSecurity(e, allowed, front);
      if last.OnSecurity? {
        OneCall(Security.RunFrom(e.security, OnlySecurity(front)), last.event);
        Security.RunFromAppend(e.security, OnlySecurity(front), [last.event]);
      } else {
        assert OnlySecurity(calls) == OnlySecurity(front);
      }
    }
  }

  lemma OneCall(s: Security.State, e: Security.Event)
    ensures Security.RunFrom(s, [e]) == Security.Step(s, e)
  {
    assert [e][..0] == [];
    assert Security.RunFrom(s, [e][..0]) == s;
  }

  lemma EventDrivesSecurity(c: Setup, e: Ecu, ev: Event)
    ensures Step(c, e, ev).security == Security.RunFrom(e.security, SecurityCalls(c, e, ev))
  {
    hide Security.SeedOutcome, Security.KeyOutcome, Security.HasBit;
    var calls := SecurityCalls(c, e, ev);
    if |calls| == 1 {
      OneCall(e.security, calls[0]);
    }
    if ev.Request? {
      HandlerDrivesSecurity(Awake(e, ev.clock), c.allowed, ev.handler.calls);
    }
  }

  /** The security state of a run is that of the seed/key machine after the calls of the run. */
  lemma {:induction false} DispatcherRefinesSecurity(c: Setup, evs: seq<Event>)
    ensures Run(c, evs).security == Security.Run(Trace(c, evs))
  {
    if evs != [] {
      var front := evs[..|evs| - 1];
      DispatcherRefinesSecurity(c, front);
      EventDrivesSecurity(c, Run(c, front), evs[|evs| - 1]);
      Security.RunFromAppend(Security.FRESH, Trace(c, front), SecurityCalls(c, Run(c, front), evs[|evs| - 1]));
    }
  }

  lemma {:induction false} TracePrefix(c: Setup, evs: seq<Event>, m: nat)
    requires m <= |evs|
    ensures Trace(c, evs[..m]) <= Trace(c, evs)
    decreases |evs| - m
  {
    if m == |evs| {
      assert evs[..m] == evs;
    } else {
      TracePrefix(c, evs, m + 1);
      assert evs[..m + 1][..m] == evs[..m];
    }
  }

  // ---------------------------------------------------------------------------------------------
  // The gate

  predicate HeldUp(clock: Clock) {
    clock.ticked > clock.touched + S3_TIMEOUT
  }

  /** The i-th security call of the run came after the last return to the default session. */
  ghost predicate SinceLastReturn(c: Setup, evs: seq<Event>, i: nat) {
    forall m :: 0 <= m < |evs| && ReturnsToDefault(c, Run(c, evs[..m]), evs[m]) ==> |Trace(c, evs[..m + 1])| <= i
  }

  /** An exchange that has unlocked the level since the session last returned to default. */
  ghost predicate UnlockedSinceReturn(c: Setup, evs: seq<Event>, level: u8) {
    exists i, j :: SecurityRuns.Exchange(Trace(c, evs), i, j, level) && SinceLastReturn(c, evs, i)
  }

  /**
   After any run, a request passes the gate exactly when its service is supported, the session is
   one it is allowed in, and the level it needs, if any, was unlocked by a matching exchange since the
   last move from another session to the default one. The session is the one the run left, unless the
   request itself is held up for more than 5 s between touching the timer and looking at it.
   */
  lemma GateIsExact(c: Setup, evs: seq<Event>, clock: Clock, sid: u8, h: Handler)
    ensures var session := if HeldUp(clock) then Default else Run(c, evs).session.current;
            Gate(Awake(Run(c, evs), clock), sid, h).None?
            <==> && sid in h.supported
                 && session in h.allowed
                 && (h.required.Some? ==> UnlockedSinceReturn(c, evs, h.required.value))
  {
    DispatcherRefinesSecurity(c, evs);
    if h.required.Some? {
      var level := h.required.value;
      SecurityRuns.UnlockProvenance(Trace(c, evs), level);
      if i, j :| SecurityRuns.Exchange(Trace(c, evs), i, j, level) {
        ExchangeFollowsReturns(c, evs, i, j, level);
      }
    }
  }

  lemma ExchangeFollowsReturns(c: Setup, evs: seq<Event>, i: nat, j: nat, level: u8)
    requires SecurityRuns.Exchange(Trace(c, evs), i, j, level)
    ensures SinceLastReturn(c, evs, i)
  {
    hide ReturnsToDefault, Run, Trace;
    forall m | 0 <= m < |evs| && ReturnsToDefault(c, Run(c, evs[..m]), evs[m])
      ensures |Trace(c, evs[..m + 1])| <= i
    {
      ReturnRelocks(c, evs, m);
      TracePrefix(c, evs, m + 1);
      var r := |Trace(c, evs[..m + 1])| - 1;
      assert Trace(c, evs)[r] == Trace(c, evs[..m + 1])[r];
    }
  }

  lemma ReturnRelocks(c: Setup, evs: seq<Event>, m: nat)
    requires m < |evs| && ReturnsToDefault(c, Run(c, evs[..m]), evs[m])
    ensures var t := Trace(c, evs[..m + 1]); t != [] && t[|t| - 1].call.Relock?
  {
    assert evs[..m + 1][..m] == evs[..m];
  }

  // ---------------------------------------------------------------------------------------------
  // The session

  /** No handler of the run touches the session it is lent. */
  ghost predicate LeaveSessionAlone(evs: seq<Event>) {
    forall ev :: ev in evs && ev.Request? ==> forall call :: call in ev.handler.calls ==> call.OnSecurity?
  }

  /** The position of the last accepted DiagnosticSessionControl. */
  function LastAccepted(c: Setup, evs: seq<Event>): Option<nat> {
    if evs == [] then None
    else
      var n := |evs| - 1;
      if AcceptedSession(c, Run(c, evs[..n]), evs[n]).Some? then Some(n) else LastAccepted(c, evs[..n])
  }

  /** The request restarts the timer once more when it is carried out. */
  predicate TouchesAgain(c: Setup, e: Ecu, ev: Event) {
    || AcceptedSession(c, e, ev).Some?
    || (&& ev.Request? && |ev.request| >= 2
        && ev.request[0] == TESTER_PRESENT && ev.request[1] & 0x7F == 0 && Refusal(e, ev).None?)
  }

  /** The time at which the timer was last restarted, by a request. */
  function LastTouch(c: Setup, evs: seq<Event>): Option<nat> {
    if evs == [] then None
    else
      var n := |evs| - 1;
      if evs[n].Tick? then LastTouch(c, evs[..n])
      else Some(if TouchesAgain(c, Run(c, evs[..n]), evs[n]) then evs[n].clock.now else evs[n].clock.touched)
  }

  /** The k-th event is a tick more than 5 s after the last touch, or a request held up for as long. */
  predicate Expires(c: Setup, evs: seq<Event>, k: nat)
    requires k < |evs|
  {
    match evs[k]
    case Request(clock, _, _, _) => HeldUp(clock)
    case Tick(now) =>
      var touch := LastTouch(c, evs[..k]);
      touch.Some? && now > touch.value + S3_TIMEOUT
  }

  /** The session as the log of events tells it. */
  ghost function SessionByHistory(c: Setup, evs: seq<Event>): Session {
    match LastAccepted(c, evs)
    case None => Default
    case Some(m) =>
      if m < |evs| && !exists k :: m < k < |evs| && Expires(c, evs, k)
      then AcceptedSession(c, Run(c, evs[..m]), evs[m]).GetOr(Default)
      else Default
  }

  lemma {:induction false} HandlerLeavesSession(e: Ecu, allowed: seq<Session>, calls: seq<HandlerCall>)
    requires forall call :: call in calls ==> call.OnSecurity?
    ensures HandlerEffect(e, allowed, calls).session == e.session
  {
    if calls != [] {
      HandlerLeavesSession(e, allowed, calls[..|calls| - 1]);
    }
  }

  lemma RequestSetsSession(c: Setup, e: Ecu, ev: Event)
    requires ev.Request? && forall call :: call in ev.handler.calls ==> call.OnSecurity?
    ensures var current := if HeldUp(ev.clock) then Default else e.session.current;
            var touch := if TouchesAgain(c, e, ev) then ev.clock.now else ev.clock.touched;
            Step(c, e, ev).session == State(AcceptedSession(c, e, ev).GetOr(current), touch)
  {
    hide Security.SeedOutcome, Security.KeyOutcome, Security.HasBit;
    HandlerLeavesSession(Awake(e, ev.clock), c.allowed, ev.handler.calls);
  }

  lemma {:induction false} LastAcceptedIsAccepted(c: Setup, evs: seq<Event>)
    ensures LastAccepted(c, evs).Some? ==>
              && LastAccepted(c, evs).value < |evs|
              && AcceptedSession(c, Run(c, evs[..LastAccepted(c, evs).value]), evs[LastAccepted(c, evs).value]).Some?
  {
    if evs != [] {
      var n := |evs| - 1;
      LastAcceptedIsAccepted(c, evs[..n]);
      var m := LastAccepted(c, evs[..n]);
      if m.Some? {
        assert evs[..n][..m.value] == evs[..m.value];
      }
    }
  }

  /** The timer holds the time of the last touch, and only a request has ever left Default. */
  lemma {:induction false} TimerFollowsRequests(c: Setup, evs: seq<Event>)
    requires LeaveSessionAlone(evs)
    ensures match LastTouch(c, evs)
            case Some(t) => Run(c, evs).session.lastActivity == t
            case None => Run(c, evs).session.current == Default
  {
    if evs != [] {
      var n := |evs| - 1;
      assert forall ev :: ev in evs[..n] ==> ev in evs;
      TimerFollowsRequests(c, evs[..n]);
      if evs[n].Request? {
        RequestSetsSession(c, Run(c, evs[..n]), evs[n]);
      }
    }
  }

  /** How one more event changes the session the history tells. */
  lemma HistoryStep(c: Setup, evs: seq<Event>)
    requires evs != []
    ensures var n := |evs| - 1;
            var accepted := AcceptedSession(c, Run(c, evs[..n]), evs[n]);
            SessionByHistory(c, evs) == if accepted.Some? then accepted.value
                                        else if Expires(c, evs, n) then Default
                                        else SessionByHistory(c, evs[..n])
  {
    hide Run, AcceptedSession, LastTouch, HeldUp;
    var n := |evs| - 1;
    LastAcceptedIsAccepted(c, evs[..n]);
    forall k: nat | k < n ensures Expires(c, evs[..n], k) <==> Expires(c, evs, k) {
      assert evs[..n][..k] == evs[..k];
    }
    var m := LastAccepted(c, evs[..n]);
    if m.Some? {
      assert evs[..n][..m.value] == evs[..m.value];
    }
  }

  /**
   When no handler meddles, the current session is that of the last accepted DiagnosticSessionControl,
   unless a later tick came more than 5 s after the timer was last touched, or a later request was held up
   for as long before it looked at the timer; then it is the default one.
   */
  lemma {:induction false} SessionFollowsHistory(c: Setup, evs: seq<Event>)
    requires LeaveSessionAlone(evs)
    ensures Run(c, evs).session.current == SessionByHistory(c, evs)
  {
    if evs != [] {
      var n := |evs| - 1;
      assert forall ev :: ev in evs[..n] ==> ev in evs;
      SessionFollowsHistory(c, evs[..n]);
      HistoryStep(c, evs);
      if evs[n].Request? {
        RequestSetsSession(c, Run(c, evs[..n]), evs[n]);
      } else {
        TimerFollowsRequests(c, evs[..n]);
      }
    }
  }

  /** Whatever handlers do, the session is always the default one or one the dispatcher allows. */
  lemma {:induction false} SessionIsAllowed(c: Setup, evs: seq<Event>)
    ensures Run(c, evs).session.current == Default || Run(c, evs).session.current in c.allowed
  {
    if evs != [] {
      var e, ev := Run(c, evs[..|evs| - 1]), evs[|evs| - 1];
      SessionIsAllowed(c, evs[..|evs| - 1]);
      if ev.Request? {
        HandlerKeepsSessionAllowed(Awake(e, ev.clock), c.allowed, ev.handler.calls);
      }
    }
  }

  lemma {:induction false} HandlerKeepsSessionAllowed(e: Ecu, allowed: seq<Session>, calls: seq<HandlerCall>)
    requires e.session.current == Default || e.session.current in allowed
    ensures var after := HandlerEffect(e, allowed, calls);
            after.session.current == Default || after.session.current in allowed
  {
    if calls != [] {
      HandlerKeepsSessionAllowed(e, allowed, calls[..|calls| - 1]);
    }
  }

  // ---------------------------------------------------------------------------------------------
  // The answer

  predicate IsNegative(sid: u8, response: seq<u8>) {
    |response| == 3 && response[0] == 0x7F && response[1] == sid && exists n: Nrc :: response[2] == n.Code()
  }

  predicate IsPositive(sid: u8, response: seq<u8>) {
    response != [] && response[0] == sid + 0x40
  }

  /** The request passes the gate, is a 0x10 or 0x3E that is carried out, and asks for no positive answer. */
  predicate Suppressed(c: Setup, e: Ecu, request: seq<u8>, h: Handler, clock: Clock) {
    && |request| >= 2
    && request[1] & 0x80 != 0
    && Gate(Awake(e, clock), request[0], h).None?
    && if request[0] == DSC then
         var target := FromByte(request[1] & 0x7F);
         target.Some? && target.value in c.allowed
       else
         request[0] == TESTER_PRESENT && request[1] & 0x7F == 0
  }

  /** The service an answer names; an empty request is answered in the name of service 0. */
  function Service(request: seq<u8>): u8 {
    if request == [] then 0x00 else request[0]
  }

  /**
   Every answer is negative, positive or empty, and empty exactly for a suppressed request. The first
   two exclude each other except for service 0x3F, whose positive answer starts like a negative one. A
   request the gate turns away is told why and does nothing but touch and look at the timer.
   */
  lemma AnswersAreClassified(c: Setup, e: Ecu, request: seq<u8>, h: Handler, clock: Clock, entropy: u32)
    ensures var (after, response) := ProcessOutcome(e, c.allowed, request, h, clock, entropy);
            var sid := Service(request);
            && (response == [] <==> Suppressed(c, e, request, h, clock))
            && (response == [] || IsNegative(sid, response) || IsPositive(sid, response))
            && (IsNegative(sid, response) && IsPositive(sid, response) ==> sid == 0x3F)
            && (request != [] ==>
                  var refusal := Gate(Awake(e, clock), sid, h);
                  refusal.Some? ==> response == [0x7F, sid, refusal.value.Code()] && after == Awake(e, clock))
  {
    assert forall n: Nrc :: IsNegative(Service(request), n.Response(Service(request)));
  }

  /** A positive answer to a built-in service tells the state the request left behind. */
  lemma AnswersTellTheState(c: Setup, e: Ecu, request: seq<u8>, h: Handler, clock: Clock, entropy: u32)
    requires request != []
    ensures var (after, response) := ProcessOutcome(e, c.allowed, request, h, clock, entropy);
            && (request[0] == DSC && IsPositive(DSC, response) ==>
                  response == [0x50, ByteOf(after.session.current), 0x00, 0x32, 0x01, 0xF4])
            && (request[0] == SECURITY_ACCESS && IsPositive(SECURITY_ACCESS, response) ==>
                  |request| >= 2 && response[..2] == [0x67, request[1]] &&
                  if |response| == 2 then
                    Security.HasBit(after.security.unlocked, request[1] - 1) && after.security.pending.None?
                  else
                    |response| == 6 &&
                    if response[2..] == Security.ZERO_SEED then
                      Security.HasBit(after.security.unlocked, request[1]) && after.security.pending.None?
                    else
                      after.security.pending == Some(Security.Challenge(request[1], Words.FromBytes(response[2..]))))
  {
    if request[0] == SECURITY_ACCESS && |request| >= 2 {
      SecurityAnswersTellTheState(Awake(e, clock), request, clock.now, entropy);
    }
  }

  lemma SecurityAnswersTellTheState(e: Ecu, request: seq<u8>, now: nat, entropy: u32)
    requires |request| >= 2
    ensures var (after, response) := SecurityAccessOutcome(e, request, now, entropy);
            response[0] == 0x67 ==>
              response[..2] == [0x67, request[1]] &&
              if |response| == 2 then
                Security.HasBit(after.security.unlocked, request[1] - 1) && after.security.pending.None?
              else
                |response| == 6 &&
                if response[2..] == Security.ZERO_SEED then
                  Security.HasBit(after.security.unlocked, request[1]) && after.security.pending.None?
                else
                  after.security.pending == Some(Security.Challenge(request[1], Words.FromBytes(response[2..])))
  {
    var (after, response) := SecurityAccessOutcome(e, request, now, entropy);
    if request[1] % 2 == 1 {
      var r := Security.SeedOutcome(e.security, request[1], now, entropy).1;
      if r.Success? {
        assert response[2..] == r.value && response[..2] == [0x67, request[1]];
        SecurityRuns.ZeroSeedMeansUnlocked(e.security, request[1], now, entropy);
      }
    } else {
      Security.SetBit(e.security.unlocked, request[1] - 1, request[1] - 1);
      assert response[0] == 0x67 ==> response[..2] == response;
    }
  }

  // ---------------------------------------------------------------------------------------------
  // An unlock that outlives its session

  const ALL_SESSIONS: seq<Session> := [Default, Programming, Extended]

  /** A request at time 0 to a dispatcher that allows every session. */
  function Ask(request: seq<u8>): Event {
    Request(Clock(0, 0, 0), request, Handler([DSC, SECURITY_ACCESS], ALL_SESSIONS, None, [], Success([])), 1)
  }

  lemma RunStep(c: Setup, evs: seq<Event>, k: nat)
    requires k < |evs|
    ensures Run(c, evs[..k + 1]) == Step(c, Run(c, evs[..k]), evs[k])
  {
    assert evs[..k + 1][..k] == evs[..k];
  }

  lemma AskForSession(c: Setup, e: Ecu, session: Session)
    requires c.allowed == ALL_SESSIONS && session != Default
    ensures Step(c, e, Ask([DSC, ByteOf(session)])) == e.(session := State(session, 0))
  {
    AllSessions(e.session.current);
    AllSessions(session);
  }

  lemma AllSessions(session: Session)
    ensures session in ALL_SESSIONS && FromByte(ByteOf(session)) == Some(session)
    ensures ByteOf(session) & 0x7F == ByteOf(session)
  {
    assert ALL_SESSIONS[0] == Default && ALL_SESSIONS[1] == Programming && ALL_SESSIONS[2] == Extended;
  }

  lemma ExchangeKey(c: Setup, e: Ecu)
    requires e == Ecu(State(Extended, 0), Security.FRESH)
    ensures var asked := Step(c, e, Ask([SECURITY_ACCESS, 0x01]));
            Step(c, asked, Ask([SECURITY_ACCESS, 0x02, 0xDE, 0xAD, 0xBE, 0xEE]))
            == e.(security := Security.State(0x02, None, 0, None))
  {
    var asked := Step(c, e, Ask([SECURITY_ACCESS, 0x01]));
    assert asked == e.(security := Security.State(0, Some(Security.Challenge(0x01, 1)), 0, None));
    assert [SECURITY_ACCESS, 0x02, 0xDE, 0xAD, 0xBE, 0xEE][2..] == [0xDE, 0xAD, 0xBE, 0xEE];
  }

  /**
   A run from start-up in which a level is unlocked in the extended session and stays so through a move to the
   programming session and the expiry of the S3 timer: the default session then has it unlocked.
   */
  lemma UnlockOutlivesItsSession(later: nat)
    requires later > S3_TIMEOUT
    ensures var c := Setup(ALL_SESSIONS, 0);
            var evs := [Ask([DSC, ByteOf(Extended)]), Ask([SECURITY_ACCESS, 0x01]),
                        Ask([SECURITY_ACCESS, 0x02, 0xDE, 0xAD, 0xBE, 0xEE]), Ask([DSC, ByteOf(Programming)]),
                        Tick(later)];
            var unlocked := Security.State(0x02, None, 0, None);
            && Security.HasBit(unlocked.unlocked, 0x01)
            && Run(c, evs[..3]) == Ecu(State(Extended, 0), unlocked)
            && Run(c, evs[..4]) == Ecu(State(Programming, 0), unlocked)
            && Run(c, evs) == Ecu(State(Default, 0), unlocked)
  {
    hide Step, Run;
    var c := Setup(ALL_SESSIONS, 0);
    var extended, seed, key, programming := Ask([DSC, ByteOf(Extended)]), Ask([SECURITY_ACCESS, 0x01]),
        Ask([SECURITY_ACCESS, 0x02, 0xDE, 0xAD, 0xBE, 0xEE]), Ask([DSC, ByteOf(Programming)]);
    var evs := [extended, seed, key, programming, Tick(later)];
    var locked, unlocked := Security.FRESH, Security.State(0x02, None, 0, None);
    AtStart(c);
    RunStep(c, evs, 0);
    AskForSession(c, Ecu(State(Default, 0), locked), Extended);
    RunStep(c, evs, 1);
    RunStep(c, evs, 2);
    ExchangeKey(c, Ecu(State(Extended, 0), locked));
    RunStep(c, evs, 3);
    AskForSession(c, Ecu(State(Extended, 0), unlocked), Programming);
    RunStep(c, evs, 4);
    TimerExpires(c, Ecu(State(Programming, 0), unlocked), later);
    assert evs[..0] == [] && evs[..5] == evs;
  }

  lemma AtStart(c: Setup)
    ensures Run(c, []) == Ecu(State(Default, c.started), Security.FRESH)
  {
  }

  lemma TimerExpires(c: Setup, e: Ecu, later: nat)
    requires e.session.lastActivity == 0 && later > S3_TIMEOUT
    ensures Step(c, e, Tick(later)) == e.(session := State(Default, 0))
  {
  }
}
