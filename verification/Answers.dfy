/** Every answer of the dispatcher, read back by a tester: which of its rules or which result it reports. */
module Answers {
  import opened Wrappers
  import opened Words
  import opened NegativeResponses
  import opened Sessions
  import opened Dispatcher
  import opened DispatcherRuns
  import Security
  import SecurityRuns

  /** How a tester reads an answer that is not empty: the reason of a negative one, the data of a positive one. */
  function ReadAnswer(response: seq<u8>): Option<Result<seq<u8>, Nrc>> {
    if |response| == 3 && response[0] == 0x7F then
      var reason := FromCode(response[2]);
      if reason.Some? then Some(Failure(reason.value)) else None
    else if response != [] then Some(Success(response[1..]))
    else None
  }

  /** The answer is negative, or positive in the name of the service. */
  predicate Names(sid: u8, response: seq<u8>, positive: bool) {
    |response| >= 1 && if positive then response[0] == sid + 0x40 else |response| == 3 && response[..2] == [0x7F, sid]
  }

  lemma NegativeIsRead(sid: u8, n: Nrc)
    ensures Names(sid, n.Response(sid), false) && ReadAnswer(n.Response(sid)) == Some(Failure(n))
  {
    CodesAreUnique(n.Code(), n);
  }

  // ---------------------------------------------------------------------------------------------
  // The gate

  /** The four ways through the gate, told from the run; the first check that fails gives the reason. */
  lemma GateReasons(c: Setup, evs: seq<Event>, clock: Clock, sid: u8, h: Handler)
    ensures var session := if HeldUp(clock) then Default else Run(c, evs).session.current;
            var reason := Gate(Awake(Run(c, evs), clock), sid, h);
            && (reason == Some(ServiceNotSupported) <==> sid !in h.supported)
            && (reason == Some(ConditionsNotCorrect) <==> sid in h.supported && session !in h.allowed)
            && (reason == Some(SecurityAccessDenied)
                <==> && sid in h.supported && session in h.allowed
                     && h.required.Some? && !UnlockedSinceReturn(c, evs, h.required.value))
            && (reason.Some? ==> reason.value in {ServiceNotSupported, ConditionsNotCorrect, SecurityAccessDenied})
  {
    hide UnlockedSinceReturn;
    GateIsExact(c, evs, clock, sid, h);
  }

  /** A tester reads the reason of a rejection, and a request without any byte counts as too short. */
  lemma RejectionIsRead(c: Setup, e: Ecu, request: seq<u8>, h: Handler, clock: Clock, entropy: u32)
    requires request != [] ==> Gate(Awake(e, clock), request[0], h).Some?
    ensures var (after, response) := ProcessOutcome(e, c.allowed, request, h, clock, entropy);
            && after == Awake(e, clock)
            && Names(Service(request), response, false)
            && ReadAnswer(response) == Some(Failure(if request == [] then IncorrectMessageLengthOrInvalidFormat
                                                    else Gate(Awake(e, clock), request[0], h).value))
  {
    AnswersAreClassified(c, e, request, h, clock, entropy);
    if request == [] {
      NegativeIsRead(0x00, IncorrectMessageLengthOrInvalidFormat);
    } else {
      NegativeIsRead(request[0], Gate(Awake(e, clock), request[0], h).value);
    }
  }

  // ---------------------------------------------------------------------------------------------
  // Services of the handler

  predicate IsBuiltIn(sid: u8) {
    sid in {0x10, 0x27, 0x3E}
  }

  /** Past the gate a service that is not built in answers what its handler answers, byte for byte. */
  lemma HandlerIsRelayed(c: Setup, e: Ecu, request: seq<u8>, h: Handler, clock: Clock, entropy: u32)
    requires request != [] && !IsBuiltIn(request[0]) && Gate(Awake(e, clock), request[0], h).None?
    ensures var (after, response) := ProcessOutcome(e, c.allowed, request, h, clock, entropy);
            && after == HandlerEffect(Awake(e, clock), c.allowed, h.calls)
            && Names(request[0], response, h.outcome.Success?)
            && (h.outcome.Success? ==> response[1..] == h.outcome.value)
            && (request[0] != 0x3F || h.outcome.Failure? ==> ReadAnswer(response) == Some(h.outcome))
  {
    hide HandlerEffect;
    if h.outcome.Failure? {
      NegativeIsRead(request[0], h.outcome.error);
    }
  }

  // ---------------------------------------------------------------------------------------------
  // Built-in services

  /** The session that a DiagnosticSessionControl names. */
  predicate NamesSession(c: Setup, request: seq<u8>, s: Session) {
    && |request| >= 2
    && s in c.allowed
    && request[1] & 0x7F == match s case Default => 0x01 case Programming => 0x02 case Extended => 0x03
  }

  lemma SessionControlIsRead(c: Setup, e: Ecu, request: seq<u8>, h: Handler, clock: Clock, entropy: u32)
    requires request != [] && request[0] == 0x10 && Gate(Awake(e, clock), 0x10, h).None?
    ensures var (after, response) := ProcessOutcome(e, c.allowed, request, h, clock, entropy);
            && (response == [0x7F, 0x10, 0x13] <==> |request| == 1)
            && (response == [0x7F, 0x10, 0x12] <==> |request| >= 2 && !exists s :: NamesSession(c, request, s))
            && (forall s :: NamesSession(c, request, s) ==>
                  && after.session == State(s, clock.now)
                  && response == if request[1] >= 0x80 then [] else [0x50, request[1], 0x00, 0x32, 0x01, 0xF4])
            && (|response| == 3 ==> after == Awake(e, clock))
  {
    if |request| >= 2 {
      var target := FromByte(request[1] & 0x7F);
      if target.Some? && target.value in c.allowed {
        assert NamesSession(c, request, target.value);
      }
    }
  }

  lemma TesterPresentIsRead(c: Setup, e: Ecu, request: seq<u8>, h: Handler, clock: Clock, entropy: u32)
    requires request != [] && request[0] == 0x3E && Gate(Awake(e, clock), 0x3E, h).None?
    ensures var (after, response) := ProcessOutcome(e, c.allowed, request, h, clock, entropy);
            && response == (if |request| == 1 then [0x7F, 0x3E, 0x13]
                            else if request[1] == 0x00 then [0x7E, 0x00]
                            else if request[1] == 0x80 then []
                            else [0x7F, 0x3E, 0x12])
            && after.security == e.security && after.session.current == Awake(e, clock).session.current
            && (|response| != 3 ==> after.session.lastActivity == clock.now)
  {
  }

  /** SecurityAccess answers what the seed/key machine answers to the one call that the sub-function asks for. */
  lemma SecurityAccessIsRead(c: Setup, e: Ecu, request: seq<u8>, h: Handler, clock: Clock, entropy: u32)
    requires |request| >= 2 && request[0] == 0x27 && Gate(Awake(e, clock), 0x27, h).None?
    ensures var (after, response) := ProcessOutcome(e, c.allowed, request, h, clock, entropy);
            var level := request[1];
            var (security, data) :=
              if level % 2 == 1 then Security.SeedOutcome(e.security, level, clock.now, entropy)
              else var (s, r) := Security.KeyOutcome(e.security, level, request[2..], clock.now);
                   (s, if r.Success? then Success([]) else Failure(r.error));
            && after == Awake(e, clock).(security := security)
            && Names(0x27, response, data.Success?)
            && ReadAnswer(response) == Some(if data.Success? then Success([level] + data.value) else data)
  {
    hide Security.SeedOutcome, Security.KeyOutcome;
    var level := request[1];
    if level % 2 == 1 {
      var r := Security.SeedOutcome(e.security, level, clock.now, entropy).1;
      if r.Failure? {
        NegativeIsRead(0x27, r.error);
      } else {
        assert ([0x67, level] + r.value)[1..] == [level] + r.value;
      }
    } else {
      var r := Security.KeyOutcome(e.security, level, request[2..], clock.now).1;
      if r.Failure? {
        NegativeIsRead(0x27, r.error);
      } else {
        assert [0x67, level][1..] == [level] + [];
      }
    }
  }

  /** A SecurityAccess without a sub-function is too short, and calls nothing. */
  lemma ShortSecurityAccessIsRead(c: Setup, e: Ecu, h: Handler, clock: Clock, entropy: u32)
    requires Gate(Awake(e, clock), 0x27, h).None?
    ensures ProcessOutcome(e, c.allowed, [0x27], h, clock, entropy) == (Awake(e, clock), [0x7F, 0x27, 0x13])
  {
  }
}
