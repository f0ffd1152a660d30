/**
 The request dispatcher (flxc1000-uds/src/dispatcher.rs): it gates a request on service, session and
 security level, serves 0x10, 0x27 and 0x3E itself and hands everything else to a service handler.
 */
module Dispatcher {
  import opened Wrappers
  import opened Words
  import opened NegativeResponses
  import opened Sessions
  import Security

  const S3_TIMEOUT: nat := 5000 * Security.MILLISECOND

  const DSC: u8 := 0x10
  const SECURITY_ACCESS: u8 := 0x27
  const TESTER_PRESENT: u8 := 0x3E

  /** A call a service handler makes on the state it is lent, through the public interface. */
  datatype HandlerCall =
    | OnSecurity(event: Security.Event)
    | OnTouch(now: nat)
    | OnTick(now: nat)
    | OnTransition(now: nat, session: Session)

  /**
   What the service handler answers while one request is processed. Nothing relates the answers for
   one request to those for another, so any handler, with any state of its own, is covered.
   */
  datatype Handler = Handler(
    supported: seq<u8>,
    allowed: seq<Session>,
    required: Option<u8>,
    calls: seq<HandlerCall>,
    outcome: Result<seq<u8>, Nrc>)

  datatype Ecu = Ecu(session: Sessions.State, security: Security.State)

  /** The clock readings of one request, in the order they are taken: by `touch`, by `tick`, by the service. */
  datatype Clock = Clock(touched: nat, ticked: nat, now: nat)

  // ---------------------------------------------------------------------------------------------
  // Specification

  /** The reason the gate turns a request away, if it does. */
  function Gate(e: Ecu, sid: u8, h: Handler): Option<Nrc> {
    if sid !in h.supported then Some(ServiceNotSupported)
    else if e.session.current !in h.allowed then Some(ConditionsNotCorrect)
    else if h.required.Some? && !Security.HasBit(e.security.unlocked, h.required.value) then Some(SecurityAccessDenied)
    else None
  }

  function DscOutcome(e: Ecu, allowed: seq<Session>, request: seq<u8>, now: nat): (Ecu, seq<u8>) {
    if |request| < 2 then
      (e, IncorrectMessageLengthOrInvalidFormat.Response(DSC))
    else
      var target := FromByte(request[1] & 0x7F);
      if target.None? || target.value !in allowed then
        (e, SubFunctionNotSupported.Response(DSC))
      else
        var security := if e.session.current != target.value && target.value == Default
                        then Security.Relocked(e.security) else e.security;
        (Ecu(Transitioned(e.session, allowed, target.value, now), security),
         if request[1] & 0x80 != 0 then [] else [0x50, request[1] & 0x7F, 0x00, 0x32, 0x01, 0xF4])
  }

  function SecurityAccessOutcome(e: Ecu, request: seq<u8>, now: nat, entropy: u32): (Ecu, seq<u8>) {
    if |request| < 2 then
      (e, IncorrectMessageLengthOrInvalidFormat.Response(SECURITY_ACCESS))
    else if request[1] % 2 == 1 then
      var (security, r) := Security.SeedOutcome(e.security, request[1], now, entropy);
      (e.(security := security),
       if r.Success? then [0x67, request[1]] + r.value else r.error.Response(SECURITY_ACCESS))
    else
      var (security, r) := Security.KeyOutcome(e.security, request[1], request[2..], now);
      (e.(security := security),
       if r.Success? then [0x67, request[1]] else r.error.Response(SECURITY_ACCESS))
  }

  function TesterPresentOutcome(e: Ecu, request: seq<u8>, now: nat): (Ecu, seq<u8>) {
    if |request| < 2 then
      (e, IncorrectMessageLengthOrInvalidFormat.Response(TESTER_PRESENT))
    else if request[1] & 0x7F != 0x00 then
      (e, SubFunctionNotSupported.Response(TESTER_PRESENT))
    else
      (e.(session := Touched(e.session, now)), if request[1] & 0x80 != 0 then [] else [0x7E, 0x00])
  }

  function HandlerStep(e: Ecu, allowed: seq<Session>, c: HandlerCall): Ecu {
    match c
    case OnSecurity(event) => e.(security := Security.Step(e.security, event))
    case OnTouch(now) => e.(session := Touched(e.session, now))
    case OnTick(now) => e.(session := Ticked(e.session, S3_TIMEOUT, now))
    case OnTransition(now, session) => e.(session := Transitioned(e.session, allowed, session, now))
  }

  function HandlerEffect(e: Ecu, allowed: seq<Session>, calls: seq<HandlerCall>): Ecu {
    if calls == [] then e
    else HandlerStep(HandlerEffect(e, allowed, calls[..|calls| - 1]), allowed, calls[|calls| - 1])
  }

  function HandlerOutcome(e: Ecu, allowed: seq<Session>, sid: u8, h: Handler): (Ecu, seq<u8>) {
    (HandlerEffect(e, allowed, h.calls),
     if h.outcome.Success? then [sid + 0x40] + h.outcome.value else h.outcome.error.Response(sid))
  }

  /** The state in which a request is gated: `touch`, then `tick`. */
  function Awake(e: Ecu, clock: Clock): Ecu {
    e.(session := Ticked(Touched(e.session, clock.touched), S3_TIMEOUT, clock.ticked))
  }

  function ProcessOutcome(e: Ecu, allowed: seq<Session>, request: seq<u8>, h: Handler,
                          clock: Clock, entropy: u32): (Ecu, seq<u8>)
  {
    var awake := Awake(e, clock);
    if request == [] then
      (awake, IncorrectMessageLengthOrInvalidFormat.Response(0x00))
    else
      var sid := request[0];
      var gate := Gate(awake, sid, h);
      if gate.Some? then (awake, gate.value.Response(sid))
      else if sid == DSC then DscOutcome(awake, allowed, request, clock.now)
      else if sid == SECURITY_ACCESS then SecurityAccessOutcome(awake, request, clock.now, entropy)
      else if sid == TESTER_PRESENT then TesterPresentOutcome(awake, request, clock.now)
      else HandlerOutcome(awake, allowed, sid, h)
  }

  // ---------------------------------------------------------------------------------------------
  // The dispatcher object

  class UdsDispatcher {
    const session: SessionState
    const security: Security.SecurityState

    predicate Valid()
      reads this
    {
      session.s3Timeout == S3_TIMEOUT
    }

    function View(): Ecu
      reads session, security
    {
      Ecu(session.View(), security.View())
    }

    constructor (allowed: seq<Session>, now: nat)
      ensures Valid() && fresh(session) && fresh(security)
      ensures View() == Ecu(State(Default, now), Security.FRESH) && session.allowed == allowed
    {
      session := new SessionState(allowed, S3_TIMEOUT, now);
      security := new Security.SecurityState();
    }

    method Process(request: seq<u8>, handler: Handler, clock: Clock, entropy: u32) returns (response: seq<u8>)
      requires Valid()
      modifies session, security
      ensures (View(), response) == ProcessOutcome(old(View()), session.allowed, request, handler, clock, entropy)
    {
      session.Touch(clock.touched);
      session.Tick(clock.ticked);
      if request == [] {
        return IncorrectMessageLengthOrInvalidFormat.Response(0x00);
      }
      var sid := request[0];
      if sid !in handler.supported {
        return ServiceNotSupported.Response(sid);
      }
      if session.current !in handler.allowed {
        return ConditionsNotCorrect.Response(sid);
      }
      if handler.required.Some? && !security.IsUnlocked(handler.required.value) {
        return SecurityAccessDenied.Response(sid);
      }
      if sid == DSC {
        response := HandleDsc(request, clock.now);
      } else if sid == SECURITY_ACCESS {
        response := HandleSecurityAccess(request, clock.now, entropy);
      } else if sid == TESTER_PRESENT {
        response := HandleTesterPresent(request, clock.now);
      } else {
        var outcome := Delegate(handler);
        if outcome.Success? {
          response := [sid + 0x40];
          response := response + outcome.value;
        } else {
          response := outcome.error.Response(sid);
        }
      }
    }

    method HandleDsc(request: seq<u8>, now: nat) returns (response: seq<u8>)
      modifies session, security
      ensures (View(), response) == DscOutcome(old(View()), session.allowed, request, now)
    {
      if |request| < 2 {
        return IncorrectMessageLengthOrInvalidFormat.Response(DSC);
      }
      var subfunc := request[1] & 0x7F;
      var suppress := request[1] & 0x80 != 0;
      var target := FromByte(subfunc);
      if target.None? || !session.IsAllowed(target.value) {
        return SubFunctionNotSupported.Response(DSC);
      }
      var prev := session.current;
      var _ := session.Transition(target.value, now);
      if prev != target.value && target.value == Default {
        security.Reset();
      }
      if suppress {
        return [];
      }
      return [0x50, subfunc, 0x00, 0x32, 0x01, 0xF4];
    }

    method HandleSecurityAccess(request: seq<u8>, now: nat, entropy: u32) returns (response: seq<u8>)
      modifies security
      ensures (View(), response) == SecurityAccessOutcome(old(View()), request, now, entropy)
    {
      if |request| < 2 {
        return IncorrectMessageLengthOrInvalidFormat.Response(SECURITY_ACCESS);
      }
      var subfunc := request[1];
      if subfunc % 2 == 1 {
        var seed := security.RequestSeed(subfunc, now, entropy);
        if seed.Failure? {
          return seed.error.Response(SECURITY_ACCESS);
        }
        response := [0x67, subfunc];
        response := response + seed.value;
      } else {
        var granted := security.SubmitKey(subfunc, request[2..], now);
        if granted.Failure? {
          return granted.error.Response(SECURITY_ACCESS);
        }
        response := [0x67, subfunc];
      }
    }

    method HandleTesterPresent(request: seq<u8>, now: nat) returns (response: seq<u8>)
      modifies session
      ensures (View(), response) == TesterPresentOutcome(old(View()), request, now)
    {
      if |request| < 2 {
        return IncorrectMessageLengthOrInvalidFormat.Response(TESTER_PRESENT);
      }
      var suppress := request[1] & 0x80 != 0;
      if request[1] & 0x7F != 0x00 {
        return SubFunctionNotSupported.Response(TESTER_PRESENT);
      }
      session.Touch(now);
      if suppress {
        return [];
      }
      return [0x7E, 0x00];
    }

    /** `ServiceHandler::handle`: the calls the handler makes, in order, and its answer. */
    method Delegate(handler: Handler) returns (outcome: Result<seq<u8>, Nrc>)
      requires Valid()
      modifies session, security
      ensures View() == HandlerEffect(old(View()), session.allowed, handler.calls)
      ensures outcome == handler.outcome
    {
      var calls := handler.calls;
      for n := 0 to |calls|
        invariant View() == HandlerEffect(old(View()), session.allowed, calls[..n])
      {
        assert calls[..n + 1][..n] == calls[..n];
        match calls[n]
        case OnSecurity(event) =>
          match event.call {
            case Seed(level, entropy) => var _ := security.RequestSeed(level, event.now, entropy);
            case Key(level, key) => var _ := security.SubmitKey(level, key, event.now);
            case Relock => security.Reset();
          }
        case OnTouch(now) => session.Touch(now);
        case OnTick(now) => session.Tick(now);
        case OnTransition(now, target) => var _ := session.Transition(target, now);
      }
      assert calls[..|calls|] == calls;
      outcome := handler.outcome;
    }

    method Tick(now: nat)
      requires Valid()
      modifies session
      ensures View() == old(View()).(session := Ticked(old(View()).session, S3_TIMEOUT, now))
    {
      session.Tick(now);
    }
  }
}
