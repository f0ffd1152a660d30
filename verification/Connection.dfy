/**
 One DoIP TCP connection (flxc1000-doip/src/connection.rs): the receive loop, the activation state and
 the handling of each frame. What the outside world does (how much of a write the socket takes, whether
 the request queue is still open, what the UDS side replies) is an arbitrary environment.
 */
module Connection {
  import opened Wrappers
  import opened Octets
  import opened Header
  import opened Framing
  import opened Messages

  const FUNCTIONAL_ADDRESS: U16 := U16(0xFF, 0xFF)

  datatype UdsRequest = UdsRequest(source: U16, target: U16, data: seq<byte>)

  datatype LinkState = AwaitingActivation | Active(tester: U16)

  /** What a connection does to the outside, in order. */
  datatype Action = Sent(message: Message) | Forwarded(request: UdsRequest)

  /** The connection's state, the actions it has completed and the bytes the socket has taken. */
  datatype Link = Link(state: LinkState, log: seq<Action>, output: seq<byte>)

  const NEW_LINK := Link(AwaitingActivation, [], [])

  /**
   The outside world, asked at most once at each length of the log: the bytes the socket takes of a
   write (a write fails when that is less than the message), whether the queue accepts a request, and the
   reply to a request (none when the UDS side drops the reply channel).
   */
  datatype Environment = Environment(
    accepts: nat -> nat,
    isOpen: nat -> bool,
    reply: nat -> Option<seq<byte>>)

  // ---------------------------------------------------------------------------------------------
  // Specification: a result of false is an error, which ends the connection

  function Write(env: Environment, l: Link, m: Message): (Link, bool) {
    var bytes := FrameBytes(FrameOf(m));
    var taken := env.accepts(|l.log|);
    if taken >= |bytes| then (l.(log := l.log + [Sent(m)], output := l.output + bytes), true)
    else (l.(output := l.output + bytes[..taken]), false)
  }

  function Activate(env: Environment, ecu: U16, l: Link, payload: seq<byte>): (Link, bool) {
    match ParseActivation(payload)
    case None => (l, false)
    case Some(a) =>
      var (l, ok) := Write(env, l, ActivationResponse(a.source, ecu, ROUTING_SUCCESS, ZERO));
      (if ok then l.(state := Active(a.source)) else l, ok)
  }

  function Diagnose(env: Environment, ecu: U16, l: Link, payload: seq<byte>): (Link, bool) {
    if l.state.AwaitingActivation? then (l, true)
    else
      match ParseDiagnostic(payload)
      case None => (l, false)
      case Some(m) =>
        if m.target != ecu && m.target != FUNCTIONAL_ADDRESS then
          Write(env, l, Nack(ecu, m.source, UNKNOWN_TARGET_ADDRESS))
        else
          var (acked, ok) := Write(env, l, Ack(ecu, m.source, 0x00));
          if !ok || !env.isOpen(|acked.log|) then (acked, false)
          else
            var asked := acked.(log := acked.log + [Forwarded(UdsRequest(m.source, m.target, m.userData))]);
            var reply := env.reply(|asked.log|).GetOr([]);
            if reply == [] then (asked, true)
            else Write(env, asked, Diagnostic(ecu, l.state.tester, reply))
  }

  function HandleFrame(env: Environment, ecu: U16, l: Link, f: Frame): (Link, bool) {
    match FromU16(f.header.payloadType)
    case Some(RoutingActivationRequest) => Activate(env, ecu, l, f.payload)
    case Some(DiagnosticMessage) => Diagnose(env, ecu, l, f.payload)
    case Some(AliveCheckRequest) => Write(env, l, AliveResponse(ecu))
    case _ => (l, true)
  }

  /** Frames one after the other, up to the first error. */
  function HandleFrames(env: Environment, ecu: U16, l: Link, fs: seq<Frame>): (Link, bool)
    decreases |fs|
  {
    if fs == [] then (l, true)
    else
      var (next, ok) := HandleFrame(env, ecu, l, fs[0]);
      if ok then HandleFrames(env, ecu, next, fs[1..]) else (next, false)
  }

  /** Reads one after the other, each decomposed by itself, up to the first error. */
  function Serve(env: Environment, ecu: U16, l: Link, received: seq<seq<byte>>): (Link, bool)
    decreases |received|
  {
    if received == [] then (l, true)
    else
      var (next, ok) := HandleFrames(env, ecu, l, Frames(received[0]));
      if ok then Serve(env, ecu, next, received[1..]) else (next, false)
  }

  // ---------------------------------------------------------------------------------------------
  // The connection task

  class ConnectionTask {
    const ecu: U16
    const env: Environment
    var state: LinkState
    var log: seq<Action>
    var output: seq<byte>

    function View(): Link
      reads this
    {
      Link(state, log, output)
    }

    constructor (ecu: U16, env: Environment)
      ensures View() == NEW_LINK && this.ecu == ecu && this.env == env
    {
      this.ecu, this.env, state, log, output := ecu, env, AwaitingActivation, [], [];
    }

    method HandleConnection(received: seq<seq<byte>>) returns (ok: bool)
      modifies this
      ensures (View(), ok) == Serve(env, ecu, old(View()), received)
    {
      hide HandleFrames, Frames;
      ok := true;
      var n := 0;
      while n < |received| && ok
        invariant n <= |received|
        invariant if ok then Serve(env, ecu, old(View()), received) == Serve(env, ecu, View(), received[n..])
                  else Serve(env, ecu, old(View()), received) == (View(), false)
      {
        assert received[n..][1..] == received[n + 1..];
        ok := ProcessTcpData(received[n]);
        n := n + 1;
      }
    }

    method ProcessTcpData(data: seq<byte>) returns (ok: bool)
      modifies this
      ensures (View(), ok) == HandleFrames(env, ecu, old(View()), Frames(data))
    {
      hide HandleFrame, Frames;
      var offset := 0;
      while offset + HEADER_SIZE <= |data|
        invariant offset <= |data|
        invariant HandleFrames(env, ecu, old(View()), Frames(data))
                  == HandleFrames(env, ecu, View(), Frames(data[offset..]))
      {
        var rest := data[offset..];
        var header := ParseHeader(rest).value;
        var totalLen := HEADER_SIZE + header.payloadLength.Value();
        FramesUnfold(rest);
        if offset + totalLen > |data| {
          break;
        }
        var payload := data[offset + HEADER_SIZE..offset + totalLen];
        assert payload == rest[HEADER_SIZE..totalLen] && rest[totalLen..] == data[offset + totalLen..];
        ok := HandlePayload(header, payload);
        if !ok {
          return false;
        }
        offset := offset + totalLen;
      }
      FramesUnfold(data[offset..]);
      return true;
    }

    method HandlePayload(header: DoipHeader, payload: seq<byte>) returns (ok: bool)
      modifies this
      ensures (View(), ok) == HandleFrame(env, ecu, old(View()), Frame(header, payload))
    {
      hide Activate, Diagnose, Write;
      match FromU16(header.payloadType) {
        case Some(RoutingActivationRequest) => ok := HandleRoutingActivation(payload);
        case Some(DiagnosticMessage) => ok := HandleDiagnosticMessage(payload);
        case Some(AliveCheckRequest) => ok := WriteAll(AliveResponse(ecu));
        case _ => ok := true;
      }
    }

    method HandleRoutingActivation(payload: seq<byte>) returns (ok: bool)
      modifies this
      ensures (View(), ok) == Activate(env, ecu, old(View()), payload)
    {
      hide Write;
      var request := ParseActivation(payload);
      if request.None? {
        return false;
      }
      ok := WriteAll(ActivationResponse(request.value.source, ecu, ROUTING_SUCCESS, ZERO));
      if ok {
        state := Active(request.value.source);
      }
    }

    method HandleDiagnosticMessage(payload: seq<byte>) returns (ok: bool)
      modifies this
      ensures (View(), ok) == Diagnose(env, ecu, old(View()), payload)
    {
      hide Write;
      if state.AwaitingActivation? {
        return true;
      }
      var tester := state.tester;
      var parsed := ParseDiagnostic(payload);
      if parsed.None? {
        return false;
      }
      var msg := parsed.value;
      if msg.target != ecu && msg.target != FUNCTIONAL_ADDRESS {
        ok := WriteAll(Nack(ecu, msg.source, UNKNOWN_TARGET_ADDRESS));
        return;
      }
      ok := WriteAll(Ack(ecu, msg.source, 0x00));
      if !ok {
        return;
      }
      if !env.isOpen(|log|) {
        return false;
      }
      log := log + [Forwarded(UdsRequest(msg.source, msg.target, msg.userData))];
      var reply := env.reply(|log|);
      if reply.Some? && reply.value != [] {
        ok := WriteAll(Diagnostic(ecu, tester, reply.value));
      }
    }

    method WriteAll(m: Message) returns (ok: bool)
      modifies this
      ensures (View(), ok) == Write(env, old(View()), m)
    {
      hide Payload;
      var bytes := Encode(m);
      var taken := env.accepts(|log|);
      if taken < |bytes| {
        output := output + bytes[..taken];
        return false;
      }
      output := output + bytes;
      log := log + [Sent(m)];
      return true;
    }
  }
}
