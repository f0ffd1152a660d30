/**
 What goes over the wire, byte by byte: for each kind of frame a tester can send, the bytes it gets back. The
 numbers are those of ISO 13400-2.
 */
module OnTheWire {
  import opened Wrappers
  import opened Octets
  import opened Header
  import opened Framing
  import opened Messages
  import opened Connection
  import opened ConnectionRuns

  /** A frame as a tester sends it, whatever version its header claims. */
  function Request(v: byte, w: byte, kind: seq<byte>, length: U32, payload: seq<byte>): seq<byte> {
    [v, w] + kind + length.Bytes() + payload
  }

  lemma SmallLength(n: byte)
    ensures ToU32(n) == U32(0, 0, 0, n)
  {
  }

  lemma RequestIsOneFrame(v: byte, w: byte, kind: U16, length: U32, payload: seq<byte>)
    requires length.Value() == |payload|
    ensures Frames(Request(v, w, kind.Bytes(), length, payload)) == [Frame(DoipHeader(v, w, kind, length), payload)]
  {
    hide Frames, Residue;
    var f := Frame(DoipHeader(v, w, kind, length), payload);
    assert Request(v, w, kind.Bytes(), length, payload) == FrameBytes(f);
    FrameIsFoundIffWhole(f);
  }

  lemma OneFrameIsHandled(env: Environment, ecu: U16, l: Link, v: byte, w: byte, kind: U16, length: U32,
                          payload: seq<byte>)
    requires length.Value() == |payload|
    ensures HandleFrames(env, ecu, l, Frames(Request(v, w, kind.Bytes(), length, payload)))
            == HandleFrame(env, ecu, l, Frame(DoipHeader(v, w, kind, length), payload))
  {
    hide HandleFrames, HandleFrame, Frames;
    RequestIsOneFrame(v, w, kind, length, payload);
    OneFrame(env, ecu, l, Frame(DoipHeader(v, w, kind, length), payload));
  }

  // The answers, byte by byte

  lemma ActivationResponseBytes(tester: U16, ecu: U16)
    ensures FrameBytes(FrameOf(ActivationResponse(tester, ecu, ROUTING_SUCCESS, ZERO)))
            == [0x02, 0xFD, 0x00, 0x06, 0, 0, 0, 9] + tester.Bytes() + ecu.Bytes() + [0x10, 0, 0, 0, 0]
  {
    hide ToU32;
    SmallLength(9);
  }

  lemma AliveResponseBytes(ecu: U16)
    ensures FrameBytes(FrameOf(AliveResponse(ecu))) == [0x02, 0xFD, 0x00, 0x08, 0, 0, 0, 2] + ecu.Bytes()
  {
    hide ToU32;
    SmallLength(2);
  }

  lemma AckBytes(ecu: U16, source: U16)
    ensures FrameBytes(FrameOf(Ack(ecu, source, 0x00)))
            == [0x02, 0xFD, 0x80, 0x02, 0, 0, 0, 5] + ecu.Bytes() + source.Bytes() + [0x00]
    ensures FrameBytes(FrameOf(Nack(ecu, source, UNKNOWN_TARGET_ADDRESS)))
            == [0x02, 0xFD, 0x80, 0x03, 0, 0, 0, 5] + ecu.Bytes() + source.Bytes() + [0x03]
  {
    hide ToU32;
    SmallLength(5);
  }

  lemma ResponseBytes(ecu: U16, tester: U16, data: seq<byte>)
    ensures FrameBytes(FrameOf(Diagnostic(ecu, tester, data)))
            == [0x02, 0xFD, 0x80, 0x01] + ToU32(4 + |data|).Bytes() + ecu.Bytes() + tester.Bytes() + data
  {
    hide ToU32;
  }

  // The exchanges

  /** A routing activation request is confirmed to the address it comes from, and activates that. */
  lemma ActivationExchange(env: Environment, ecu: U16, l: Link, v: byte, w: byte, source: U16, kind: byte,
                           reserved: U32)
    requires env.accepts(|l.log|) >= 17
    ensures var data := Request(v, w, [0x00, 0x05], U32(0, 0, 0, 7), source.Bytes() + [kind] + reserved.Bytes());
            var (next, ok) := HandleFrames(env, ecu, l, Frames(data));
            && ok && next.state == Active(source)
            && next.output == l.output + [0x02, 0xFD, 0x00, 0x06, 0, 0, 0, 9] + source.Bytes() + ecu.Bytes()
                              + [0x10, 0, 0, 0, 0]
  {
    hide HandleFrames, Frames, FrameBytes, ParseActivation;
    var payload := source.Bytes() + [kind] + reserved.Bytes();
    OneFrameIsHandled(env, ecu, l, v, w, U16(0x00, 0x05), U32(0, 0, 0, 7), payload);
    assert payload[..7] == payload;
    ParseActivationInvertsFields(payload, Activation(source, kind, reserved));
    ActivationResponseBytes(source, ecu);
  }

  lemma AliveFrameIsAnswered(env: Environment, ecu: U16, l: Link, f: Frame)
    requires f.header.payloadType == U16(0x00, 0x07)
    ensures HandleFrame(env, ecu, l, f) == Write(env, l, AliveResponse(ecu))
  {
    hide Write;
  }

  /** A write that the socket cuts off leaves what it took on the wire, nothing else, and ends the connection. */
  lemma CutAliveCheckExchange(env: Environment, ecu: U16, l: Link, v: byte, w: byte, length: U32, payload: seq<byte>)
    requires length.Value() == |payload| && env.accepts(|l.log|) < 10
    ensures var (next, ok) := HandleFrames(env, ecu, l, Frames(Request(v, w, [0x00, 0x07], length, payload)));
            var answer := [0x02, 0xFD, 0x00, 0x08, 0, 0, 0, 2] + ecu.Bytes();
            !ok && next == l.(output := l.output + answer[..env.accepts(|l.log|)])
  {
    hide HandleFrames, HandleFrame, Frames, FrameBytes, Request;
    var f := Frame(DoipHeader(v, w, U16(0x00, 0x07), length), payload);
    OneFrameIsHandled(env, ecu, l, v, w, U16(0x00, 0x07), length, payload);
    AliveFrameIsAnswered(env, ecu, l, f);
    AliveResponseBytes(ecu);
  }

  /** An activation whose answer is cut off does not activate. */
  lemma CutActivationExchange(env: Environment, ecu: U16, l: Link, v: byte, w: byte, source: U16, kind: byte,
                              reserved: U32)
    requires env.accepts(|l.log|) < 17
    ensures var data := Request(v, w, [0x00, 0x05], U32(0, 0, 0, 7), source.Bytes() + [kind] + reserved.Bytes());
            var answer := [0x02, 0xFD, 0x00, 0x06, 0, 0, 0, 9] + source.Bytes() + ecu.Bytes() + [0x10, 0, 0, 0, 0];
            HandleFrames(env, ecu, l, Frames(data))
            == (l.(output := l.output + answer[..env.accepts(|l.log|)]), false)
  {
    hide HandleFrames, Frames, FrameBytes, ParseActivation;
    var payload := source.Bytes() + [kind] + reserved.Bytes();
    OneFrameIsHandled(env, ecu, l, v, w, U16(0x00, 0x05), U32(0, 0, 0, 7), payload);
    assert payload[..7] == payload;
    ParseActivationInvertsFields(payload, Activation(source, kind, reserved));
    ActivationResponseBytes(source, ecu);
  }

  /** An alive check is answered, whether a tester is activated or not. */
  lemma AliveCheckExchange(env: Environment, ecu: U16, l: Link, v: byte, w: byte, length: U32, payload: seq<byte>)
    requires length.Value() == |payload| && env.accepts(|l.log|) >= 10
    ensures var (next, ok) := HandleFrames(env, ecu, l, Frames(Request(v, w, [0x00, 0x07], length, payload)));
            && ok && next.state == l.state
            && next.output == l.output + [0x02, 0xFD, 0x00, 0x08, 0, 0, 0, 2] + ecu.Bytes()
  {
    hide HandleFrames, HandleFrame, Frames, FrameBytes, Request;
    var f := Frame(DoipHeader(v, w, U16(0x00, 0x07), length), payload);
    OneFrameIsHandled(env, ecu, l, v, w, U16(0x00, 0x07), length, payload);
    AliveFrameIsAnswered(env, ecu, l, f);
    AliveResponseBytes(ecu);
  }

  lemma DiagnosticFrameIsDiagnosed(env: Environment, ecu: U16, l: Link, f: Frame, source: U16, target: U16,
                                   data: seq<byte>)
    requires f.header.payloadType == U16(0x80, 0x01) && f.payload == source.Bytes() + target.Bytes() + data
    ensures HandleFrame(env, ecu, l, f) == Diagnose(env, ecu, l, f.payload)
    ensures ParseDiagnostic(f.payload) == Some(Diagnostic(source, target, data))
  {
    hide Diagnose, ParseDiagnostic;
    ParseDiagnosticInvertsPayload(f.payload, Diagnostic(source, target, data));
  }

  /** Before an activation a diagnostic message, well formed or not, is passed over in silence. */
  lemma SilentExchange(env: Environment, ecu: U16, l: Link, v: byte, w: byte, length: U32, payload: seq<byte>)
    requires l.state.AwaitingActivation? && length.Value() == |payload|
    ensures HandleFrames(env, ecu, l, Frames(Request(v, w, [0x80, 0x01], length, payload))) == (l, true)
  {
    hide HandleFrames, Frames, Request;
    OneFrameIsHandled(env, ecu, l, v, w, U16(0x80, 0x01), length, payload);
  }

  /** A message for another address is refused with code 3, to the address it comes from. */
  lemma RefusedExchange(env: Environment, ecu: U16, l: Link, v: byte, w: byte, length: U32,
                        source: U16, target: U16, data: seq<byte>)
    requires l.state.Active? && target != ecu && target != U16(0xFF, 0xFF) && env.accepts(|l.log|) >= 13
    requires length.Value() == |source.Bytes() + target.Bytes() + data|
    ensures var payload := source.Bytes() + target.Bytes() + data;
            var (next, ok) := HandleFrames(env, ecu, l, Frames(Request(v, w, [0x80, 0x01], length, payload)));
            && ok && next.state == l.state
            && next.output == l.output + [0x02, 0xFD, 0x80, 0x03, 0, 0, 0, 5] + ecu.Bytes() + source.Bytes() + [0x03]
  {
    hide HandleFrames, HandleFrame, Frames, FrameBytes, Request, ParseDiagnostic;
    var payload := source.Bytes() + target.Bytes() + data;
    OneFrameIsHandled(env, ecu, l, v, w, U16(0x80, 0x01), length, payload);
    DiagnosticFrameIsDiagnosed(env, ecu, l, Frame(DoipHeader(v, w, U16(0x80, 0x01), length), payload),
                               source, target, data);
    AckBytes(ecu, source);
  }

  /** An acknowledgement, the request, and a response if the reply is not empty. */
  lemma DiagnosisRelays(env: Environment, ecu: U16, l: Link, payload: seq<byte>, m: Message, reply: seq<byte>)
    requires l.state.Active? && ParseDiagnostic(payload) == Some(m) && m.target in {ecu, FUNCTIONAL_ADDRESS}
    requires env.accepts(|l.log|) >= |FrameBytes(FrameOf(Ack(ecu, m.source, 0x00)))|
    requires env.isOpen(|l.log| + 1) && env.reply(|l.log| + 2) == Some(reply)
    requires env.accepts(|l.log| + 2) >= |FrameBytes(FrameOf(Diagnostic(ecu, l.state.tester, reply)))|
    ensures var ack, response := Ack(ecu, m.source, 0x00), Diagnostic(ecu, l.state.tester, reply);
            var (next, ok) := Diagnose(env, ecu, l, payload);
            && ok && next.state == l.state
            && l.log + [Sent(ack), Forwarded(UdsRequest(m.source, m.target, m.userData))] <= next.log
            && next.output == l.output + FrameBytes(FrameOf(ack))
                              + if reply == [] then [] else FrameBytes(FrameOf(response))
  {
    hide FrameBytes, FrameOf, ParseDiagnostic;
    var asked := l.log + [Sent(Ack(ecu, m.source, 0x00))] + [Forwarded(UdsRequest(m.source, m.target, m.userData))];
    assert asked == l.log + [Sent(Ack(ecu, m.source, 0x00)), Forwarded(UdsRequest(m.source, m.target, m.userData))];
  }

  /**
   A message for the ECU, or for all, is acknowledged to the address it comes from and forwarded, and a reply
   that is not empty is sent to the activated tester.
   */
  lemma RelayedExchange(env: Environment, ecu: U16, l: Link, v: byte, w: byte, length: U32,
                        source: U16, target: U16, data: seq<byte>, reply: seq<byte>)
    requires l.state.Active? && (target == ecu || target == U16(0xFF, 0xFF))
    requires length.Value() == |source.Bytes() + target.Bytes() + data|
    requires env.accepts(|l.log|) >= 13 && env.isOpen(|l.log| + 1) && env.reply(|l.log| + 2) == Some(reply)
    requires env.accepts(|l.log| + 2) >= 12 + |reply|
    ensures var payload := source.Bytes() + target.Bytes() + data;
            var (next, ok) := HandleFrames(env, ecu, l, Frames(Request(v, w, [0x80, 0x01], length, payload)));
            var ack := [0x02, 0xFD, 0x80, 0x02, 0, 0, 0, 5] + ecu.Bytes() + source.Bytes() + [0x00];
            var response := [0x02, 0xFD, 0x80, 0x01] + ToU32(4 + |reply|).Bytes() + ecu.Bytes()
                            + l.state.tester.Bytes() + reply;
            && ok && next.state == l.state
            && l.log + [Sent(Ack(ecu, source, 0x00)), Forwarded(UdsRequest(source, target, data))] <= next.log
            && next.output == l.output + ack + if reply == [] then [] else response
  {
    hide HandleFrames, HandleFrame, Frames, FrameBytes, Request, ParseDiagnostic, ToU32;
    var payload := source.Bytes() + target.Bytes() + data;
    OneFrameIsHandled(env, ecu, l, v, w, U16(0x80, 0x01), length, payload);
    DiagnosticFrameIsDiagnosed(env, ecu, l, Frame(DoipHeader(v, w, U16(0x80, 0x01), length), payload),
                               source, target, data);
    AckBytes(ecu, source);
    ResponseBytes(ecu, l.state.tester, reply);
    hide FrameOf, Diagnose;
    DiagnosisRelays(env, ecu, l, payload, Diagnostic(source, target, data), reply);
  }
}
