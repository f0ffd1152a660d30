/** The messages a DoIP entity sends and the two it takes in (flxc1000-doip/src/message.rs). */
module Messages {
  import opened Wrappers
  import opened Octets
  import opened Header
  import opened Framing

  const ROUTING_SUCCESS: byte := 0x10
  const UNKNOWN_TARGET_ADDRESS: byte := 0x03

  /** The reserved field of a routing activation response. */
  const ZERO: U32 := U32(0, 0, 0, 0)

  datatype Message =
    | ActivationResponse(tester: U16, entity: U16, responseCode: byte, reserved: U32)
    | Diagnostic(source: U16, target: U16, userData: seq<byte>)
    | Ack(source: U16, target: U16, ackCode: byte)
    | Nack(source: U16, target: U16, nackCode: byte)
    | AliveResponse(source: U16)

  function TypeOf(m: Message): PayloadType {
    match m
    case ActivationResponse(_, _, _, _) => RoutingActivationResponse
    case Diagnostic(_, _, _) => DiagnosticMessage
    case Ack(_, _, _) => DiagnosticMessagePositiveAck
    case Nack(_, _, _) => DiagnosticMessageNegativeAck
    case AliveResponse(_) => AliveCheckResponse
  }

  function Payload(m: Message): seq<byte> {
    match m
    case ActivationResponse(tester, entity, code, reserved) =>
      tester.Bytes() + entity.Bytes() + [code] + reserved.Bytes()
    case Diagnostic(source, target, userData) => source.Bytes() + target.Bytes() + userData
    case Ack(source, target, code) => source.Bytes() + target.Bytes() + [code]
    case Nack(source, target, code) => source.Bytes() + target.Bytes() + [code]
    case AliveResponse(source) => source.Bytes()
  }

  /** `payload_len as u32` keeps the low 32 bits of the length. */
  function DeclaredLength(m: Message): U32 {
    ToU32(|Payload(m)|)
  }

  /** The length field can hold the length of the payload. */
  predicate Fits(m: Message) {
    |Payload(m)| < 0x1_0000_0000
  }

  function FrameOf(m: Message): Frame {
    Frame(NewHeader(TypeOf(m), DeclaredLength(m)), Payload(m))
  }

  /** The `encode` functions: a buffer that grows by one field at a time. */
  method Encode(m: Message) returns (buf: seq<byte>)
    ensures buf == FrameBytes(FrameOf(m))
  {
    hide ToU32, DeclaredLength;
    buf := NewHeader(TypeOf(m), DeclaredLength(m)).Encode();
    match m {
      case ActivationResponse(tester, entity, code, reserved) =>
        buf := buf + tester.Bytes();
        buf := buf + entity.Bytes();
        buf := buf + [code];
        buf := buf + reserved.Bytes();
      case Diagnostic(source, target, userData) =>
        buf := buf + source.Bytes();
        buf := buf + target.Bytes();
        buf := buf + userData;
      case Ack(source, target, code) =>
        buf := buf + source.Bytes();
        buf := buf + target.Bytes();
        buf := buf + [code];
      case Nack(source, target, code) =>
        buf := buf + source.Bytes();
        buf := buf + target.Bytes();
        buf := buf + [code];
      case AliveResponse(source) =>
        buf := buf + source.Bytes();
    }
  }

  /** A routing activation request as a tester sends it; bytes after the seventh are ignored. */
  datatype Activation = Activation(source: U16, activationType: byte, reserved: U32)

  function ParseActivation(payload: seq<byte>): Option<Activation> {
    if |payload| < 7 then None
    else
      var reserved := U32(payload[3], payload[4], payload[5], payload[6]);
      Some(Activation(U16(payload[0], payload[1]), payload[2], reserved))
  }

  /** A payload parses as an activation exactly when it begins with that activation, field by field. */
  lemma ParseActivationInvertsFields(payload: seq<byte>, a: Activation)
    ensures ParseActivation(payload) == Some(a)
            <==> |payload| >= 7 && payload[..7] == a.source.Bytes() + [a.activationType] + a.reserved.Bytes()
  {
    if |payload| >= 7 {
      assert payload[..7] == [payload[0], payload[1]] + [payload[2]] + [payload[3], payload[4], payload[5], payload[6]];
    }
  }

  function ParseDiagnostic(payload: seq<byte>): (m: Option<Message>)
    ensures m.Some? ==> m.value.Diagnostic?
  {
    if |payload| < 4 then None
    else Some(Diagnostic(U16(payload[0], payload[1]), U16(payload[2], payload[3]), payload[4..]))
  }

  /** A payload parses as a diagnostic message exactly when it is the payload of that message. */
  lemma ParseDiagnosticInvertsPayload(payload: seq<byte>, m: Message)
    requires m.Diagnostic?
    ensures ParseDiagnostic(payload) == Some(m) <==> payload == Payload(m)
  {
    if |payload| >= 4 {
      assert payload == [payload[0], payload[1]] + [payload[2], payload[3]] + payload[4..];
    }
  }

  /** How a tester reads a frame: the reference the encoders are held against. */
  function Decode(f: Frame): Option<Message> {
    var p := f.payload;
    match FromU16(f.header.payloadType)
    case Some(RoutingActivationResponse) =>
      if |p| != 9 then None
      else
        var reserved := U32(p[5], p[6], p[7], p[8]);
        Some(ActivationResponse(U16(p[0], p[1]), U16(p[2], p[3]), p[4], reserved))
    case Some(DiagnosticMessage) => ParseDiagnostic(p)
    case Some(DiagnosticMessagePositiveAck) =>
      if |p| != 5 then None else Some(Ack(U16(p[0], p[1]), U16(p[2], p[3]), p[4]))
    case Some(DiagnosticMessageNegativeAck) =>
      if |p| != 5 then None else Some(Nack(U16(p[0], p[1]), U16(p[2], p[3]), p[4]))
    case Some(AliveCheckResponse) => if |p| != 2 then None else Some(AliveResponse(U16(p[0], p[1])))
    case _ => None
  }

  lemma DecodeInvertsFrameOf(m: Message)
    ensures Decode(FrameOf(m)) == Some(m)
  {
    PayloadTypeCodes(TypeOf(m).AsU16(), TypeOf(m));
  }

  lemma FrameIsWholeIffFits(m: Message)
    ensures Whole(FrameOf(m)) <==> Fits(m)
  {
    hide ToU32;
  }

  /** One message de-frames to itself exactly when its length fits the header's 32 bits. */
  lemma EncodingDeframesIffItFits(m: Message)
    ensures Frames(FrameBytes(FrameOf(m))) == [FrameOf(m)] && Residue(FrameBytes(FrameOf(m))) == [] <==> Fits(m)
  {
    hide FrameOf, Fits;
    FrameIsWholeIffFits(m);
    FrameIsFoundIffWhole(FrameOf(m));
  }
}
