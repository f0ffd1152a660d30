/** The generic DoIP header of ISO 13400-2:2012 (flxc1000-doip/src/header.rs). */
module Header {
  import opened Wrappers
  import opened Octets

  const PROTOCOL_VERSION: byte := 0x02
  const INVERSE_VERSION: byte := 0xFD

  const HEADER_SIZE: nat := 8

  datatype PayloadType =
    | VehicleIdentificationRequest
    | VehicleIdentificationRequestEid
    | VehicleIdentificationRequestVin
    | VehicleAnnouncementMessage
    | RoutingActivationRequest
    | RoutingActivationResponse
    | AliveCheckRequest
    | AliveCheckResponse
    | DiagnosticMessage
    | DiagnosticMessagePositiveAck
    | DiagnosticMessageNegativeAck
  {
    function AsU16(): U16 {
      match this
      case VehicleIdentificationRequest => U16(0x00, 0x01)
      case VehicleIdentificationRequestEid => U16(0x00, 0x02)
      case VehicleIdentificationRequestVin => U16(0x00, 0x03)
      case VehicleAnnouncementMessage => U16(0x00, 0x04)
      case RoutingActivationRequest => U16(0x00, 0x05)
      case RoutingActivationResponse => U16(0x00, 0x06)
      case AliveCheckRequest => U16(0x00, 0x07)
      case AliveCheckResponse => U16(0x00, 0x08)
      case DiagnosticMessage => U16(0x80, 0x01)
      case DiagnosticMessagePositiveAck => U16(0x80, 0x02)
      case DiagnosticMessageNegativeAck => U16(0x80, 0x03)
    }
  }

  function FromU16(v: U16): Option<PayloadType> {
    match v
    case U16(0x00, 0x01) => Some(VehicleIdentificationRequest)
    case U16(0x00, 0x02) => Some(VehicleIdentificationRequestEid)
    case U16(0x00, 0x03) => Some(VehicleIdentificationRequestVin)
    case U16(0x00, 0x04) => Some(VehicleAnnouncementMessage)
    case U16(0x00, 0x05) => Some(RoutingActivationRequest)
    case U16(0x00, 0x06) => Some(RoutingActivationResponse)
    case U16(0x00, 0x07) => Some(AliveCheckRequest)
    case U16(0x00, 0x08) => Some(AliveCheckResponse)
    case U16(0x80, 0x01) => Some(DiagnosticMessage)
    case U16(0x80, 0x02) => Some(DiagnosticMessagePositiveAck)
    case U16(0x80, 0x03) => Some(DiagnosticMessageNegativeAck)
    case _ => None
  }

  /** The two mappings are inverse to each other. */
  lemma PayloadTypeCodes(v: U16, t: PayloadType)
    ensures FromU16(v) == Some(t) <==> v == t.AsU16()
  {
  }

  datatype DoipHeader = DoipHeader(protocolVersion: byte, inverseVersion: byte, payloadType: U16, payloadLength: U32) {

    function Encode(): (b: seq<byte>)
      ensures |b| == HEADER_SIZE
    {
      [protocolVersion, inverseVersion] + payloadType.Bytes() + payloadLength.Bytes()
    }
  }

  function NewHeader(t: PayloadType, payloadLength: U32): DoipHeader {
    DoipHeader(PROTOCOL_VERSION, INVERSE_VERSION, t.AsU16(), payloadLength)
  }

  function ParseHeader(data: seq<byte>): Option<DoipHeader> {
    if |data| < HEADER_SIZE then None
    else
      var length := U32(data[4], data[5], data[6], data[7]);
      Some(DoipHeader(data[0], data[1], U16(data[2], data[3]), length))
  }

  /** A header is read back from whatever buffer starts with its encoding. */
  lemma ParseEncodedHeader(h: DoipHeader, rest: seq<byte>)
    ensures ParseHeader(h.Encode() + rest) == Some(h)
  {
  }

  /** Whatever parses is the encoding of what it parses to. */
  lemma EncodeParsedHeader(data: seq<byte>)
    requires |data| >= HEADER_SIZE
    ensures ParseHeader(data).value.Encode() == data[..HEADER_SIZE]
  {
  }
}
