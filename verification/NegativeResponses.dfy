/** Negative response codes of ISO 14229-1 and the three-byte answer that carries one. */
module NegativeResponses {
  import opened Wrappers
  import opened Words

  datatype Nrc =
    | ServiceNotSupported
    | SubFunctionNotSupported
    | IncorrectMessageLengthOrInvalidFormat
    | ConditionsNotCorrect
    | RequestSequenceError
    | RequestOutOfRange
    | SecurityAccessDenied
    | InvalidKey
    | ExceededNumberOfAttempts
  {
    function Code(): u8 {
      match this
      case ServiceNotSupported => 0x11
      case SubFunctionNotSupported => 0x12
      case IncorrectMessageLengthOrInvalidFormat => 0x13
      case ConditionsNotCorrect => 0x22
      case RequestSequenceError => 0x24
      case RequestOutOfRange => 0x31
      case SecurityAccessDenied => 0x33
      case InvalidKey => 0x35
      case ExceededNumberOfAttempts => 0x36
    }

    function Response(sid: u8): seq<u8> {
      [0x7F, sid, Code()]
    }
  }

  /** How a tester reads a code. */
  function FromCode(code: u8): Option<Nrc> {
    if code == 0x11 then Some(ServiceNotSupported)
    else if code == 0x12 then Some(SubFunctionNotSupported)
    else if code == 0x13 then Some(IncorrectMessageLengthOrInvalidFormat)
    else if code == 0x22 then Some(ConditionsNotCorrect)
    else if code == 0x24 then Some(RequestSequenceError)
    else if code == 0x31 then Some(RequestOutOfRange)
    else if code == 0x33 then Some(SecurityAccessDenied)
    else if code == 0x35 then Some(InvalidKey)
    else if code == 0x36 then Some(ExceededNumberOfAttempts)
    else None
  }

  /** Codes and reasons determine each other. */
  lemma CodesAreUnique(code: u8, n: Nrc)
    ensures FromCode(code) == Some(n) <==> code == n.Code()
  {
  }
}
