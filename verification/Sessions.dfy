/** The diagnostic session and its S3 timer (flxc1000-uds/src/session.rs). */
module Sessions {
  import opened Wrappers
  import opened Words

  datatype Session = Default | Programming | Extended

  function FromByte(b: u8): Option<Session> {
    match b
    case 0x01 => Some(Default)
    case 0x02 => Some(Programming)
    case 0x03 => Some(Extended)
    case _ => None
  }

  function ByteOf(s: Session): u8 {
    match s
    case Default => 0x01
    case Programming => 0x02
    case Extended => 0x03
  }

  /** The fields that change; the allowed sessions and the timeout are fixed at construction. */
  datatype State = State(current: Session, lastActivity: nat)

  function Touched(s: State, now: nat): State {
    s.(lastActivity := now)
  }

  function Ticked(s: State, timeout: nat, now: nat): State {
    if s.current != Default && now > s.lastActivity + timeout then s.(current := Default) else s
  }

  function Transitioned(s: State, allowed: seq<Session>, session: Session, now: nat): State {
    if session in allowed then State(session, now) else s
  }

  class SessionState {
    var current: Session
    const allowed: seq<Session>
    const s3Timeout: nat
    var lastActivity: nat

    function View(): State
      reads this
    {
      State(current, lastActivity)
    }

    constructor (allowed: seq<Session>, s3Timeout: nat, now: nat)
      ensures View() == State(Default, now)
      ensures this.allowed == allowed && this.s3Timeout == s3Timeout
    {
      current, this.allowed, this.s3Timeout, lastActivity := Default, allowed, s3Timeout, now;
    }

    predicate IsAllowed(session: Session) {
      session in allowed
    }

    method Transition(session: Session, now: nat) returns (done: bool)
      modifies this
      ensures View() == Transitioned(old(View()), allowed, session, now)
      ensures done <==> IsAllowed(session)
    {
      if IsAllowed(session) {
        current := session;
        Touch(now);
        return true;
      }
      return false;
    }

    method Tick(now: nat)
      modifies this
      ensures View() == Ticked(old(View()), s3Timeout, now)
    {
      if current != Default && now > lastActivity + s3Timeout {
        current := Default;
      }
    }

    method Touch(now: nat)
      modifies this
      ensures View() == Touched(old(View()), now)
    {
      lastActivity := now;
    }
  }
}
