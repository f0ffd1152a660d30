/** What every run of the session machine satisfies: which session is current, told from its operations alone. */
module SessionRuns {
  import opened Wrappers
  import opened Sessions

  /** 5 s in nanoseconds. */
  const FIVE_SECONDS: nat := 5_000_000_000

  /** One operation, with the clock reading it takes. */
  datatype Op =
    | Touch(now: nat)
    | Tick(now: nat)
    | Move(now: nat, session: Session)

  function Step(s: State, allowed: seq<Session>, timeout: nat, op: Op): State {
    match op
    case Touch(now) => Touched(s, now)
    case Tick(now) => Ticked(s, timeout, now)
    case Move(now, session) => Transitioned(s, allowed, session, now)
  }

  function RunFrom(s: State, allowed: seq<Session>, timeout: nat, ops: seq<Op>): State {
    if ops == [] then s
    else Step(RunFrom(s, allowed, timeout, ops[..|ops| - 1]), allowed, timeout, ops[|ops| - 1])
  }

  lemma {:induction false} RunFromAppend(s: State, allowed: seq<Session>, timeout: nat, a: seq<Op>, b: seq<Op>)
    ensures RunFrom(s, allowed, timeout, a + b) == RunFrom(RunFrom(s, allowed, timeout, a), allowed, timeout, b)
  {
    if b == [] {
      assert a + b == a;
    } else {
      RunFromAppend(s, allowed, timeout, a, b[..|b| - 1]);
      assert (a + b)[..|a + b| - 1] == a + b[..|b| - 1];
    }
  }

  predicate Moves(op: Op, allowed: seq<Session>) {
    op.Move? && op.session in allowed
  }

  /** The time at which the timer was last restarted: by a touch, or by a move that was carried out. */
  function LastTouch(started: nat, allowed: seq<Session>, ops: seq<Op>): nat {
    if ops == [] then started
    else
      var last := ops[|ops| - 1];
      if last.Touch? || Moves(last, allowed) then last.now else LastTouch(started, allowed, ops[..|ops| - 1])
  }

  /** The k-th operation is a tick more than 5 s after the timer was restarted. */
  predicate Expires(started: nat, allowed: seq<Session>, ops: seq<Op>, k: nat)
    requires k < |ops|
  {
    ops[k].Tick? && ops[k].now > LastTouch(started, allowed, ops[..k]) + FIVE_SECONDS
  }

  /** The m-th operation moved to the session, and neither another move nor an expiry came after it. */
  ghost predicate MovedLast(started: nat, allowed: seq<Session>, ops: seq<Op>, m: nat, session: Session)
    requires m < |ops|
  {
    && Moves(ops[m], allowed) && ops[m].session == session
    && forall k :: m < k < |ops| ==> !Moves(ops[k], allowed) && !Expires(started, allowed, ops, k)
  }

  lemma {:induction false} TimerIsLastTouch(started: nat, allowed: seq<Session>, ops: seq<Op>)
    ensures RunFrom(State(Default, started), allowed, FIVE_SECONDS, ops).lastActivity
            == LastTouch(started, allowed, ops)
  {
    if ops != [] {
      TimerIsLastTouch(started, allowed, ops[..|ops| - 1]);
    }
  }

  /** A session other than the default one is current exactly when the last move, not yet expired, was to it. */
  lemma {:induction false} SessionIsMovedLast(started: nat, allowed: seq<Session>, ops: seq<Op>, session: Session)
    requires session != Default
    ensures RunFrom(State(Default, started), allowed, FIVE_SECONDS, ops).current == session
            <==> exists m :: 0 <= m < |ops| && MovedLast(started, allowed, ops, m, session)
  {
    if ops != [] {
      var n := |ops| - 1;
      SessionIsMovedLast(started, allowed, ops[..n], session);
      TimerIsLastTouch(started, allowed, ops[..n]);
      MovedLastStep(started, allowed, ops, session);
    }
  }

  lemma MovedLastStep(started: nat, allowed: seq<Session>, ops: seq<Op>, session: Session)
    requires ops != []
    ensures var n := |ops| - 1;
            (exists m :: 0 <= m < |ops| && MovedLast(started, allowed, ops, m, session))
            <==> if Moves(ops[n], allowed) then ops[n].session == session
                 else !Expires(started, allowed, ops, n)
                      && exists m :: 0 <= m < n && MovedLast(started, allowed, ops[..n], m, session)
  {
    var n := |ops| - 1;
    hide LastTouch;
    forall m: nat | m < n
      ensures MovedLast(started, allowed, ops, m, session)
              <==> MovedLast(started, allowed, ops[..n], m, session)
                   && !Moves(ops[n], allowed) && !Expires(started, allowed, ops, n)
    {
      forall k: nat | k < n ensures Expires(started, allowed, ops[..n], k) <==> Expires(started, allowed, ops, k) {
        assert ops[..n][..k] == ops[..k];
      }
    }
    if Moves(ops[n], allowed) && ops[n].session == session {
      assert MovedLast(started, allowed, ops, n, session);
    }
  }
}
