/**
 The rate of key guesses as a tester sees it: only requests to the dispatcher, their times and its
 answers. The bound is the one of the seed/key machine, carried over by the calls a run makes on it.
 */
module KeyGuesses {
  import opened Wrappers
  import opened Words
  import opened NegativeResponses
  import opened Dispatcher
  import opened DispatcherRuns
  import Security
  import SecurityRuns

  /** No handler of the run uses the security state it is lent. */
  ghost predicate LeaveSecurityAlone(evs: seq<Event>) {
    forall ev :: ev in evs && ev.Request? ==> forall call :: call in ev.handler.calls ==> !call.OnSecurity?
  }

  /** The time of an event; for a request, that at which the service it asks for reads the clock. */
  function TimeOf(ev: Event): nat {
    match ev
    case Request(clock, _, _, _) => clock.now
    case Tick(now) => now
  }

  ghost predicate NonDecreasing(evs: seq<Event>) {
    forall a, b :: 0 <= a < b < |evs| ==> TimeOf(evs[a]) <= TimeOf(evs[b])
  }

  function Duration(evs: seq<Event>): int {
    if evs == [] then 0 else TimeOf(evs[|evs| - 1]) - TimeOf(evs[0])
  }

  function Answer(c: Setup, e: Ecu, ev: Event): seq<u8> {
    if ev.Request? then ProcessOutcome(e, c.allowed, ev.request, ev.handler, ev.clock, ev.entropy).1 else []
  }

  predicate SubmitsKey(ev: Event) {
    ev.Request? && |ev.request| >= 2 && ev.request[0] == SECURITY_ACCESS && ev.request[1] % 2 == 0
  }

  /** A key submission answered with invalidKey or exceededNumberOfAttempts. */
  predicate AnswersWrongKey(c: Setup, e: Ecu, ev: Event) {
    && SubmitsKey(ev)
    && (|| Answer(c, e, ev) == InvalidKey.Response(SECURITY_ACCESS)
        || Answer(c, e, ev) == ExceededNumberOfAttempts.Response(SECURITY_ACCESS))
  }

  /** A key submission answered positively. */
  predicate AnswersGrant(c: Setup, e: Ecu, ev: Event) {
    SubmitsKey(ev) && Answer(c, e, ev) == [0x67, ev.request[1]]
  }

  function WrongAnswers(c: Setup, evs: seq<Event>): nat {
    if evs == [] then 0
    else
      var front := evs[..|evs| - 1];
      WrongAnswers(c, front) + if AnswersWrongKey(c, Run(c, front), evs[|evs| - 1]) then 1 else 0
  }

  function GrantAnswers(c: Setup, evs: seq<Event>): nat {
    if evs == [] then 0
    else
      var front := evs[..|evs| - 1];
      GrantAnswers(c, front) + if AnswersGrant(c, Run(c, front), evs[|evs| - 1]) then 1 else 0
  }

  lemma {:induction false} NoSecurityCalls(calls: seq<HandlerCall>)
    requires forall call :: call in calls ==> !call.OnSecurity?
    ensures OnlySecurity(calls) == []
  {
    if calls != [] {
      NoSecurityCalls(calls[..|calls| - 1]);
    }
  }

  /** An event makes at most one security call, at its own time; the answer tells what became of a key. */
  lemma OneCallPerEvent(c: Setup, e: Ecu, ev: Event)
    requires SecurityRuns.Invariant(e.security)
    requires ev.Request? ==> forall call :: call in ev.handler.calls ==> !call.OnSecurity?
    ensures var calls := SecurityCalls(c, e, ev);
            && |calls| <= 1
            && (calls != [] ==> calls[0].now == TimeOf(ev))
            && (AnswersWrongKey(c, e, ev) <==> calls != [] && SecurityRuns.Refused(e.security, calls[0]))
            && (AnswersGrant(c, e, ev) <==> calls != [] && SecurityRuns.Granted(e.security, calls[0]))
  {
    hide Security.KeyOutcome, Security.SeedOutcome, Security.Compares;
    if ev.Request? {
      NoSecurityCalls(ev.handler.calls);
      if SubmitsKey(ev) && Refusal(e, ev).None? {
        KeyAnswer(e.security, ev.request[1], ev.request[2..], ev.clock.now);
      }
    }
  }

  lemma KeyAnswer(s: Security.State, level: u8, key: seq<u8>, now: nat)
    requires SecurityRuns.Invariant(s) && level % 2 == 0
    ensures var r := Security.KeyOutcome(s, level, key, now).1;
            && (r.Success? <==> Security.Matches(s, level, key))
            && (r == Failure(InvalidKey) || r == Failure(ExceededNumberOfAttempts)
                <==> Security.Compares(s, level, key) && !Security.Matches(s, level, key))
  {
  }

  /** What one more event adds to the security calls of the run and to their counts. */
  lemma CountsExtend(t: seq<Security.Event>, calls: seq<Security.Event>)
    requires |calls| <= 1
    ensures var s := Security.Run(t);
            && SecurityRuns.WrongKeys(t + calls)
               == SecurityRuns.WrongKeys(t) + (if calls != [] && SecurityRuns.Refused(s, calls[0]) then 1 else 0)
            && SecurityRuns.Grants(t + calls)
               == SecurityRuns.Grants(t) + (if calls != [] && SecurityRuns.Granted(s, calls[0]) then 1 else 0)
  {
    hide SecurityRuns.Refused, SecurityRuns.Granted, Security.Run;
    if calls == [] {
      assert t + calls == t;
    } else {
      assert (t + calls)[..|t + calls| - 1] == t;
    }
  }

  /** The answers count what the seed/key machine counts. */
  lemma {:induction false} AnswersCountCalls(c: Setup, evs: seq<Event>)
    requires LeaveSecurityAlone(evs)
    ensures WrongAnswers(c, evs) == SecurityRuns.WrongKeys(Trace(c, evs))
    ensures GrantAnswers(c, evs) == SecurityRuns.Grants(Trace(c, evs))
  {
    hide AnswersWrongKey, AnswersGrant, SecurityCalls, Security.Run, Step;
    hide SecurityRuns.WrongKeys, SecurityRuns.Grants, SecurityRuns.Granted, SecurityRuns.Refused;
    hide SecurityRuns.Invariant;
    if evs == [] {
      NothingCounted();
    } else {
      var front, ev := evs[..|evs| - 1], evs[|evs| - 1];
      assert forall x :: x in front ==> x in evs;
      AnswersCountCalls(c, front);
      DispatcherRefinesSecurity(c, front);
      SecurityRuns.ReachableStatesAreSound(Trace(c, front));
      OneCallPerEvent(c, Run(c, front), ev);
      CountsExtend(Trace(c, front), SecurityCalls(c, Run(c, front), ev));
    }
  }

  /** The calls of a run lie within it, in time order. */
  lemma {:induction false} CallsLieWithinRun(c: Setup, evs: seq<Event>)
    requires LeaveSecurityAlone(evs) && NonDecreasing(evs)
    ensures SecurityRuns.NonDecreasing(Trace(c, evs))
    ensures forall e :: e in Trace(c, evs) ==> evs != [] && TimeOf(evs[0]) <= e.now <= TimeOf(evs[|evs| - 1])
  {
    hide AnswersWrongKey, AnswersGrant, SecurityCalls, Security.Run, Step;
    hide SecurityRuns.NonDecreasing, SecurityRuns.Invariant, NonDecreasing, TimeOf;
    if evs == [] {
      NothingCounted();
    } else {
      var front, ev := evs[..|evs| - 1], evs[|evs| - 1];
      assert front + [ev] == evs;
      FrontIsOrdered(front, ev);
      assert forall x :: x in front ==> x in evs;
      CallsLieWithinRun(c, front);
      DispatcherRefinesSecurity(c, front);
      SecurityRuns.ReachableStatesAreSound(Trace(c, front));
      OneCallPerEvent(c, Run(c, front), ev);
      TimesExtend(front, ev, Trace(c, front), SecurityCalls(c, Run(c, front), ev));
    }
  }

  lemma FrontIsOrdered(front: seq<Event>, ev: Event)
    requires NonDecreasing(front + [ev])
    ensures NonDecreasing(front)
  {
    assert forall k :: 0 <= k < |front| ==> (front + [ev])[k] == front[k];
  }

  lemma NothingCounted()
    ensures SecurityRuns.WrongKeys([]) == 0 && SecurityRuns.Grants([]) == 0 && SecurityRuns.NonDecreasing([])
  {
  }

  lemma TimesExtend(front: seq<Event>, ev: Event, t: seq<Security.Event>, calls: seq<Security.Event>)
    requires SecurityRuns.NonDecreasing(t) && NonDecreasing(front + [ev])
    requires forall e :: e in t ==> front != [] && TimeOf(front[0]) <= e.now <= TimeOf(front[|front| - 1])
    requires |calls| <= 1 && (calls != [] ==> calls[0].now == TimeOf(ev))
    ensures SecurityRuns.NonDecreasing(t + calls)
    ensures forall e :: e in t + calls ==> TimeOf((front + [ev])[0]) <= e.now <= TimeOf(ev)
  {
    var evs := front + [ev];
    assert evs[|front|] == ev && TimeOf(evs[0]) <= TimeOf(ev);
    assert forall k :: 0 <= k < |front| ==> evs[k] == front[k];
    forall e | e in t + calls ensures TimeOf(evs[0]) <= e.now <= TimeOf(ev) {
      if e in t {
        assert evs[0] == front[0] && evs[|front| - 1] == front[|front| - 1];
      }
    }
    forall a, b | 0 <= a < b < |t + calls| ensures (t + calls)[a].now <= (t + calls)[b].now {
      assert (t + calls)[a] in t + calls;
    }
  }

  /**
   However a tester arranges its requests, it gets at most three wrong-key answers for every started 10 s
   and two more for every key that was right.
   */
  lemma WrongAnswersAreBounded(c: Setup, evs: seq<Event>)
    requires LeaveSecurityAlone(evs) && NonDecreasing(evs)
    ensures WrongAnswers(c, evs) <= 3 * (Duration(evs) / Security.LOCKOUT_DURATION + 1) + 2 * GrantAnswers(c, evs)
  {
    hide SecurityRuns.WrongKeys, SecurityRuns.Grants, Trace, WrongAnswers, GrantAnswers;
    var t := Trace(c, evs);
    AnswersCountCalls(c, evs);
    CallsLieWithinRun(c, evs);
    SecurityRuns.WrongKeysAreBounded(t);
    if t != [] {
      assert t[0] in t && t[|t| - 1] in t;
    } else if evs != [] {
      assert TimeOf(evs[0]) <= TimeOf(evs[|evs| - 1]);
    }
    LongerHasMoreWindows(SecurityRuns.Duration(t), Duration(evs));
  }

  lemma LongerHasMoreWindows(a: int, b: int)
    requires 0 <= a <= b
    ensures a / Security.LOCKOUT_DURATION <= b / Security.LOCKOUT_DURATION
  {
    assert Security.LOCKOUT_DURATION == 10_000_000_000;
    assert a / 10_000_000_000 <= b / 10_000_000_000;
  }

  // ---------------------------------------------------------------------------------------------
  // Handlers that use the security state too

  lemma WrongAnswerIsComparison(c: Setup, e: Ecu, ev: Event)
    requires SecurityRuns.Invariant(e.security) && AnswersWrongKey(c, e, ev)
    ensures var calls := SecurityCalls(c, e, ev); |calls| == 1 && SecurityRuns.Refused(e.security, calls[0])
  {
    hide Security.KeyOutcome, Security.SeedOutcome, Security.Compares;
    if Refusal(e, ev).None? {
      KeyAnswer(e.security, ev.request[1], ev.request[2..], ev.clock.now);
    }
  }

  lemma {:induction false} MoreCallsCountMore(t: seq<Security.Event>, calls: seq<Security.Event>)
    ensures SecurityRuns.WrongKeys(t + calls) >= SecurityRuns.WrongKeys(t)
  {
    hide SecurityRuns.Refused;
    if calls == [] {
      assert t + calls == t;
    } else {
      assert (t + calls)[..|t + calls| - 1] == t + calls[..|calls| - 1];
      MoreCallsCountMore(t, calls[..|calls| - 1]);
    }
  }

  lemma {:induction false} WrongAnswersAreAmongCalls(c: Setup, evs: seq<Event>)
    ensures WrongAnswers(c, evs) <= SecurityRuns.WrongKeys(Trace(c, evs))
  {
    hide AnswersWrongKey, SecurityCalls, SecurityRuns.WrongKeys, SecurityRuns.Refused, SecurityRuns.Invariant;
    hide Security.Run, Step;
    if evs == [] {
      NothingCounted();
    } else {
      var front, ev := evs[..|evs| - 1], evs[|evs| - 1];
      WrongAnswersAreAmongCalls(c, front);
      MoreCallsCountMore(Trace(c, front), SecurityCalls(c, Run(c, front), ev));
      if AnswersWrongKey(c, Run(c, front), ev) {
        DispatcherRefinesSecurity(c, front);
        SecurityRuns.ReachableStatesAreSound(Trace(c, front));
        WrongAnswerIsComparison(c, Run(c, front), ev);
        CountsExtend(Trace(c, front), SecurityCalls(c, Run(c, front), ev));
      }
    }
  }

  /**
   Whatever handlers do with the security state they are lent, wrong-key answers stay within the same bound,
   counted over all calls of the run: only keys that handlers get right by themselves add to it.
   */
  lemma WrongAnswersAreBoundedWithAnyHandler(c: Setup, evs: seq<Event>)
    requires SecurityRuns.NonDecreasing(Trace(c, evs))
    ensures var t := Trace(c, evs);
            WrongAnswers(c, evs)
            <= 3 * (SecurityRuns.Duration(t) / Security.LOCKOUT_DURATION + 1) + 2 * SecurityRuns.Grants(t)
  {
    WrongAnswersAreAmongCalls(c, evs);
    SecurityRuns.WrongKeysAreBounded(Trace(c, evs));
  }
}
