/** The bound on wrong keys is met: for every duration and every number of unlocks some run attains it. */
module FastestGuesses {
  import opened Wrappers
  import opened Words
  import opened Security
  import opened SecurityRuns

  /** The key for seed 1, and one that is wrong for it. */
  const RIGHT_KEY: seq<u8> := [0xDE, 0xAD, 0xBE, 0xEE]
  const WRONG_KEY: seq<u8> := [0x00, 0x00, 0x00, 0x00]

  /** A locked machine with nothing pending, its counter and its lockout. */
  function Locked(failed: nat, lockout: Option<nat>): State {
    State(0, None, failed, lockout)
  }

  /** A run that has ended at a time in such a state, with what it has counted. */
  ghost predicate Counted(es: seq<Event>, now: nat, s: State, wrong: nat, grants: nat) {
    && NonDecreasing(es) && es != [] && es[0].now == 0 && es[|es| - 1].now == now
    && Run(es) == s && WrongKeys(es) == wrong && Grants(es) == grants
  }

  lemma OneMore(es: seq<Event>, now: nat, s: State, wrong: nat, grants: nat, e: Event)
    requires Counted(es, now, s, wrong, grants) && now <= e.now
    ensures Counted(es + [e], e.now, Step(s, e), wrong + (if Refused(s, e) then 1 else 0),
                    grants + if Granted(s, e) then 1 else 0)
  {
    hide Step, Refused, Granted;
    assert (es + [e])[..|es|] == es;
  }

  /** A seed request, a submission and a reset, which relocks but keeps counter and lockout. */
  lemma Guess(es: seq<Event>, now: nat, s: State, wrong: nat, grants: nat, right: bool) returns (more: seq<Event>)
    requires Counted(es, now, s, wrong, grants) && s == Locked(s.failed, None) && s.failed < MAX_ATTEMPTS
    ensures Counted(more, now, AfterGuess(s.failed, now, right), wrong + (if right then 0 else 1),
                    grants + if right then 1 else 0)
  {
    hide NonDecreasing, Run, WrongKeys, Grants;
    var seed, key := At(now, Seed(1, 1)), At(now, Key(2, if right then RIGHT_KEY else WRONG_KEY));
    var asked := Step(s, seed);
    SeedIsOne(s, seed);
    OneMore(es, now, s, wrong, grants, seed);
    KeyIsJudged(asked, key, right);
    OneMore(es + [seed], now, asked, wrong, grants, key);
    more := es + [seed] + [key] + [At(now, Relock)];
    OneMore(es + [seed] + [key], now, Step(asked, key), wrong + (if right then 0 else 1),
            grants + (if right then 1 else 0), At(now, Relock));
  }

  function AfterGuess(failed: nat, now: nat, right: bool): State {
    if right then Locked(0, None)
    else Locked(failed + 1, if failed + 1 == MAX_ATTEMPTS then Some(now + LOCKOUT_DURATION) else None)
  }

  lemma SeedIsOne(s: State, e: Event)
    requires s == Locked(s.failed, None) && e.call == Seed(1, 1)
    ensures Step(s, e) == s.(pending := Some(Challenge(1, 1))) && !Refused(s, e) && !Granted(s, e)
  {
  }

  lemma KeyIsJudged(s: State, e: Event, right: bool)
    requires s == State(0, Some(Challenge(1, 1)), s.failed, None) && s.failed < MAX_ATTEMPTS
    requires e.call == Key(2, if right then RIGHT_KEY else WRONG_KEY)
    ensures Granted(s, e) <==> right
    ensures Refused(s, e) <==> !right
    ensures Relocked(Step(s, e)) == AfterGuess(s.failed, e.now, right)
  {
  }

  /** Two wrong keys for every right one, all at the start. */
  lemma {:induction false} Spree(n: nat) returns (es: seq<Event>)
    ensures Counted(es, 0, Locked(0, None), 2 * n, n)
  {
    if n == 0 {
      es := [At(0, Relock)];
      Opening();
    } else {
      es := Spree(n - 1);
      es := Guess(es, 0, Locked(0, None), 2 * n - 2, n - 1, false);
      es := Guess(es, 0, Locked(1, None), 2 * n - 1, n - 1, false);
      es := Guess(es, 0, Locked(2, None), 2 * n, n - 1, true);
    }
  }

  lemma Opening()
    ensures Counted([At(0, Relock)], 0, Locked(0, None), 0, 0)
  {
    var none: seq<Event> := [];
    assert [At(0, Relock)][..0] == none;
    assert Run(none) == FRESH;
  }

  lemma ThreeWrong(es: seq<Event>, now: nat, wrong: nat, grants: nat) returns (more: seq<Event>)
    requires Counted(es, now, Locked(0, None), wrong, grants)
    ensures Counted(more, now, Locked(3, Some(now + LOCKOUT_DURATION)), wrong + 3, grants)
  {
    hide Counted;
    more := Guess(es, now, Locked(0, None), wrong, grants, false);
    more := Guess(more, now, Locked(1, None), wrong + 1, grants, false);
    more := Guess(more, now, Locked(2, None), wrong + 2, grants, false);
  }

  /** As soon as a lockout ends, a seed request opens the next window. */
  lemma Reopen(es: seq<Event>, now: nat, wrong: nat, grants: nat) returns (more: seq<Event>)
    requires Counted(es, now, Locked(3, Some(now + LOCKOUT_DURATION)), wrong, grants)
    ensures Counted(more, now + LOCKOUT_DURATION, Locked(0, None), wrong, grants)
  {
    hide Counted;
    var s, end := Locked(3, Some(now + LOCKOUT_DURATION)), now + LOCKOUT_DURATION;
    OneMore(es, now, s, wrong, grants, At(end, Seed(1, 1)));
    more := es + [At(end, Seed(1, 1))] + [At(end, Relock)];
    OneMore(es + [At(end, Seed(1, 1))], end, Step(s, At(end, Seed(1, 1))), wrong, grants, At(end, Relock));
  }

  /** Three wrong keys as soon as each of the lockouts ends. */
  lemma {:induction false} Windows(windows: nat, grants: nat) returns (es: seq<Event>)
    ensures var now := windows * LOCKOUT_DURATION;
            Counted(es, now, Locked(3, Some(now + LOCKOUT_DURATION)), 3 * (windows + 1) + 2 * grants, grants)
  {
    hide Counted;
    if windows == 0 {
      es := Spree(grants);
      es := ThreeWrong(es, 0, 2 * grants, grants);
    } else {
      var now := (windows - 1) * LOCKOUT_DURATION;
      es := Windows(windows - 1, grants);
      es := Reopen(es, now, 3 * windows + 2 * grants, grants);
      es := ThreeWrong(es, now + LOCKOUT_DURATION, 3 * windows + 2 * grants, grants);
    }
  }

  /** For every duration and every number of unlocks there is a run that makes as many wrong guesses as it may. */
  lemma BoundIsMet(duration: nat, grants: nat) returns (es: seq<Event>)
    ensures NonDecreasing(es) && Duration(es) == duration && Grants(es) == grants
    ensures WrongKeys(es) == 3 * (Duration(es) / LOCKOUT_DURATION + 1) + 2 * Grants(es)
  {
    hide Run, WrongKeys, Grants;
    var windows := duration / LOCKOUT_DURATION;
    var now := windows * LOCKOUT_DURATION;
    es := Windows(windows, grants);
    var s := Locked(3, Some(now + LOCKOUT_DURATION));
    OneMore(es, now, s, 3 * (windows + 1) + 2 * grants, grants, At(duration, Relock));
    es := es + [At(duration, Relock)];
  }
}
