/**
 What every run of the seed/key machine satisfies: its invariant, the silence of the lockout window,
 the origin of every unlocked level, and the rate at which wrong keys can be tried.
 */
module SecurityRuns {
  import opened Wrappers
  import opened Words
  import opened NegativeResponses
  import opened Security

  // ---------------------------------------------------------------------------------------------
  // Invariant of the reachable states

  ghost predicate Invariant(s: State) {
    && s.failed <= MAX_ATTEMPTS
    && (s.lockout.Some? <==> s.failed == MAX_ATTEMPTS)
    && (s.lockout.Some? ==> s.pending.None?)
    && (s.pending.Some? ==> PendingIsSound(s.unlocked, s.pending.value))
  }

  predicate PendingIsSound(unlocked: u8, c: Challenge) {
    IsSeedLevel(c.level) && c.seed != 0 && !HasBit(unlocked, c.level)
  }

  lemma StepKeepsInvariant(s: State, e: Event)
    requires Invariant(s)
    ensures Invariant(Step(s, e))
  {
  }

  lemma {:induction false} ReachableStatesAreSound(es: seq<Event>)
    ensures Invariant(Run(es))
  {
    if es != [] {
      ReachableStatesAreSound(es[..|es| - 1]);
      StepKeepsInvariant(Run(es[..|es| - 1]), es[|es| - 1]);
    }
  }

  /** An accepted seed request answers with the all-zero seed exactly when the level is unlocked. */
  lemma ZeroSeedMeansUnlocked(s: State, level: u8, now: nat, entropy: u32)
    requires SeedOutcome(s, level, now, entropy).1.Success?
    ensures SeedOutcome(s, level, now, entropy).1.value == ZERO_SEED <==> HasBit(s.unlocked, level)
  {
    var seed := if entropy == 0 then 1 else entropy;
    assert FromBytes(ToBytes(seed)) != FromBytes(ZERO_SEED);
  }

  /** The machine lets the level be asked for: an odd one, at a time that no lockout covers. */
  predicate IsOpen(s: State, level: u8, now: nat) {
    level % 2 == 1 && (s.lockout.Some? ==> now >= s.lockout.value)
  }

  /** In every reachable state a seed request is turned away for its sub-function or for a lockout that is running. */
  lemma SeedRefusals(es: seq<Event>, level: u8, now: nat, entropy: u32)
    ensures var s := Run(es);
            var (after, r) := SeedOutcome(s, level, now, entropy);
            && (r.Success? <==> IsOpen(s, level, now))
            && (r == Failure(SubFunctionNotSupported) <==> level % 2 == 0)
            && (r == Failure(ExceededNumberOfAttempts) <==> level % 2 == 1 && !IsOpen(s, level, now))
            && (r.Failure? ==> after == s)
  {
  }

  /**
   In every reachable state in which a locked level may be asked for, the answer spells the entropy and the machine
   waits for the key to just that word.
   */
  lemma SeedSpellsEntropy(es: seq<Event>, level: u8, now: nat, entropy: u32)
    requires IsOpen(Run(es), level, now) && !HasBit(Run(es).unlocked, level)
    ensures var (after, r) := SeedOutcome(Run(es), level, now, entropy);
            && r.Success? && |r.value| == 4
            && (entropy != 0 ==> FromBytes(r.value) == entropy)
            && (entropy == 0 ==> r.value == [0x00, 0x00, 0x00, 0x01])
            && after.pending == Some(Challenge(level, FromBytes(r.value)))
  {
    assert ToBytes(1) == [0x00, 0x00, 0x00, 0x01];
  }

  /** Different words are announced differently, and every word but zero is announced for some entropy. */
  lemma SeedsFollowEntropy(es: seq<Event>, level: u8, now: nat, a: u32, b: u32)
    requires IsOpen(Run(es), level, now) && !HasBit(Run(es).unlocked, level)
    ensures var s := Run(es);
            && (a != 0 && b != 0 && a != b ==> SeedOutcome(s, level, now, a).1 != SeedOutcome(s, level, now, b).1)
            && (a != 0 ==> exists entropy :: SeedOutcome(s, level, now, entropy).1 == Success(ToBytes(a)))
  {
    hide SeedOutcome, Run, ToBytes, FromBytes;
    SeedSpellsEntropy(es, level, now, a);
    SeedSpellsEntropy(es, level, now, b);
    if a != 0 {
      BytesAreThoseOf(SeedOutcome(Run(es), level, now, a).1.value, a);
    }
  }

  lemma BytesAreThoseOf(b: seq<u8>, x: u32)
    requires |b| == 4 && FromBytes(b) == x
    ensures b == ToBytes(x)
  {
    ToBytesFromBytes(b);
  }

  /** In every reachable state the answer to a key tells why it was turned away. */
  lemma KeyRefusals(es: seq<Event>, level: u8, key: seq<u8>, now: nat)
    ensures var s := Run(es);
            var (after, r) := KeyOutcome(s, level, key, now);
            var asked := s.pending.Some? && s.pending.value.level == level - 1;
            && (r == Failure(SubFunctionNotSupported) <==> level % 2 == 1 || level == 0)
            && (r == Failure(RequestSequenceError) <==> level % 2 == 0 && level != 0 && !asked)
            && (r == Failure(IncorrectMessageLengthOrInvalidFormat)
                <==> level % 2 == 0 && level != 0 && asked && |key| != 4)
            && (r == Failure(SubFunctionNotSupported) ==> after == s)
            && (r != Failure(SubFunctionNotSupported) ==> after.pending.None?)
            && (r == Failure(RequestSequenceError) || r == Failure(IncorrectMessageLengthOrInvalidFormat)
                ==> after == s.(pending := None))
  {
  }

  // ---------------------------------------------------------------------------------------------
  // Counting key comparisons

  ghost predicate Granted(s: State, e: Event) {
    e.call.Key? && Matches(s, e.call.level, e.call.key)
  }

  ghost predicate Refused(s: State, e: Event) {
    e.call.Key? && Compares(s, e.call.level, e.call.key) && !Matches(s, e.call.level, e.call.key)
  }

  /** The number of submissions that unlocked a level. */
  ghost function Grants(es: seq<Event>): nat {
    if es == [] then 0
    else Grants(es[..|es| - 1]) + if Granted(Run(es[..|es| - 1]), es[|es| - 1]) then 1 else 0
  }

  /** The number of submissions whose key was compared and found wrong. */
  ghost function WrongKeys(es: seq<Event>): nat {
    if es == [] then 0
    else WrongKeys(es[..|es| - 1]) + if Refused(Run(es[..|es| - 1]), es[|es| - 1]) then 1 else 0
  }

  /** How the answer of a submission tells the three cases apart. */
  lemma AnswersTellComparisonsApart(es: seq<Event>, level: u8, key: seq<u8>, now: nat)
    ensures var s := Run(es);
            var r := KeyOutcome(s, level, key, now).1;
            && (r.Success? <==> Matches(s, level, key))
            && (r.Failure? && (r.error.InvalidKey? || r.error.ExceededNumberOfAttempts?)
                <==> Compares(s, level, key) && !Matches(s, level, key))
            && (r.Failure? && r.error.ExceededNumberOfAttempts?
                <==> Compares(s, level, key) && !Matches(s, level, key) && s.failed == MAX_ATTEMPTS - 1)
  {
    ReachableStatesAreSound(es);
  }

  // ---------------------------------------------------------------------------------------------
  // The lockout window

  /**
   Until the lockout of a reachable state ends nothing changes it: no key is compared, and no level
   is gained, although a submission never looks at the lockout.
   */
  lemma {:induction false} LockoutWindowIsSilent(es: seq<Event>, more: seq<Event>)
    requires Run(es).lockout.Some?
    requires forall e :: e in more ==> e.now < Run(es).lockout.value
    ensures Run(es + more).lockout == Run(es).lockout
    ensures forall level :: HasBit(Run(es + more).unlocked, level) ==> HasBit(Run(es).unlocked, level)
    ensures WrongKeys(es + more) == WrongKeys(es)
    ensures Grants(es + more) == Grants(es)
  {
    if more == [] {
      assert es + more == es;
    } else {
      var front, last := more[..|more| - 1], more[|more| - 1];
      assert last in more;
      LockoutWindowIsSilent(es, front);
      assert (es + more)[..|es + more| - 1] == es + front;
      ReachableStatesAreSound(es + front);
    }
  }

  // ---------------------------------------------------------------------------------------------
  // Provenance of unlocked levels

  /** The bytes the seed request at position i was answered with, if it was accepted. */
  function SeedAnswer(es: seq<Event>, i: nat): Option<seq<u8>>
    requires i < |es|
  {
    match es[i].call
    case Seed(level, entropy) =>
      var r := SeedOutcome(Run(es[..i]), level, es[i].now, entropy).1;
      if r.Success? then Some(r.value) else None
    case _ => None
  }

  /** A call that is turned away for its sub-function alone, before the machine looks at anything. */
  predicate WrongSubFunction(c: Call) {
    (c.Seed? && !IsSeedLevel(c.level)) || (c.Key? && !IsKeyLevel(c.level))
  }

  /** Calls i and j are a seed request answered with a non-zero seed and the next call to count, its key. */
  ghost predicate MatchedPair(es: seq<Event>, i: nat, j: nat)
    requires i < j < |es|
  {
    && SeedAnswer(es, i).Some?
    && SeedAnswer(es, i).value != ZERO_SEED
    && |SeedAnswer(es, i).value| == 4
    && es[j].call.Key?
    && IsKeyLevel(es[j].call.level)
    && es[j].call.level - 1 == es[i].call.level
    && |es[j].call.key| == 4
    && FromBytes(es[j].call.key) == CalculateKey(FromBytes(SeedAnswer(es, i).value), es[i].call.level)
    && forall k :: i < k < j ==> WrongSubFunction(es[k].call)
  }

  /** A seed/key exchange for the level whose effect no later reset has undone. */
  ghost predicate Exchange(es: seq<Event>, i: nat, j: nat, level: u8) {
    && i < j < |es|
    && MatchedPair(es, i, j)
    && SameBit(es[i].call.level, level)
    && forall k :: j < k < |es| ==> !es[k].call.Relock?
  }

  /** A level is unlocked exactly when some exchange for it stands. */
  lemma UnlockProvenance(es: seq<Event>, level: u8)
    ensures HasBit(Run(es).unlocked, level) <==> exists i, j :: Exchange(es, i, j, level)
  {
    if HasBit(Run(es).unlocked, level) {
      var i, j := FindExchange(es, level);
    }
    if i, j :| Exchange(es, i, j, level) {
      PendingPersists(es, i, j);
      MatchUnlocks(es, i, j, level);
      UnlockPersists(es, j, |es|, level);
      assert es[..|es|] == es;
    }
  }

  /**
   One exchange on a fresh machine unlocks exactly the levels that share its bit: for levels below 8
   the level itself, and from 8 on its alias as well.
   */
  lemma OneExchangeUnlocks(a: u8, b: u8, now: nat, entropy: u32)
    requires IsSeedLevel(a) && a != 255
    ensures var seed := SeedOutcome(FRESH, a, now, entropy).1;
            && seed.Success? && |seed.value| == 4
            && var key := ToBytes(CalculateKey(FromBytes(seed.value), a));
               HasBit(Run([At(now, Seed(a, entropy)), At(now, Key(a + 1, key))]).unlocked, b) <==> SameBit(a, b)
  {
    var key := ToBytes(CalculateKey(FromBytes(SeedOutcome(FRESH, a, now, entropy).1.value), a));
    var es := [At(now, Seed(a, entropy)), At(now, Key(a + 1, key))];
    assert es[..1] == [es[0]] && es[..0] == [];
    RunPrefix(es, 0);
    RunPrefix(es, 1);
    assert es[..2] == es;
    assert !HasBit(0, b);
    SetBit(0, a, b);
  }

  lemma {:induction false} FindExchange(es: seq<Event>, level: u8) returns (i: nat, j: nat)
    requires HasBit(Run(es).unlocked, level)
    ensures Exchange(es, i, j, level)
  {
    hide Step, SeedAnswer, MatchedPair;
    assert es != [];
    var n := |es| - 1;
    assert forall k :: 0 <= k < n ==> es[..n][k] == es[k];
    if HasBit(Run(es[..n]).unlocked, level) {
      i, j := FindExchange(es[..n], level);
      PairExtends(es, n, i, j);
      RelockClearsBits(Run(es[..n]), es[n], level);
    } else {
      NewBitIsAMatch(Run(es[..n]), es[n], level);
      i := FindSeed(es[..n]);
      j := n;
      SeedAnswerPrefix(es, n, i);
      SeedThenMatch(es, i, n);
    }
  }

  lemma SeedThenMatch(es: seq<Event>, i: nat, j: nat)
    requires i < j < |es| && es[i].call.Seed? && es[j].call.Key?
    requires Matches(Run(es[..j]), es[j].call.level, es[j].call.key)
    requires Run(es[..j]).pending.value.level == es[i].call.level
    requires SeedAnswer(es, i) == Some(ToBytes(Run(es[..j]).pending.value.seed)) && SeedAnswer(es, i).value != ZERO_SEED
    requires forall k :: i < k < j ==> WrongSubFunction(es[k].call)
    ensures MatchedPair(es, i, j)
  {
    hide SeedAnswer, Run, FromBytes, ToBytes, WrongSubFunction;
  }

  lemma RelockClearsBits(s: State, e: Event, level: u8)
    requires HasBit(Step(s, e).unlocked, level)
    ensures !e.call.Relock?
  {
  }

  lemma NewBitIsAMatch(s: State, e: Event, level: u8)
    requires !HasBit(s.unlocked, level) && HasBit(Step(s, e).unlocked, level)
    ensures e.call.Key? && Matches(s, e.call.level, e.call.key) && SameBit(e.call.level - 1, level)
  {
    if e.call.Key? {
      SetBit(s.unlocked, e.call.level - 1, level);
    }
  }

  /** A pending challenge comes from the last call that counted, and that call announced its seed. */
  lemma {:induction false} FindSeed(es: seq<Event>) returns (i: nat)
    requires Run(es).pending.Some?
    ensures i < |es|
    ensures es[i].call.Seed? && es[i].call.level == Run(es).pending.value.level
    ensures SeedAnswer(es, i) == Some(ToBytes(Run(es).pending.value.seed))
    ensures SeedAnswer(es, i).value != ZERO_SEED
    ensures forall k :: i < k < |es| ==> WrongSubFunction(es[k].call)
  {
    hide KeyOutcome, HasBit, FromBytes;
    assert es != [];
    var n := |es| - 1;
    ReachableStatesAreSound(es[..n]);
    if WrongSubFunction(es[n].call) {
      WrongSubFunctionIsInert(Run(es[..n]), es[n]);
      i := FindSeed(es[..n]);
      SeedAnswerPrefix(es, n, i);
    } else {
      i := n;
      PendingIsAnnounced(Run(es[..n]), es[n]);
    }
  }

  lemma WrongSubFunctionIsInert(s: State, e: Event)
    requires WrongSubFunction(e.call)
    ensures Step(s, e) == s
  {
  }

  lemma PendingIsAnnounced(s: State, e: Event)
    requires Invariant(s) && !WrongSubFunction(e.call) && Step(s, e).pending.Some?
    ensures var c := Step(s, e).pending.value;
            && e.call.Seed?
            && e.call.level == c.level
            && SeedOutcome(s, e.call.level, e.now, e.call.entropy).1 == Success(ToBytes(c.seed))
            && ToBytes(c.seed) != ZERO_SEED
  {
    StepKeepsInvariant(s, e);
    assert FromBytes(ToBytes(Step(s, e).pending.value.seed)) != FromBytes(ZERO_SEED);
  }

  lemma SeedAnswerPrefix(es: seq<Event>, n: nat, i: nat)
    requires i < n <= |es|
    ensures SeedAnswer(es[..n], i) == SeedAnswer(es, i)
  {
    assert es[..n][..i] == es[..i];
  }

  lemma PairExtends(es: seq<Event>, n: nat, i: nat, j: nat)
    requires i < j < n <= |es|
    ensures MatchedPair(es[..n], i, j) <==> MatchedPair(es, i, j)
  {
    hide SeedAnswer;
    SeedAnswerPrefix(es, n, i);
    assert forall k :: 0 <= k < n ==> es[..n][k] == es[k];
  }

  lemma {:induction false} PendingPersists(es: seq<Event>, i: nat, j: nat)
    requires i < j <= |es|
    requires SeedAnswer(es, i).Some? && SeedAnswer(es, i).value != ZERO_SEED
    requires forall k :: i < k < j ==> WrongSubFunction(es[k].call)
    ensures |SeedAnswer(es, i).value| == 4
    ensures Run(es[..j]).pending == Some(Challenge(es[i].call.level, FromBytes(SeedAnswer(es, i).value)))
    decreases j
  {
    RunPrefix(es, j - 1);
    if j > i + 1 {
      PendingPersists(es, i, j - 1);
    }
  }

  lemma MatchUnlocks(es: seq<Event>, i: nat, j: nat, level: u8)
    requires i < j < |es| && MatchedPair(es, i, j) && SameBit(es[i].call.level, level)
    requires Run(es[..j]).pending == Some(Challenge(es[i].call.level, FromBytes(SeedAnswer(es, i).value)))
    ensures HasBit(Run(es[..j + 1]).unlocked, level)
  {
    RunPrefix(es, j);
    SetBit(Run(es[..j]).unlocked, es[j].call.level - 1, level);
  }

  lemma {:induction false} UnlockPersists(es: seq<Event>, j: nat, n: nat, level: u8)
    requires j < n <= |es|
    requires HasBit(Run(es[..j + 1]).unlocked, level)
    requires forall k :: j < k < |es| ==> !es[k].call.Relock?
    ensures HasBit(Run(es[..n]).unlocked, level)
    decreases n
  {
    hide Step, HasBit;
    if n > j + 1 {
      UnlockPersists(es, j, n - 1, level);
      RunPrefix(es, n - 1);
      BitPersists(Run(es[..n - 1]), es[n - 1], level);
    }
  }

  lemma BitPersists(s: State, e: Event, level: u8)
    requires HasBit(s.unlocked, level) && !e.call.Relock?
    ensures HasBit(Step(s, e).unlocked, level)
  {
    if e.call.Key? {
      SetBit(s.unlocked, e.call.level - 1, level);
    }
  }

  // ---------------------------------------------------------------------------------------------
  // The rate of wrong keys

  ghost predicate NonDecreasing(es: seq<Event>) {
    forall a, b :: 0 <= a < b < |es| ==> es[a].now <= es[b].now
  }

  /** How long the run lasts, from its first call to its last. */
  function Duration(es: seq<Event>): int {
    if es == [] then 0 else es[|es| - 1].now - es[0].now
  }

  /** The number of lockouts that began. */
  ghost function Lockouts(es: seq<Event>): nat {
    if es == [] then 0
    else
      var s := Run(es[..|es| - 1]);
      Lockouts(es[..|es| - 1]) + if s.lockout.None? && Step(s, es[|es| - 1]).lockout.Some? then 1 else 0
  }

  /**
   The account kept along a run: every wrong key is paid for by a lockout, by an unlock that wiped
   the counter, or by the counter itself; and each lockout but the last has run its full length.
   */
  ghost predicate Balanced(s: State, wrong: nat, grants: nat, locks: nat, first: nat, last: nat) {
    if s.lockout.Some? then
      && locks >= 1
      && wrong <= 3 * locks + 2 * grants
      && first + locks * LOCKOUT_DURATION <= s.lockout.value <= last + LOCKOUT_DURATION
    else
      && wrong <= 3 * locks + 2 * grants + s.failed
      && first + locks * LOCKOUT_DURATION <= last
  }

  /** What one call can do to the counter and the lockout. */
  ghost predicate CounterMoves(s: State, t: State, refused: bool, granted: bool, now: nat) {
    if refused then
      && s.lockout.None?
      && t.failed == s.failed + 1
      && t.lockout == if t.failed == MAX_ATTEMPTS then Some(now + LOCKOUT_DURATION) else None
    else if granted then
      s.lockout.None? && t.lockout.None? && t.failed == 0
    else
      || (t.failed == s.failed && t.lockout == s.lockout)
      || (s.lockout.Some? && s.lockout.value <= now && t.lockout.None? && t.failed == 0)
  }

  lemma StepEffect(s: State, e: Event)
    requires Invariant(s)
    ensures CounterMoves(s, Step(s, e), Refused(s, e), Granted(s, e), e.now)
  {
  }

  lemma BalanceStep(s: State, t: State, refused: bool, granted: bool, now: nat,
                    wrong: nat, grants: nat, locks: nat, first: nat, last: nat)
    requires Balanced(s, wrong, grants, locks, first, last) && last <= now
    requires s.failed <= 2 || s.lockout.Some?
    requires CounterMoves(s, t, refused, granted, now)
    ensures Balanced(t, wrong + if refused then 1 else 0, grants + if !refused && granted then 1 else 0,
                     locks + if s.lockout.None? && t.lockout.Some? then 1 else 0, first, now)
  {
    assert (locks + 1) * LOCKOUT_DURATION == locks * LOCKOUT_DURATION + LOCKOUT_DURATION;
  }

  lemma {:induction false} AccountBalances(es: seq<Event>)
    requires NonDecreasing(es) && es != []
    ensures Balanced(Run(es), WrongKeys(es), Grants(es), Lockouts(es), es[0].now, es[|es| - 1].now)
  {
    hide Step, Matches, Compares, CounterMoves;
    var front, e := es[..|es| - 1], es[|es| - 1];
    var s, last := Run(front), e.now;
    if front != [] {
      AccountBalances(front);
      last := front[|front| - 1].now;
    }
    ReachableStatesAreSound(front);
    StepEffect(s, e);
    BalanceStep(s, Step(s, e), Refused(s, e), Granted(s, e), e.now,
                WrongKeys(front), Grants(front), Lockouts(front), es[0].now, last);
  }

  /** At most three wrong keys for every started 10 s of the run, and two more for every unlock. */
  lemma WrongKeysAreBounded(es: seq<Event>)
    requires NonDecreasing(es)
    ensures WrongKeys(es) <= 3 * (Duration(es) / LOCKOUT_DURATION + 1) + 2 * Grants(es)
  {
    hide Step;
    WholeWindows(0, 0);
    if es != [] {
      AccountBalances(es);
      ReachableStatesAreSound(es);
      var locks := Lockouts(es);
      WholeWindows(Duration(es), if Run(es).lockout.Some? then locks - 1 else locks);
    }
  }

  /** So many full lockouts fit into a duration. */
  lemma WholeWindows(duration: int, locks: nat)
    requires locks * LOCKOUT_DURATION <= duration
    ensures locks <= duration / LOCKOUT_DURATION
  {
    assert LOCKOUT_DURATION == 10_000_000_000;
    assert locks * 10_000_000_000 <= duration;
  }
}
