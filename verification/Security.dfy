/**
 The seed/key state machine of SecurityAccess (flxc1000-uds/src/security.rs): a class whose methods
 update its fields, the value-level functions that specify them, and the events of a run.
 */
module Security {
  import opened Wrappers
  import opened Words
  import opened NegativeResponses

  const MAX_ATTEMPTS: nat := 3

  /** Clock readings are nanoseconds, the resolution of `Instant`. */
  const MILLISECOND: nat := 1_000_000

  const LOCKOUT_DURATION: nat := 10_000 * MILLISECOND

  const ZERO_SEED: seq<u8> := [0x00, 0x00, 0x00, 0x00]

  datatype Challenge = Challenge(level: u8, seed: u32)

  datatype State = State(unlocked: u8, pending: Option<Challenge>, failed: nat, lockout: Option<nat>)

  const FRESH := State(0, None, 0, None)

  // ---------------------------------------------------------------------------------------------
  // Levels, their bits in the mask, and keys

  predicate IsSeedLevel(level: u8) {
    level % 2 == 1
  }

  predicate IsKeyLevel(level: u8) {
    level % 2 == 0 && level > 0
  }

  /** `1 << level` on a `u8`: the shift count is masked to three bits. */
  function Bit(level: u8): u8 {
    1 << (level & 7)
  }

  predicate HasBit(mask: u8, level: u8) {
    mask & Bit(level) != 0
  }

  /** Two levels that share a bit of the mask; below level 8 this is equality. */
  predicate SameBit(a: u8, b: u8) {
    a & 7 == b & 7
  }

  function CalculateKey(seed: u32, level: u8): u32 {
    seed ^ 0xDEAD_BEEF
  }

  lemma SetBit(mask: u8, a: u8, b: u8)
    ensures HasBit(mask | Bit(a), b) <==> HasBit(mask, b) || SameBit(a, b)
  {
  }

  // ---------------------------------------------------------------------------------------------
  // Specification of the three operations

  function SeedOutcome(s: State, level: u8, now: nat, entropy: u32): (State, Result<seq<u8>, Nrc>) {
    if !IsSeedLevel(level) then
      (s, Failure(SubFunctionNotSupported))
    else if s.lockout.Some? && now < s.lockout.value then
      (s, Failure(ExceededNumberOfAttempts))
    else
      var open := if s.lockout.Some? then s.(lockout := None, failed := 0) else s;
      if HasBit(open.unlocked, level) then
        (open.(pending := None), Success(ZERO_SEED))
      else
        var seed := if entropy == 0 then 1 else entropy;
        (open.(pending := Some(Challenge(level, seed))), Success(ToBytes(seed)))
  }

  /** The submission gets as far as comparing the key with the one expected. */
  predicate Compares(s: State, level: u8, key: seq<u8>) {
    IsKeyLevel(level) && s.pending.Some? && s.pending.value.level == level - 1 && |key| == 4
  }

  predicate Matches(s: State, level: u8, key: seq<u8>) {
    Compares(s, level, key) && FromBytes(key) == CalculateKey(s.pending.value.seed, level - 1)
  }

  function KeyOutcome(s: State, level: u8, key: seq<u8>, now: nat): (State, Result<(), Nrc>) {
    if !IsKeyLevel(level) then
      (s, Failure(SubFunctionNotSupported))
    else if s.pending.None? then
      (s, Failure(RequestSequenceError))
    else
      var taken := s.(pending := None);
      if s.pending.value.level != level - 1 then
        (taken, Failure(RequestSequenceError))
      else if |key| != 4 then
        (taken, Failure(IncorrectMessageLengthOrInvalidFormat))
      else if FromBytes(key) == CalculateKey(s.pending.value.seed, level - 1) then
        (taken.(unlocked := s.unlocked | Bit(level - 1), failed := 0), Success(()))
      else
        var failed := (s.failed + 1) % 256;
        if failed >= MAX_ATTEMPTS then
          (taken.(failed := failed, lockout := Some(now + LOCKOUT_DURATION)), Failure(ExceededNumberOfAttempts))
        else
          (taken.(failed := failed), Failure(InvalidKey))
  }

  function Relocked(s: State): State {
    s.(unlocked := 0, pending := None)
  }

  // ---------------------------------------------------------------------------------------------
  // Runs

  datatype Call =
    | Seed(level: u8, entropy: u32)
    | Key(level: u8, key: seq<u8>)
    | Relock

  /** One call of the public interface, with the clock reading it takes. */
  datatype Event = At(now: nat, call: Call)

  function Step(s: State, e: Event): State {
    match e.call
    case Seed(level, entropy) => SeedOutcome(s, level, e.now, entropy).0
    case Key(level, key) => KeyOutcome(s, level, key, e.now).0
    case Relock => Relocked(s)
  }

  function RunFrom(s: State, es: seq<Event>): State {
    if es == [] then s else Step(RunFrom(s, es[..|es| - 1]), es[|es| - 1])
  }

  function Run(es: seq<Event>): State {
    RunFrom(FRESH, es)
  }

  lemma {:induction false} RunFromAppend(s: State, a: seq<Event>, b: seq<Event>)
    ensures RunFrom(s, a + b) == RunFrom(RunFrom(s, a), b)
  {
    if b == [] {
      assert a + b == a;
    } else {
      RunFromAppend(s, a, b[..|b| - 1]);
      assert (a + b)[..|a + b| - 1] == a + b[..|b| - 1];
    }
  }

  lemma RunPrefix(es: seq<Event>, k: nat)
    requires k < |es|
    ensures Run(es[..k + 1]) == Step(Run(es[..k]), es[k])
  {
    assert es[..k + 1][..k] == es[..k];
  }

  // ---------------------------------------------------------------------------------------------
  // The state machine as an object

  class SecurityState {
    var unlockedLevels: u8
    var pendingSeed: Option<Challenge>
    var failedAttempts: nat
    var lockoutUntil: Option<nat>

    function View(): State
      reads this
    {
      State(unlockedLevels, pendingSeed, failedAttempts, lockoutUntil)
    }

    constructor ()
      ensures View() == FRESH
    {
      unlockedLevels, pendingSeed, failedAttempts, lockoutUntil := 0, None, 0, None;
    }

    predicate IsUnlocked(level: u8)
      reads this
    {
      HasBit(unlockedLevels, level)
    }

    method Reset()
      modifies this
      ensures View() == Relocked(old(View()))
    {
      unlockedLevels := 0;
      pendingSeed := None;
    }

    method RequestSeed(level: u8, now: nat, entropy: u32) returns (r: Result<seq<u8>, Nrc>)
      modifies this
      ensures (View(), r) == SeedOutcome(old(View()), level, now, entropy)
    {
      if !IsSeedLevel(level) {
        return Failure(SubFunctionNotSupported);
      }
      if lockoutUntil.Some? {
        if now < lockoutUntil.value {
          return Failure(ExceededNumberOfAttempts);
        }
        lockoutUntil := None;
        failedAttempts := 0;
      }
      if IsUnlocked(level) {
        pendingSeed := None;
        return Success([0x00, 0x00, 0x00, 0x00]);
      }
      var seed := if entropy == 0 then 1 else entropy;
      pendingSeed := Some(Challenge(level, seed));
      return Success(ToBytes(seed));
    }

    method SubmitKey(level: u8, key: seq<u8>, now: nat) returns (r: Result<(), Nrc>)
      modifies this
      ensures (View(), r) == KeyOutcome(old(View()), level, key, now)
    {
      if !IsKeyLevel(level) {
        return Failure(SubFunctionNotSupported);
      }
      var seedLevel := level - 1;
      var taken := pendingSeed;
      pendingSeed := None;
      if taken.None? || taken.value.level != seedLevel {
        return Failure(RequestSequenceError);
      }
      if |key| != 4 {
        return Failure(IncorrectMessageLengthOrInvalidFormat);
      }
      if FromBytes(key) == CalculateKey(taken.value.seed, seedLevel) {
        unlockedLevels := unlockedLevels | Bit(seedLevel);
        failedAttempts := 0;
        return Success(());
      }
      failedAttempts := (failedAttempts + 1) % 256;
      if failedAttempts >= MAX_ATTEMPTS {
        lockoutUntil := Some(now + LOCKOUT_DURATION);
        return Failure(ExceededNumberOfAttempts);
      }
      return Failure(InvalidKey);
    }
  }
}
