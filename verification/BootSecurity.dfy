/** The bootloader's seed generator (flxc1000-boot/src/main.rs), on numbers modulo 2^32. */
module BootSeed {
  import opened Octets

  const MODULUS: int := 0x1_0000_0000

  type u32 = x: int | 0 <= x < MODULUS

  /** `wrapping_mul` of the low 32 bits of the clock, Knuth's multiplicative hash. */
  function SeedOf(nanos: u32): u32 {
    (nanos as int * 2654435761) % MODULUS
  }

  /** The clock reading that a seed was made from. */
  function ClockOf(seed: u32): u32 {
    (seed as int * 244002641) % MODULUS
  }

  /** Two multipliers whose product is one more than a multiple of 2^32 undo each other. */
  lemma MultipliersCancel(x: u32, a: int, b: int, k: int)
    requires a * b == 1 + k * MODULUS
    ensures ((x as int * a) % MODULUS * b) % MODULUS == x
  {
    var q := x as int * a / MODULUS;
    var r := x as int * a % MODULUS;
    assert r * b == (x as int * a - q * MODULUS) * b;
    assert r * b == x as int * (a * b) - q * b * MODULUS;
    assert r * b == x as int + (x as int * k - q * b) * MODULUS;
    RemainderOfSum(x as int, x as int * k - q * b);
  }

  lemma RemainderOfSum(x: int, t: int)
    requires 0 <= x < MODULUS
    ensures (x + t * MODULUS) % MODULUS == x
  {
  }

  /** Seeds and clock readings determine each other, so distinct readings give distinct seeds. */
  lemma SeedMapIsBijective(nanos: u32, seed: u32)
    ensures SeedOf(nanos) == seed <==> nanos == ClockOf(seed)
  {
    var k := 2654435761 * 244002641 / MODULUS;
    assert 2654435761 * 244002641 == 1 + k * MODULUS;
    MultipliersCancel(nanos, 2654435761, 244002641, k);
    MultipliersCancel(seed, 244002641, 2654435761, k);
  }

  method GenerateSeed(level: byte, buf: array<byte>, nanos: u32) returns (written: nat)
    requires buf.Length >= 4
    modifies buf
    ensures written == 4
    ensures U32(buf[0], buf[1], buf[2], buf[3]).Value() == SeedOf(nanos)
    ensures buf[4..] == old(buf[4..])
  {
    hide ToU32, SeedOf;
    var seed := ToU32(SeedOf(nanos));
    LowBits(SeedOf(nanos), 0, SeedOf(nanos));
    buf[0], buf[1], buf[2], buf[3] := seed.b0, seed.b1, seed.b2, seed.b3;
    return 4;
  }
}

/** The bootloader's key check, on words that are xored. */
module BootKey {
  import opened Wrappers
  import opened Words
  import Security

  datatype SecurityError = InvalidKey

  function ValidateKey(level: u8, seed: seq<u8>, key: seq<u8>): Result<(), SecurityError> {
    if |seed| < 4 || |key| < 4 then Failure(InvalidKey)
    else if FromBytes(key[..4]) == FromBytes(seed[..4]) ^ 0xDEAD_BEEF then Success(())
    else Failure(InvalidKey)
  }

  /** The key that fits a seed: its bytes xored with DE AD BE EF, one by one. */
  function KeyFor(seed: seq<u8>): seq<u8>
    requires |seed| == 4
  {
    [seed[0] ^ 0xDE, seed[1] ^ 0xAD, seed[2] ^ 0xBE, seed[3] ^ 0xEF]
  }

  lemma KeyForSpellsXor(seed: seq<u8>)
    requires |seed| == 4
    ensures ToBytes(FromBytes(seed) ^ 0xDEAD_BEEF) == KeyFor(seed)
  {
  }

  lemma FromBytesIsInjective(a: seq<u8>, b: seq<u8>)
    requires |a| == 4 && |b| == 4
    ensures FromBytes(a) == FromBytes(b) ==> a == b
  {
    hide FromBytes, ToBytes;
    ToBytesFromBytes(a);
    ToBytesFromBytes(b);
  }

  /** For each seed the first four bytes of the key are fixed, byte by byte; the rest is free. */
  lemma OneKeyPasses(level: u8, seed: seq<u8>, key: seq<u8>)
    ensures ValidateKey(level, seed, key).Success? <==> |seed| >= 4 && |key| >= 4 && key[..4] == KeyFor(seed[..4])
  {
    hide FromBytes, ToBytes, KeyFor;
    if |seed| >= 4 && |key| >= 4 {
      KeyForSpellsXor(seed[..4]);
      FromBytesIsInjective(key[..4], KeyFor(seed[..4]));
    }
  }

  /** On keys of four bytes the two security implementations agree. */
  lemma AgreesWithDispatcher(s: Security.State, level: u8, seed: seq<u8>, key: seq<u8>, now: nat)
    requires |seed| == 4 && Security.IsKeyLevel(level)
    requires s.pending == Some(Security.Challenge(level - 1, FromBytes(seed)))
    ensures Security.KeyOutcome(s, level, key, now).1.Success?
            <==> |key| == 4 && ValidateKey(level - 1, seed, key).Success?
  {
    hide FromBytes;
    assert seed[..4] == seed;
    if |key| == 4 {
      assert key[..4] == key;
    }
  }
}
