/**
 Machine words of the UDS side, where bytes are masked, shifted and xored. Rust's `u8` and `u32`
 are bit vectors: addition wraps and a shift count is masked, as in a release build.
 */
module Words {

  type u8 = bv8

  type u32 = bv32

  /** `u32::from_be_bytes`. */
  function FromBytes(b: seq<u8>): u32
    requires |b| == 4
  {
    ((b[0] as bv32) << 24) | ((b[1] as bv32) << 16) | ((b[2] as bv32) << 8) | (b[3] as bv32)
  }

  /** `u32::to_be_bytes`. */
  function ToBytes(x: u32): (b: seq<u8>)
    ensures |b| == 4
    ensures FromBytes(b) == x
  {
    [(x >> 24) as bv8, ((x >> 16) & 0xFF) as bv8, ((x >> 8) & 0xFF) as bv8, (x & 0xFF) as bv8]
  }

  /** Four bytes are determined by the word they spell. */
  lemma ToBytesFromBytes(b: seq<u8>)
    requires |b| == 4
    ensures ToBytes(FromBytes(b)) == b
  {
  }
}
