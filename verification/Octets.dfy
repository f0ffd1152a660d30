/**
 Bytes and big-endian numbers on the wire. A number is kept as its bytes: addresses and type codes are only ever
 compared, and only lengths are computed with.
 */
module Octets {

  type byte = x: int | 0 <= x < 256

  datatype U16 = U16(hi: byte, lo: byte) {
    /** `u16::to_be_bytes`; the constructor is `u16::from_be_bytes`. */
    function Bytes(): seq<byte> {
      [hi, lo]
    }
  }

  datatype U32 = U32(b0: byte, b1: byte, b2: byte, b3: byte) {
    /** `u32::to_be_bytes`; the constructor is `u32::from_be_bytes`. */
    function Bytes(): seq<byte> {
      [b0, b1, b2, b3]
    }

    function Value(): nat {
      0x100_0000 * b0 + 0x1_0000 * b1 + 0x100 * b2 + b3
    }
  }

  /** The conversion of a length, `n as u32`: the number with the value of its low 32 bits. */
  function ToU32(n: nat): (x: U32)
    ensures x.Value() == n % 0x1_0000_0000
  {
    LowBitsAreSpelled(n);
    ValuesAreUnique(n % 0x1_0000_0000);
    var x: U32 :| x.Value() == n % 0x1_0000_0000;
    x
  }

  lemma LowBitsAreSpelled(n: nat)
    ensures exists x: U32 :: x.Value() == n % 0x1_0000_0000
  {
    var q1 := n / 0x100;
    var q2 := q1 / 0x100;
    var q3 := q2 / 0x100;
    var x := U32(q3 % 0x100, q2 % 0x100, q1 % 0x100, n % 0x100);
    LowBits(n, q3 / 0x100, x.Value());
  }

  lemma LowBits(n: nat, q: nat, low: nat)
    requires n == 0x1_0000_0000 * q + low && low < 0x1_0000_0000
    ensures n % 0x1_0000_0000 == low
  {
  }

  lemma ValuesAreUnique(v: nat)
    ensures forall x: U32, y: U32 :: x.Value() == v && y.Value() == v ==> x == y
  {
    forall x: U32, y: U32 | x.Value() == v && y.Value() == v ensures x == y {
      SameValue(x, y);
    }
  }

  lemma SameValue(x: U32, y: U32)
    requires x.Value() == y.Value()
    ensures x == y
  {
    var xh, yh := 0x1_0000 * x.b0 + 0x100 * x.b1 + x.b2, 0x1_0000 * y.b0 + 0x100 * y.b1 + y.b2;
    LastByte(xh, x.b3, yh, y.b3);
    LastByte(0x100 * x.b0 + x.b1, x.b2, 0x100 * y.b0 + y.b1, y.b2);
    LastByte(x.b0, x.b1, y.b0, y.b1);
  }

  lemma LastByte(xh: nat, x: byte, yh: nat, y: byte)
    requires 0x100 * xh + x == 0x100 * yh + y
    ensures xh == yh && x == y
  {
  }
}
