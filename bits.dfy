/** The bit view of a byte, for C's masks and shifts on `unsigned char`. */
module Bits {

  /** A value that fits in a byte keeps it when seen as eight bits. */
  lemma BitsOfByte(n: int)
    requires 0 <= n < 0x100
    ensures (n as bv8) as int == n
  {
  }

  lemma LowBits(bits: bv8)
    ensures (bits & 7) as int == bits as int % 8
  {
  }

  lemma ShiftBits(bits: bv8)
    ensures (bits >> 3) as int == bits as int / 8
  {
  }

  lemma MiddleBits(bits: bv8)
    ensures ((bits >> 3) & 7) as int == bits as int / 8 % 8
  {
    ShiftBits(bits);
    LowBits(bits >> 3);
  }
}
