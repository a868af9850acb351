/** The widths both boards compute in. */
module Machine {

  type byte = bv8

  /** Arithmetic of the STM32 is modulo this. */
  const WORD: nat := 0x1_0000_0000

  lemma NatOfByte(b: byte)
    ensures (b as nat) as byte == b
  {
  }

  lemma NextByte(b: byte)
    requires b < 255
    ensures (b + 1) as nat == b as nat + 1
  {
  }

  /** Every number below 256 is that of a byte. */
  lemma {:induction false} ByteFor(n: nat) returns (b: byte)
    requires n < 256
    ensures b as nat == n
  {
    if n == 0 {
      b := 0;
    } else {
      b := ByteFor(n - 1);
      assert b < 255;
      NextByte(b);
      b := b + 1;
    }
  }

  lemma SmallByte(n: nat)
    requires n < 256
    ensures (n as byte) as nat == n
  {
    var b := ByteFor(n);
    NatOfByte(b);
  }
}
