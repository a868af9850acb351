/** The frame checksum shared by the STM32 and K230 ends of the serial link.

    The register is a `bv16`, shifted right one bit at a time with feedback 0xA001, as in
    section 6.2.2 (CRC Generation) of the MODBUS over Serial Line Specification and
    Implementation Guide V1.02.  The rest of the module is the error-detection algebra:
    the bit-serial view, linearity, the zero residue of a checked block, bursts of up to
    sixteen bits and odd numbers of flipped bits.

    Algebraic lemmas `hide` the register operations, so that the solver chains the few
    bit-level facts proved first instead of expanding registers into bits. */
module Crc16 {
  import opened Machine

  const INIT: bv16 := 0xFFFF

  function Shift(c: bv16): bv16 {
    if c & 1 != 0 then (c >> 1) ^ 0xA001 else c >> 1
  }

  function Xor(x: bv16, y: bv16): bv16 {
    x ^ y
  }

  function Shifts(c: bv16, n: nat): bv16 {
    if n == 0 then c else Shift(Shifts(c, n - 1))
  }

  function Update(c: bv16, b: byte): bv16 {
    Shifts(Xor(c, b as bv16), 8)
  }

  function CrcFrom(c: bv16, data: seq<byte>): bv16 {
    if data == [] then c else Update(CrcFrom(c, data[..|data| - 1]), data[|data| - 1])
  }

  function Crc(data: seq<byte>): bv16 {
    CrcFrom(INIT, data)
  }

  function Lo(c: bv16): byte { (c & 0xFF) as byte }

  function Hi(c: bv16): byte { (c >> 8) as byte }

  /** A checksum assembled from its two received bytes. */
  function Received(lo: byte, hi: byte): bv16 {
    ((hi as bv16) << 8) | (lo as bv16)
  }

  /** The nested loops of the checksum over `len` bytes of a buffer. */
  method Compute(data: array<byte>, off: nat, len: nat) returns (crc: bv16)
    requires off + len <= data.Length
    ensures crc == Crc(data[off..off + len])
  {
    crc := INIT;
    for i := 0 to len
      invariant crc == Crc(data[off..off + i])
    {
      ghost var entry := crc;
      crc := crc ^ (data[off + i] as bv16);
      for j := 0 to 8
        invariant crc == Shifts(Xor(entry, data[off + i] as bv16), j)
      {
        if crc & 1 != 0 {
          crc := (crc >> 1) ^ 0xA001;
        } else {
          crc := crc >> 1;
        }
      }
      assert data[off..off + i + 1][..i] == data[off..off + i];
    }
  }

  lemma EightSteps(c: bv16)
    ensures Shifts(c, 8) == Shift(Shift(Shift(Shift(Shift(Shift(Shift(Shift(c))))))))
  {
    hide Shift;
    assert Shifts(c, 1) == Shift(Shifts(c, 0)) && Shifts(c, 2) == Shift(Shifts(c, 1));
    assert Shifts(c, 3) == Shift(Shifts(c, 2)) && Shifts(c, 4) == Shift(Shifts(c, 3));
    assert Shifts(c, 5) == Shift(Shifts(c, 4)) && Shifts(c, 6) == Shift(Shifts(c, 5));
    assert Shifts(c, 7) == Shift(Shifts(c, 6));
  }

  /** The example of the MODBUS standard: the message 02 07 has checksum bytes 41 12. */
  lemma ModbusExample()
    ensures Crc([0x02, 0x07]) == 0x1241
  {
    EightSteps(0xFFFD);
    EightSteps(0x8139);
    assert Shift(0xFFFD) == 0xDFFF && Shift(0xDFFF) == 0xCFFE && Shift(0xCFFE) == 0x67FF && Shift(0x67FF) == 0x93FE;
    assert Shift(0x93FE) == 0x49FF && Shift(0x49FF) == 0x84FE && Shift(0x84FE) == 0x427F && Shift(0x427F) == 0x813E;
    assert Shift(0x8139) == 0xE09D && Shift(0xE09D) == 0xD04F && Shift(0xD04F) == 0xC826 && Shift(0xC826) == 0x6413;
    assert Shift(0x6413) == 0x9208 && Shift(0x9208) == 0x4904 && Shift(0x4904) == 0x2482 && Shift(0x2482) == 0x1241;
    assert Update(0xFFFF, 0x02) == 0x813E;
    assert Update(0x813E, 0x07) == 0x1241;
    assert [0x02, 0x07][..1] == [0x02];
    assert CrcFrom(INIT, [0x02]) == Update(INIT, 0x02);
  }

  // ----- Bit-level facts -----

  function Bit(b: bool): bv16 { if b then 1 else 0 }

  /** Feeds one bit, in the order a UART sends them (least significant first). */
  function BitStep(c: bv16, b: bool): bv16 {
    Shift(Xor(c, Bit(b)))
  }

  lemma XorSelf(x: bv16)
    ensures Xor(x, x) == 0
  {
  }

  lemma XorIsZero(x: bv16, y: bv16)
    ensures Xor(x, y) == 0 <==> x == y
  {
    hide Xor;
    XorSelf(y);
    XorAssoc(x, y, y);
    XorWithZero(x);
    XorWithZero(y);
  }

  lemma XorWithZero(x: bv16)
    ensures Xor(x, 0) == x && Xor(0, x) == x
  {
  }

  lemma XorComm(x: bv16, y: bv16)
    ensures Xor(x, y) == Xor(y, x)
  {
  }

  lemma XorAssoc(x: bv16, y: bv16, z: bv16)
    ensures Xor(Xor(x, y), z) == Xor(x, Xor(y, z))
  {
  }

  lemma XorMoves(x: bv16, y: bv16, z: bv16)
    ensures Xor(x, y) == z <==> x == Xor(z, y)
  {
    hide Xor;
    XorIsZero(y, y);
    XorAssoc(x, y, y);
    XorAssoc(z, y, y);
    XorWithZero(x);
    XorWithZero(z);
  }

  lemma XorPairs(a: bv16, b: bv16, c: bv16, d: bv16)
    ensures Xor(Xor(a, b), Xor(c, d)) == Xor(Xor(a, c), Xor(b, d))
  {
    hide Xor;
    XorAssoc(a, b, Xor(c, d));
    XorAssoc(b, c, d);
    XorComm(b, c);
    XorAssoc(c, b, d);
    XorAssoc(a, c, Xor(b, d));
  }

  lemma BitXor(p: bool, q: bool)
    ensures Bit(p != q) == Xor(Bit(p), Bit(q))
  {
  }

  lemma LowBitIsBit(c: bv16)
    ensures c & 1 == Bit(c & 1 != 0)
  {
  }

  /** `Shift` without a branch: a form the bit-vector solver can expand. */
  function MaskShift(c: bv16): bv16 {
    (c >> 1) ^ (0xA001 & (0 - (c & 1)))
  }

  lemma ShiftIsMaskShift(c: bv16)
    ensures Shift(c) == MaskShift(c)
  {
    LowBitIsBit(c);
    if c & 1 != 0 {
      assert 0xA001 & (0 - 1 as bv16) == 0xA001;
    } else {
      assert 0xA001 & (0 - 0 as bv16) == 0;
      assert (c >> 1) ^ 0 == c >> 1;
    }
  }

  lemma MaskShiftLinear(x: bv16, y: bv16)
    ensures MaskShift(Xor(x, y)) == Xor(MaskShift(x), MaskShift(y))
  {
  }

  /** The feedback register is linear over exclusive or. */
  lemma ShiftLinear(x: bv16, y: bv16)
    ensures Shift(Xor(x, y)) == Xor(Shift(x), Shift(y))
  {
    hide Shift, MaskShift, Xor;
    ShiftIsMaskShift(x);
    ShiftIsMaskShift(y);
    ShiftIsMaskShift(Xor(x, y));
    MaskShiftLinear(x, y);
  }

  lemma ShiftZero(x: bv16)
    ensures Shift(x) == 0 <==> x == 0
  {
  }

  lemma MaskShiftAbsorbs(c: bv16, m: bv16)
    ensures MaskShift(Xor(c, m)) == Xor(MaskShift(Xor(c, m & 1)), m >> 1)
  {
  }

  /** Shifting a register that still carries unread message bits `m` reads one of them. */
  lemma ShiftAbsorbs(c: bv16, m: bv16)
    ensures Shift(Xor(c, m)) == Xor(BitStep(c, m & 1 != 0), m >> 1)
  {
    hide Shift, MaskShift, Xor, Bit;
    LowBitIsBit(m);
    ShiftIsMaskShift(Xor(c, m));
    MaskShiftAbsorbs(c, m);
    ShiftIsMaskShift(Xor(c, m & 1));
  }

  /** When no feedback reaches the top bit, the low bit of the register was the bit read. */
  lemma QuietStep(c: bv16, b: bool)
    ensures BitStep(c, b) & 0x8000 == 0 <==> (c & 1 != 0) == b
    ensures (c & 1 != 0) == b ==> BitStep(c, b) == c >> 1
  {
    LowBitIsBit(c);
  }

  // ----- The bit-serial view -----

  function BitCrc(c: bv16, bits: seq<bool>): bv16
    decreases |bits|
  {
    if bits == [] then c else BitCrc(BitStep(c, bits[0]), bits[1..])
  }

  /** The `n` low bits of `m`, least significant first. */
  function LowBits(m: bv16, n: nat): (r: seq<bool>)
    ensures |r| == n
  {
    if n == 0 then [] else [m & 1 != 0] + LowBits(m >> 1, n - 1)
  }

  function Drop(m: bv16, n: nat): bv16 {
    if n == 0 then m else Drop(m >> 1, n - 1)
  }

  function Bits(b: byte): (r: seq<bool>)
    ensures |r| == 8
  {
    LowBits(b as bv16, 8)
  }

  /** The bits of a block in wire order. */
  function StreamBits(data: seq<byte>): (r: seq<bool>)
    ensures |r| == 8 * |data|
  {
    if data == [] then [] else StreamBits(data[..|data| - 1]) + Bits(data[|data| - 1])
  }

  lemma {:induction false} ShiftsFromFront(c: bv16, n: nat)
    requires n > 0
    ensures Shifts(c, n) == Shifts(Shift(c), n - 1)
  {
    hide Shift;
    if n > 1 {
      ShiftsFromFront(c, n - 1);
    }
  }

  lemma {:induction false} ShiftsReadBits(c: bv16, m: bv16, n: nat)
    ensures Shifts(Xor(c, m), n) == Xor(BitCrc(c, LowBits(m, n)), Drop(m, n))
    decreases n
  {
    hide Shift, BitStep, Xor;
    if n > 0 {
      var c', m' := BitStep(c, m & 1 != 0), m >> 1;
      ShiftsFromFront(Xor(c, m), n);
      ShiftAbsorbs(c, m);
      ShiftsReadBits(c', m', n - 1);
      assert LowBits(m, n)[1..] == LowBits(m', n - 1);
    }
  }

  lemma EightShifts(m: bv16)
    requires m <= 0xFF
    ensures m >> 1 >> 1 >> 1 >> 1 >> 1 >> 1 >> 1 >> 1 == 0
  {
  }

  lemma DropTwo(m: bv16, n: nat)
    requires n >= 2
    ensures Drop(m, n) == Drop(m >> 1 >> 1, n - 2)
  {
    assert Drop(m, n) == Drop(m >> 1, n - 1);
  }

  lemma DropByte(b: byte)
    ensures Drop(b as bv16, 8) == 0
  {
    var m := b as bv16;
    DropTwo(m, 8);
    DropTwo(m >> 1 >> 1, 6);
    DropTwo(m >> 1 >> 1 >> 1 >> 1, 4);
    DropTwo(m >> 1 >> 1 >> 1 >> 1 >> 1 >> 1, 2);
    EightShifts(m);
  }

  lemma UpdateIsSerial(c: bv16, b: byte)
    ensures Update(c, b) == BitCrc(c, Bits(b))
  {
    hide Shifts, BitCrc, LowBits, Drop, Xor;
    ShiftsReadBits(c, b as bv16, 8);
    DropByte(b);
    XorWithZero(BitCrc(c, Bits(b)));
  }

  lemma {:induction false} BitCrcConcat(c: bv16, p: seq<bool>, q: seq<bool>)
    ensures BitCrc(c, p + q) == BitCrc(BitCrc(c, p), q)
    decreases |p|
  {
    hide BitStep;
    if p == [] {
      assert p + q == q;
    } else {
      BitCrcConcat(BitStep(c, p[0]), p[1..], q);
      assert (p + q)[1..] == p[1..] + q;
    }
  }

  /** The byte-wise checksum is the bit-serial one over the bits in wire order. */
  lemma {:induction false} CrcIsSerial(c: bv16, data: seq<byte>)
    ensures CrcFrom(c, data) == BitCrc(c, StreamBits(data))
  {
    hide Update, BitStep, Bits;
    if data != [] {
      var init, last := data[..|data| - 1], data[|data| - 1];
      CrcIsSerial(c, init);
      UpdateIsSerial(CrcFrom(c, init), last);
      BitCrcConcat(c, StreamBits(init), Bits(last));
    }
  }

  // ----- Zero residue of a checked block -----

  lemma {:induction false} ShiftsLinear(x: bv16, y: bv16, n: nat)
    ensures Shifts(Xor(x, y), n) == Xor(Shifts(x, n), Shifts(y, n))
  {
    hide Shift, Xor;
    if n > 0 {
      ShiftsLinear(x, y, n - 1);
      ShiftLinear(Shifts(x, n - 1), Shifts(y, n - 1));
    }
  }

  lemma {:induction false} ShiftsZero(x: bv16, n: nat)
    ensures Shifts(x, n) == 0 <==> x == 0
  {
    hide Shift;
    if n > 0 {
      ShiftsZero(x, n - 1);
      ShiftZero(Shifts(x, n - 1));
    }
  }

  /** Shifting is injective. */
  lemma ShiftsEqual(x: bv16, y: bv16, n: nat)
    ensures Shifts(x, n) == Shifts(y, n) <==> x == y
  {
    hide Shifts, Xor;
    ShiftsLinear(x, y, n);
    ShiftsZero(Xor(x, y), n);
    XorIsZero(x, y);
    XorIsZero(Shifts(x, n), Shifts(y, n));
  }

  lemma HighByteQuiet(h: bv16)
    requires h <= 0xFF
    ensures Shift(h << 8) == h << 7 && Shift(h << 7) == h << 6 && Shift(h << 6) == h << 5 && Shift(h << 5) == h << 4
    ensures Shift(h << 4) == h << 3 && Shift(h << 3) == h << 2 && Shift(h << 2) == h << 1 && Shift(h << 1) == h
  {
  }

  /** Eight shifts move a high byte down unchanged: no feedback fires. */
  lemma ShiftsHighByte(h: bv16)
    requires h <= 0xFF
    ensures Shifts(h << 8, 8) == h
  {
    hide Shift;
    HighByteQuiet(h);
    var x := h << 8;
    assert Shifts(x, 0) == x;
    assert Shifts(x, 1) == h << 7;
    assert Shifts(x, 2) == h << 6;
    assert Shifts(x, 3) == h << 5;
    assert Shifts(x, 4) == h << 4;
    assert Shifts(x, 5) == h << 3;
    assert Shifts(x, 6) == h << 2;
    assert Shifts(x, 7) == h << 1;
  }

  lemma ReceivedLoHi(c: bv16)
    ensures Received(Lo(c), Hi(c)) == c
  {
  }

  lemma ReceivedIsXor(lo: byte, hi: byte)
    ensures Received(lo, hi) == Xor((hi as bv16) << 8, lo as bv16)
  {
  }

  lemma TwoByteResidue(c: bv16, lo: byte, hi: byte)
    ensures Update(Update(c, lo), hi) == 0 <==> c == Received(lo, hi)
  {
    hide Shifts, Received, Xor;
    var l, h := lo as bv16, hi as bv16;
    var x := Xor(c, l);
    ShiftsZero(Xor(Shifts(x, 8), h), 8);
    XorIsZero(Shifts(x, 8), h);
    ShiftsHighByte(h);
    ShiftsEqual(x, h << 8, 8);
    XorMoves(c, l, h << 8);
    ReceivedIsXor(lo, hi);
  }

  /** Running the checksum over a block followed by its two checksum bytes leaves zero
      exactly when the two bytes are the checksum of the block. */
  lemma ZeroResidue(data: seq<byte>, lo: byte, hi: byte)
    ensures Crc(data + [lo, hi]) == 0 <==> Received(lo, hi) == Crc(data)
  {
    hide Update, Received;
    var w := data + [lo, hi];
    assert w[..|w| - 1] == data + [lo];
    assert (data + [lo])[..|data|] == data;
    TwoByteResidue(Crc(data), lo, hi);
    assert CrcFrom(INIT, w) == Update(CrcFrom(INIT, data + [lo]), hi);
    assert CrcFrom(INIT, data + [lo]) == Update(CrcFrom(INIT, data), lo);
  }

  // ----- Error detection -----

  function XorBits(p: seq<bool>, q: seq<bool>): (r: seq<bool>)
    requires |p| == |q|
    ensures |r| == |p|
    ensures forall i | 0 <= i < |r| :: r[i] == (p[i] != q[i])
  {
    seq(|p|, i requires 0 <= i < |p| && |p| == |q| => p[i] != q[i])
  }

  lemma StepLinear(x: bv16, y: bv16, p: bool, q: bool)
    ensures BitStep(Xor(x, y), p != q) == Xor(BitStep(x, p), BitStep(y, q))
  {
    hide Shift, Xor, Bit;
    BitXor(p, q);
    XorPairs(x, y, Bit(p), Bit(q));
    ShiftLinear(Xor(x, Bit(p)), Xor(y, Bit(q)));
  }

  /** Linearity: the registers of two messages differ by the register of their difference. */
  lemma {:induction false} BitCrcLinear(x: bv16, y: bv16, p: seq<bool>, q: seq<bool>)
    requires |p| == |q|
    ensures BitCrc(Xor(x, y), XorBits(p, q)) == Xor(BitCrc(x, p), BitCrc(y, q))
    decreases |p|
  {
    hide BitStep, Xor;
    if p != [] {
      StepLinear(x, y, p[0], q[0]);
      BitCrcLinear(BitStep(x, p[0]), BitStep(y, q[0]), p[1..], q[1..]);
      assert XorBits(p, q)[1..] == XorBits(p[1..], q[1..]);
    }
  }

  predicate AllFalse(p: seq<bool>) {
    forall i | 0 <= i < |p| :: !p[i]
  }

  lemma QuietBit(c: bv16)
    ensures BitStep(c, false) == 0 <==> c == 0
  {
    hide Shift, Xor;
    XorWithZero(c);
    ShiftZero(c);
  }

  /** Reading zeros neither creates nor removes a difference. */
  lemma {:induction false} ZerosKeepZero(c: bv16, p: seq<bool>)
    requires AllFalse(p)
    ensures BitCrc(c, p) == 0 <==> c == 0
    decreases |p|
  {
    hide BitStep;
    if p != [] {
      QuietBit(c);
      ZerosKeepZero(BitStep(c, false), p[1..]);
    }
  }

  /** The register holds exactly the bits `p`, least significant first. */
  predicate Matches(c: bv16, p: seq<bool>)
    decreases |p|
  {
    if p == [] then c == 0 else (c & 1 != 0) == p[0] && Matches(c >> 1, p[1..])
  }

  predicate TrailingZeros(m: bv16, n: nat) {
    n == 0 || (m & 1 == 0 && TrailingZeros(m >> 1, n - 1))
  }

  lemma LowBitClear(c: bv16, m: bv16)
    requires m & 1 == 0
    requires (c >> 1) & (m >> 1) == 0
    ensures c & m == 0
  {
  }

  lemma {:induction false} MatchesBelow(c: bv16, p: seq<bool>, m: bv16)
    requires Matches(c, p) && TrailingZeros(m, |p|)
    ensures c & m == 0
    decreases |p|
  {
    if p == [] {
      assert 0 & m == 0;
    } else {
      MatchesBelow(c >> 1, p[1..], m >> 1);
      LowBitClear(c, m);
    }
  }

  lemma {:induction false} FewerTrailingZeros(m: bv16, n: nat, k: nat)
    requires TrailingZeros(m, n) && k <= n
    ensures TrailingZeros(m, k)
    decreases n
  {
    if k > 0 {
      FewerTrailingZeros(m >> 1, n - 1, k - 1);
    }
  }

  lemma TopBitTrailingZeros(n: nat)
    requires n <= 15
    ensures TrailingZeros(0x8000, n)
  {
    assert TrailingZeros(0x0002, 1);
    assert TrailingZeros(0x0004, 2);
    assert TrailingZeros(0x0008, 3);
    assert TrailingZeros(0x0010, 4);
    assert TrailingZeros(0x0020, 5);
    assert TrailingZeros(0x0040, 6);
    assert TrailingZeros(0x0080, 7);
    assert TrailingZeros(0x0100, 8);
    assert TrailingZeros(0x0200, 9);
    assert TrailingZeros(0x0400, 10);
    assert TrailingZeros(0x0800, 11);
    assert TrailingZeros(0x1000, 12);
    assert TrailingZeros(0x2000, 13);
    assert TrailingZeros(0x4000, 14);
    assert TrailingZeros(0x8000, 15);
    FewerTrailingZeros(0x8000, 15, n);
  }

  /** Up to sixteen bits leave zero only if the register held exactly those bits. */
  lemma {:induction false} ShortResidue(c: bv16, p: seq<bool>)
    requires |p| <= 16 && BitCrc(c, p) == 0
    ensures Matches(c, p)
    decreases |p|
  {
    hide BitStep;
    if p != [] {
      var c' := BitStep(c, p[0]);
      ShortResidue(c', p[1..]);
      TopBitTrailingZeros(|p| - 1);
      MatchesBelow(c', p[1..], 0x8000);
      QuietStep(c, p[0]);
    }
  }

  lemma {:induction false} ZeroMatches(p: seq<bool>)
    requires Matches(0, p)
    ensures AllFalse(p)
  {
    if p != [] {
      assert (0 as bv16) >> 1 == 0;
      assert (0 as bv16) & 1 == 0;
      ZeroMatches(p[1..]);
      forall i | 0 <= i < |p|
        ensures !p[i]
      {
        assert i > 0 ==> p[i] == p[1..][i - 1];
      }
    }
  }

  /** Flipped bits that all lie within sixteen consecutive positions. */
  predicate Burst(e: seq<bool>, k: nat) {
    && !AllFalse(e)
    && forall i | 0 <= i < |e| && e[i] :: k <= i < k + 16
  }

  lemma WindowLeavesResidue(a: seq<bool>, b: seq<bool>, d: seq<bool>)
    requires AllFalse(a) && AllFalse(d) && !AllFalse(b) && |b| <= 16
    ensures BitCrc(0, a + (b + d)) != 0
  {
    hide BitStep, BitCrc, AllFalse, Matches;
    BitCrcConcat(0, a, b + d);
    ZerosKeepZero(0, a);
    BitCrcConcat(0, b, d);
    ZerosKeepZero(BitCrc(0, b), d);
    if BitCrc(0, b) == 0 {
      ShortResidue(0, b);
      ZeroMatches(b);
      assert false;
    }
  }

  lemma BurstWindow(e: seq<bool>, k: nat, lo: nat, hi: nat)
    requires Burst(e, k)
    requires lo <= hi <= |e| && lo <= k && (k <= lo || lo == |e|)
    requires hi <= k + 16 && (hi == k + 16 || hi == |e|)
    ensures AllFalse(e[..lo]) && AllFalse(e[hi..]) && !AllFalse(e[lo..hi])
  {
    var i :| 0 <= i < |e| && e[i];
    assert e[lo..hi][i - lo];
    forall j | 0 <= j < |e| - hi
      ensures !e[hi..][j]
    {
      assert e[hi..][j] == e[hi + j];
    }
  }

  lemma BurstLeavesResidue(e: seq<bool>, k: nat)
    requires Burst(e, k)
    ensures BitCrc(0, e) != 0
  {
    hide BitCrc, AllFalse;
    var lo := if k <= |e| then k else |e|;
    var hi := if k + 16 <= |e| then k + 16 else |e|;
    BurstWindow(e, k, lo, hi);
    assert e == e[..lo] + (e[lo..hi] + e[hi..]);
    WindowLeavesResidue(e[..lo], e[lo..hi], e[hi..]);
  }

  /** Exclusive or of the `n` low bits. */
  predicate ParityOf(c: bv16, n: nat) {
    if n == 0 then false else (c & 1 != 0) != ParityOf(c >> 1, n - 1)
  }

  predicate Parity(c: bv16) {
    ParityOf(c, 16)
  }

  predicate Odd(p: seq<bool>) {
    if p == [] then false else p[0] != Odd(p[1..])
  }

  lemma XorLowBit(x: bv16, y: bv16)
    ensures Xor(x, y) & 1 != 0 <==> (x & 1 != 0) != (y & 1 != 0)
  {
    LowBitIsBit(x);
    LowBitIsBit(y);
    assert (x ^ y) & 1 == (x & 1) ^ (y & 1);
  }

  lemma RawXorRight(x: bv16, y: bv16, z: bv16)
    requires z == x ^ y
    ensures z >> 1 == (x >> 1) ^ (y >> 1)
  {
  }

  lemma XorIsRaw(x: bv16, y: bv16)
    ensures Xor(x, y) == x ^ y
  {
  }

  lemma XorRight(x: bv16, y: bv16)
    ensures Xor(x, y) >> 1 == Xor(x >> 1, y >> 1)
  {
    hide Xor;
    XorIsRaw(x, y);
    XorIsRaw(x >> 1, y >> 1);
    RawXorRight(x, y, Xor(x, y));
  }

  lemma {:induction false} ParityLinear(x: bv16, y: bv16, n: nat)
    ensures ParityOf(Xor(x, y), n) == (ParityOf(x, n) != ParityOf(y, n))
    decreases n
  {
    hide Xor;
    if n > 0 {
      XorLowBit(x, y);
      XorRight(x, y);
      ParityLinear(x >> 1, y >> 1, n - 1);
    }
  }

  lemma {:induction false} ParityOneMore(c: bv16, n: nat)
    ensures ParityOf(c, n + 1) == (ParityOf(c, n) != (Drop(c, n) & 1 != 0))
    decreases n
  {
    if n > 0 {
      ParityOneMore(c >> 1, n - 1);
    }
  }

  lemma SixteenShifts(m: bv16)
    ensures m >> 1 >> 1 >> 1 >> 1 >> 1 >> 1 >> 1 >> 1 >> 1 >> 1 >> 1 >> 1 >> 1 >> 1 >> 1 >> 1 == 0
  {
  }

  lemma DropAll(m: bv16)
    ensures Drop(m, 16) == 0
  {
    DropTwo(m, 16);
    DropTwo(m >> 1 >> 1, 14);
    DropTwo(m >> 1 >> 1 >> 1 >> 1, 12);
    DropTwo(m >> 1 >> 1 >> 1 >> 1 >> 1 >> 1, 10);
    DropTwo(m >> 1 >> 1 >> 1 >> 1 >> 1 >> 1 >> 1 >> 1, 8);
    DropTwo(m >> 1 >> 1 >> 1 >> 1 >> 1 >> 1 >> 1 >> 1 >> 1 >> 1, 6);
    DropTwo(m >> 1 >> 1 >> 1 >> 1 >> 1 >> 1 >> 1 >> 1 >> 1 >> 1 >> 1 >> 1, 4);
    DropTwo(m >> 1 >> 1 >> 1 >> 1 >> 1 >> 1 >> 1 >> 1 >> 1 >> 1 >> 1 >> 1 >> 1 >> 1, 2);
    SixteenShifts(m);
  }

  /** A plain right shift loses exactly the low bit. */
  lemma RightShiftParity(c: bv16)
    ensures Parity(c >> 1) == (Parity(c) != (c & 1 != 0))
  {
    DropAll(c);
    assert Drop(c, 16) == Drop(c >> 1, 15);
    ParityOneMore(c >> 1, 15);
    assert (0 as bv16) & 1 == 0;
    assert ParityOf(c, 16) == ((c & 1 != 0) != ParityOf(c >> 1, 15));
  }

  lemma FeedbackParity()
    ensures Parity(0xA001)
    ensures Parity(0) == false
    ensures forall b :: Parity(Bit(b)) == b
  {
    assert !ParityOf(0, 8);
    assert !ParityOf(0, 15);
    assert !ParityOf(0x0005, 3);
    assert !ParityOf(0x000A, 4);
    assert !ParityOf(0x0014, 5);
    assert !ParityOf(0x0028, 6);
    assert !ParityOf(0x0050, 7);
    assert !ParityOf(0x00A0, 8);
    assert !ParityOf(0x0140, 9);
    assert !ParityOf(0x0280, 10);
    assert !ParityOf(0x0500, 11);
    assert !ParityOf(0x0A00, 12);
    assert !ParityOf(0x1400, 13);
    assert !ParityOf(0x2800, 14);
    assert !ParityOf(0x5000, 15);
  }

  lemma ShiftCases(c: bv16)
    ensures Shift(c) == if c & 1 != 0 then Xor(c >> 1, 0xA001) else c >> 1
  {
  }

  /** The polynomial has a factor x + 1: a step preserves parity. */
  lemma StepParity(c: bv16, b: bool)
    ensures Parity(BitStep(c, b)) == (Parity(c) != b)
  {
    hide Shift, Xor, ParityOf, Bit;
    var x := Xor(c, Bit(b));
    ParityLinear(c, Bit(b), 16);
    FeedbackParity();
    ShiftCases(x);
    RightShiftParity(x);
    ParityLinear(x >> 1, 0xA001, 16);
  }

  lemma {:induction false} ParityOfResidue(c: bv16, p: seq<bool>)
    ensures Parity(BitCrc(c, p)) == (Parity(c) != Odd(p))
    decreases |p|
  {
    hide BitStep, Parity;
    if p != [] {
      StepParity(c, p[0]);
      ParityOfResidue(BitStep(c, p[0]), p[1..]);
    }
  }

  /** The error patterns the checksum is guaranteed to catch. */
  ghost predicate Detectable(e: seq<bool>) {
    Odd(e) || exists k: nat :: Burst(e, k)
  }

  lemma DetectableLeavesResidue(e: seq<bool>)
    requires Detectable(e)
    ensures BitCrc(0, e) != 0
  {
    hide BitCrc;
    if Odd(e) {
      ParityOfResidue(0, e);
      FeedbackParity();
    } else {
      var k: nat :| Burst(e, k);
      BurstLeavesResidue(e, k);
    }
  }

  /** A block with zero residue that suffers a detectable error no longer has one. */
  lemma ErrorDetected(good: seq<byte>, bad: seq<byte>)
    requires |good| == |bad| && Crc(good) == 0
    requires Detectable(XorBits(StreamBits(good), StreamBits(bad)))
    ensures Crc(bad) != 0
  {
    hide BitCrc, Xor, CrcFrom, StreamBits;
    var e := XorBits(StreamBits(good), StreamBits(bad));
    CrcIsSerial(INIT, good);
    CrcIsSerial(INIT, bad);
    BitCrcLinear(INIT, INIT, StreamBits(good), StreamBits(bad));
    XorIsZero(INIT, INIT);
    DetectableLeavesResidue(e);
    XorWithZero(BitCrc(INIT, StreamBits(bad)));
  }
}
