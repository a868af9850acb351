/** Erasing, programming and reading the on-chip flash of the STM32F407 (one bank, 12 sectors). */
module OnChipFlash {
  import opened Machine

  const BASE: nat := 0x0800_0000
  const END: nat := 0x0810_0000
  const BANK: nat := END - BASE
  /** Start addresses of the sectors, and the end of the last. */
  function SectorStart(s: nat): nat
    requires s <= 12
  {
    if s <= 4 then BASE + s * 0x4000
    else if s == 5 then BASE + 0x20000
    else BASE + 0x20000 + (s - 5) * 0x20000
  }

  /** The bank has four sectors of 16 KB, one of 64 KB and seven of 128 KB. */
  lemma SectorSizes(s: nat)
    requires s < 12
    ensures SectorStart(0) == 0x0800_0000 && SectorStart(12) == 0x0810_0000
    ensures SectorStart(s + 1) - SectorStart(s) == (if s < 4 then 16 else if s == 4 then 64 else 128) * 1024
  {
  }

  function GetSector(a: nat): nat {
    if 0x0800_0000 <= a < 0x0800_4000 then 0
    else if 0x0800_4000 <= a < 0x0800_8000 then 1
    else if 0x0800_8000 <= a < 0x0800_C000 then 2
    else if 0x0800_C000 <= a < 0x0801_0000 then 3
    else if 0x0801_0000 <= a < 0x0802_0000 then 4
    else if 0x0802_0000 <= a < 0x0804_0000 then 5
    else if 0x0804_0000 <= a < 0x0806_0000 then 6
    else if 0x0806_0000 <= a < 0x0808_0000 then 7
    else if 0x0808_0000 <= a < 0x080A_0000 then 8
    else if 0x080A_0000 <= a < 0x080C_0000 then 9
    else if 0x080C_0000 <= a < 0x080E_0000 then 10
    else if 0x080E_0000 <= a < 0x0810_0000 then 11
    else 0
  }

  /** In the bank, `GetSector` names the one sector that contains the address. */
  lemma SectorContains(a: nat, s: nat)
    requires BASE <= a < END && s < 12
    ensures GetSector(a) == s <==> SectorStart(s) <= a < SectorStart(s + 1)
  {
  }

  lemma SectorsInOrder(a: nat, b: nat)
    requires BASE <= a <= b < END
    ensures GetSector(a) <= GetSector(b) < 12
  {
  }

  lemma StartsInOrder(s: nat, t: nat)
    requires s < t <= 12
    ensures SectorStart(s) < SectorStart(s + 1) <= SectorStart(t)
  {
  }

  // ----- Ranges of 32-bit addresses -----

  predicate InBank(a: nat) {
    BASE <= a < END
  }

  predicate Inside(addr: nat, size: nat) {
    BASE <= addr && addr + size <= END
  }

  /** Adding 32-bit numbers. */
  function Plus(a: nat, n: nat): (r: nat)
    requires a < WORD && n < WORD
    ensures r == (a + n) % WORD
  {
    if a + n < WORD then a + n else a + n - WORD
  }

  /** How far the byte `c` of the bank lies beyond an address, counting past the end of the address
      space. */
  function Off(addr: nat, c: nat): nat
    requires addr < WORD && c < BANK
  {
    if addr <= BASE + c then BASE + c - addr else WORD + BASE + c - addr
  }

  /** The range test of read, write and erase compares a wrapped sum. */
  predicate PassesRangeTest(addr: nat, size: nat) {
    (addr + size) % WORD <= END
  }

  /** Ranges not inside the bank pass in exactly two cases: they start below it and end by its end,
      or their end wraps and comes out small. */
  lemma RangeTestExact(addr: nat, size: nat)
    requires addr < WORD && size < WORD
    ensures PassesRangeTest(addr, size) && !Inside(addr, size) <==>
      (addr < BASE && addr + size <= END) || WORD <= addr + size <= WORD + END
  {
  }

  /** A range of either kind; on both the erase clears sector 0, where no byte of theirs lies. */
  lemma RangeTestFails()
    ensures PassesRangeTest(0x0700_0000, 16) && PassesRangeTest(0xFFFF_FFF0, 0x20)
    ensures GetSector(0x0700_0000) == GetSector(0x0700_0000 + 15) == 0 && !Meets(0x0700_0000, 16, 0)
    ensures GetSector(0xFFFF_FFF0) == GetSector(Plus(0xFFFF_FFF0, 31)) == 0 && !Meets(0xFFFF_FFF0, 0x20, 0)
  {
  }

  /** Some byte of the range lies in the sector. */
  ghost predicate Meets(addr: nat, size: nat, s: nat)
    requires addr < WORD
  {
    exists c: nat :: c < BANK && Off(addr, c) < size && GetSector(BASE + c) == s
  }

  /** The sectors an erase of the range clears, from that of its first byte to that of its last; none
      when these come in the wrong order. */
  predicate Clears(addr: nat, size: nat, s: nat)
    requires addr < WORD && 0 < size < WORD
  {
    GetSector(addr) <= s <= GetSector(Plus(addr, size - 1))
  }

  lemma MeetsIff(addr: nat, size: nat, s: nat)
    requires addr < WORD && 0 < size < WORD && s < 12
    ensures Meets(addr, size, s) <==>
      (addr < SectorStart(s + 1) && SectorStart(s) < addr + size) || SectorStart(s) + WORD < addr + size
  {
    hide GetSector;
    StartsInOrder(s, 12);
    if addr < SectorStart(s + 1) && SectorStart(s) < addr + size {
      var a := if addr < SectorStart(s) then SectorStart(s) else addr;
      Witness(addr, size, s, a - BASE);
    } else if SectorStart(s) + WORD < addr + size {
      Witness(addr, size, s, SectorStart(s) - BASE);
    } else if c: nat :| c < BANK && Off(addr, c) < size && GetSector(BASE + c) == s {
      SectorContains(BASE + c, s);
      assert false;
    }
  }

  lemma Witness(addr: nat, size: nat, s: nat, c: nat)
    requires addr < WORD && s < 12 && c < BANK && Off(addr, c) < size
    requires SectorStart(s) <= BASE + c < SectorStart(s + 1)
    ensures Meets(addr, size, s)
  {
    hide GetSector;
    SectorContains(BASE + c, s);
  }

  /** The sectors cleared are exactly those the range meets, if and only if its last byte is in the
      bank and it does not come round the address space to there from inside the bank. */
  lemma EraseExactIff(addr: nat, size: nat)
    requires addr < WORD && 0 < size < WORD
    ensures (forall s | 0 <= s < 12 :: Clears(addr, size, s) <==> Meets(addr, size, s)) <==>
      InBank(Plus(addr, size - 1)) && !(InBank(addr) && addr + size > WORD)
  {
    hide Meets;
    var end := Plus(addr, size - 1);
    if InBank(end) && !(InBank(addr) && addr + size > WORD) {
      forall s | 0 <= s < 12
        ensures Clears(addr, size, s) <==> Meets(addr, size, s)
      {
        ExactInside(addr, size, s);
      }
    } else {
      var s := Mismatch(addr, size);
    }
  }

  lemma ExactInside(addr: nat, size: nat, s: nat)
    requires addr < WORD && 0 < size < WORD && s < 12
    requires InBank(Plus(addr, size - 1)) && !(InBank(addr) && addr + size > WORD)
    ensures Clears(addr, size, s) <==> Meets(addr, size, s)
  {
    hide Meets, GetSector, SectorStart;
    var end := Plus(addr, size - 1);
    MeetsIff(addr, size, s);
    SectorBrackets(end, s);
    StartsInOrder(s, 12);
    StartInBank(s);
    if InBank(addr) {
      SectorBrackets(addr, s);
    } else {
      OutsideIsZero(addr);
    }
  }

  lemma StartInBank(s: nat)
    requires s <= 12
    ensures BASE <= SectorStart(s) <= END && SectorStart(0) == BASE && SectorStart(12) == END
  {
  }

  lemma OutsideIsZero(a: nat)
    requires !InBank(a)
    ensures GetSector(a) == 0
  {
  }

  /** Comparing sector numbers is comparing with their bounds. */
  lemma SectorBrackets(a: nat, s: nat)
    requires InBank(a) && s < 12
    ensures GetSector(a) <= s <==> a < SectorStart(s + 1)
    ensures s <= GetSector(a) <==> SectorStart(s) <= a
  {
  }

  lemma Mismatch(addr: nat, size: nat) returns (s: nat)
    requires addr < WORD && 0 < size < WORD
    requires !InBank(Plus(addr, size - 1)) || (InBank(addr) && addr + size > WORD)
    ensures s < 12 && Clears(addr, size, s) != Meets(addr, size, s)
  {
    hide Meets, GetSector;
    var end := Plus(addr, size - 1);
    if InBank(end) {
      s := if GetSector(end) < GetSector(addr) then 11 else if GetSector(end) == 0 then 11 else 0;
      SectorsInOrder(end, addr);
      SectorBrackets(addr, 11);
      SectorBrackets(addr, 0);
      SectorBrackets(end, 11);
      MeetsIff(addr, size, s);
    } else {
      OutsideIsZero(end);
      if InBank(addr) && GetSector(addr) != 0 {
        SectorsInOrder(addr, addr);
        s := GetSector(addr);
        SectorContains(addr, s);
      } else if InBank(addr) {
        s := 11;
        SectorContains(addr, 0);
      } else {
        OutsideIsZero(addr);
        var around := addr + size > WORD;
        s := if (addr < BASE && (end >= END || around)) || (around && end >= END) then 11 else 0;
      }
      MeetsIff(addr, size, s);
    }
  }

  /** In particular every range inside the bank has exactly its own sectors cleared. */
  lemma SectorRunIsMinimal(addr: nat, size: nat, s: nat)
    requires Inside(addr, size) && size > 0 && s < 12
    ensures GetSector(addr) <= s <= GetSector(addr + size - 1) <==> Meets(addr, size, s)
  {
    ExactInside(addr, size, s);
  }

  // ----- Programming -----

  /** The outcome of one hardware call; a failed program may have cleared only some of the bits,
      those outside `kept`. */
  datatype HalStatus = HalOk | HalError(kept: byte)

  datatype Op = Op(addr: nat, width: nat)

  /** How wide the next program operation is. */
  function Width(addr: nat, left: nat): (w: nat)
    requires left > 0
    ensures 1 <= w <= left
  {
    if addr % 4 == 0 && left >= 4 then 4 else if addr % 2 == 0 && left >= 2 then 2 else 1
  }

  /** The program operations for a range. */
  function Plan(addr: nat, size: nat): seq<Op>
    requires addr < WORD && size < WORD
    decreases size
  {
    if size == 0 then []
    else var w := Width(addr, size); [Op(addr, w)] + Plan(Plus(addr, w), size - w)
  }

  predicate Natural(op: Op) {
    op.width == 1 || (op.width == 2 && op.addr % 2 == 0) || (op.width == 4 && op.addr % 4 == 0)
  }

  /** No wider operation is aligned there with `left` bytes to go. */
  predicate Widest(op: Op, left: nat) {
    && (op.width < 4 ==> op.addr % 4 != 0 || left < 4)
    && (op.width < 2 ==> op.addr % 2 != 0 || left < 2)
  }

  /** The operations cover exactly `left` bytes from an address on, in order, each naturally aligned
      and the widest that fits. */
  predicate Tiles(p: seq<Op>, from: nat, left: nat)
    requires from < WORD
  {
    if p == [] then left == 0
    else
      && p[0].addr == from && p[0].width <= left && p[0].width < WORD
      && Natural(p[0]) && Widest(p[0], left)
      && Tiles(p[1..], Plus(from, p[0].width), left - p[0].width)
  }

  lemma {:induction false} PlanTiles(addr: nat, size: nat)
    requires addr < WORD && size < WORD
    ensures Tiles(Plan(addr, size), addr, size)
    decreases size
  {
    if size > 0 {
      var w := Width(addr, size);
      PlanTiles(Plus(addr, w), size - w);
      assert Plan(addr, size)[1..] == Plan(Plus(addr, w), size - w);
    }
  }

  function And(a: byte, b: byte): byte { a & b }

  /** What a byte of the bank holds after a program operation: programming can only clear bits. */
  function Programmed(cell: byte, data: byte, status: HalStatus): byte {
    match status
    case HalOk => And(cell, data)
    case HalError(kept) => And(cell, data | kept)
  }

  predicate AllOk(hal: nat -> HalStatus, n: nat) {
    forall i | 0 <= i < n :: hal(i) == HalOk
  }

  /** Every operation outside the bank reads back equal. */
  predicate OutsideOk(elsewhere: nat -> bool, ops: seq<Op>) {
    forall i | 0 <= i < |ops| :: InBank(ops[i].addr) || elsewhere(i)
  }

  /** Every bit of the bank that should end up set is still set. */
  predicate Programmable(image: seq<byte>, addr: nat, buf: seq<byte>)
    requires |image| == BANK && addr < WORD
  {
    forall c | 0 <= c < BANK && Off(addr, c) < |buf| :: And(image[c], buf[Off(addr, c)]) == buf[Off(addr, c)]
  }

  /** The bytes of the range that lie in the bank are those of the buffer. */
  predicate Holds(image: seq<byte>, addr: nat, buf: seq<byte>)
    requires |image| == BANK && addr < WORD
  {
    forall c | 0 <= c < BANK && Off(addr, c) < |buf| :: image[c] == buf[Off(addr, c)]
  }

  predicate SameOutside(before: seq<byte>, after: seq<byte>, addr: nat, size: nat)
    requires |before| == |after| == BANK && addr < WORD
  {
    forall c | 0 <= c < BANK && Off(addr, c) >= size :: after[c] == before[c]
  }

  lemma AndWithOnes(d: byte)
    ensures And(0xFF, d) == d
  {
  }

  /** The bank with those sectors below `upto` cleared that an erase of the range clears. */
  function Erased(image: seq<byte>, addr: nat, size: nat, upto: nat): (r: seq<byte>)
    requires |image| == BANK && addr < WORD && 0 < size < WORD
    ensures |r| == BANK
  {
    seq(BANK, c requires 0 <= c < BANK && |image| == BANK && addr < WORD && 0 < size < WORD =>
      if Clears(addr, size, GetSector(BASE + c)) && GetSector(BASE + c) < upto then 0xFF else image[c])
  }

  /** Sectors are cleared whole: each of their bytes, or none. */
  lemma WholeSectors(image: seq<byte>, addr: nat, size: nat, upto: nat, s: nat, c: nat)
    requires |image| == BANK && addr < WORD && 0 < size < WORD
    requires s < 12 && SectorStart(s) <= BASE + c < SectorStart(s + 1) <= END
    ensures Erased(image, addr, size, upto)[c] ==
      if GetSector(addr) <= s <= GetSector(Plus(addr, size - 1)) && s < upto then 0xFF else image[c]
  {
    hide GetSector, SectorStart;
    SectorContains(BASE + c, s);
    assert Clears(addr, size, s) <==> GetSector(addr) <= s <= GetSector(Plus(addr, size - 1));
  }

  lemma NothingErased(image: seq<byte>, addr: nat, size: nat)
    requires |image| == BANK && addr < WORD && 0 < size < WORD
    ensures Erased(image, addr, size, 0) == image
  {
    var clean := Erased(image, addr, size, 0);
    forall c | 0 <= c < BANK
      ensures clean[c] == image[c]
    {
      SectorRange(BASE + c);
    }
  }

  /** The loop bound, computed in 32 bits, is the sector after the last, also when that comes before
      the first. */
  lemma BoundIs(first: nat, last: nat)
    requires first < 12 && last < 12
    ensures (first + (last - first + 1) % WORD) % WORD == last + 1
  {
  }

  /** After an erase inside the bank that went through, the sectors the range meets are cleared whole
      and the others are as before. */
  lemma ErasedIffMet(image: seq<byte>, addr: nat, size: nat, upto: nat)
    requires |image| == BANK && Inside(addr, size) && size > 0 && GetSector(addr + size - 1) < upto
    ensures forall s, c | 0 <= s < 12 && 0 <= c < BANK && SectorStart(s) <= BASE + c < SectorStart(s + 1) ::
      Erased(image, addr, size, upto)[c] == if Meets(addr, size, s) then 0xFF else image[c]
  {
    hide Erased, Meets, GetSector, SectorStart;
    forall s, c | 0 <= s < 12 && 0 <= c < BANK && SectorStart(s) <= BASE + c < SectorStart(s + 1)
      ensures Erased(image, addr, size, upto)[c] == if Meets(addr, size, s) then 0xFF else image[c]
    {
      StartInBank(s + 1);
      WholeSectors(image, addr, size, upto, s, c);
      SectorRunIsMinimal(addr, size, s);
    }
  }

  function SectorCount(addr: nat, size: nat): nat
    requires addr < WORD && 0 < size < WORD
  {
    var first, last := GetSector(addr), GetSector(Plus(addr, size - 1));
    if first <= last then last + 1 - first else 0
  }

  /** The byte at an address; `outside` is the memory that is not the bank. */
  function At(image: seq<byte>, outside: nat -> byte, a: nat): byte
    requires |image| == BANK
  {
    if InBank(a) then image[a - BASE] else outside(a)
  }

  datatype Result = Invalid | Failed | Done(size: nat)

  class Flash {
    const mem: array<byte>

    ghost predicate Valid() {
      mem.Length == BANK
    }

    constructor ()
      ensures Valid() && fresh(mem)
    {
      mem := new byte[BANK](_ => 0xFF);
    }

    /** The bytes of a range. */
    function Range(addr: nat, size: nat): (r: seq<byte>)
      requires Valid() && Inside(addr, size)
      reads mem
      ensures |r| == size
    {
      mem[addr - BASE..addr - BASE + size]
    }

    /** Copies the bytes at a range of addresses, or leaves the buffer alone beyond the bank. */
    method Read(addr: nat, buf: array<byte>, outside: nat -> byte) returns (result: Result)
      requires Valid() && addr < WORD && buf.Length < WORD && buf != mem
      modifies buf
      ensures result == if PassesRangeTest(addr, buf.Length) then Done(buf.Length) else Failed
      ensures !PassesRangeTest(addr, buf.Length) ==> buf[..] == old(buf[..])
      ensures PassesRangeTest(addr, buf.Length) ==>
        forall i | 0 <= i < buf.Length :: buf[i] == At(mem[..], outside, Plus(addr, i))
      ensures Inside(addr, buf.Length) ==> buf[..] == Range(addr, buf.Length)
    {
      if (addr + buf.Length) % WORD > END {
        return Failed;
      }
      for i := 0 to buf.Length
        invariant forall j | 0 <= j < i :: buf[j] == At(mem[..], outside, Plus(addr, j))
      {
        var a := Plus(addr, i);
        buf[i] := if InBank(a) then mem[a - BASE] else outside(a);
      }
      result := Done(buf.Length);
    }

    /** One program operation of the hardware, and the read-back comparison; outside the bank
        `elsewhere` is its outcome. */
    method Program(at: nat, data: seq<byte>, status: HalStatus, elsewhere: bool) returns (same: bool)
      requires Valid() && at < WORD
      modifies mem
      ensures mem[..] == ProgramAt(old(mem[..]), at, data, status)
      ensures same <==> Holds(mem[..], at, data) && (InBank(at) || elsewhere)
    {
      forall c | 0 <= c < mem.Length && Off(at, c) < |data| {
        mem[c] := Programmed(mem[c], data[Off(at, c)], status);
      }
      same := Holds(mem[..], at, data) && (InBank(at) || elsewhere);
    }

    /** Writes a buffer with the widest aligned operations, reading each back, until one fails or
        differs.  The operations issued are reported.  It succeeds exactly when every hardware call
        does, no bit of the bank would have to be set again, and whatever lies outside the bank
        reads back equal; then the bank holds the buffer wherever the range lies in it.  In all cases
        the bank outside the range is unchanged. */
    method Write(addr: nat, buf: seq<byte>, hal: nat -> HalStatus, elsewhere: nat -> bool)
      returns (result: Result, ops: seq<Op>)
      requires Valid() && addr < WORD && |buf| < WORD
      modifies mem
      ensures ops <= Plan(addr, |buf|)
      ensures !PassesRangeTest(addr, |buf|) || |buf| == 0 ==> result == Invalid && ops == [] && mem[..] == old(mem[..])
      ensures PassesRangeTest(addr, |buf|) && |buf| > 0 ==>
        && (result == Done(|buf|) || result == Failed)
        && (result == Done(|buf|) <==> Succeeds(old(mem[..]), addr, buf, hal, elsewhere))
        && (result == Done(|buf|) ==> Holds(mem[..], addr, buf) && ops == Plan(addr, |buf|))
        && SameOutside(old(mem[..]), mem[..], addr, |buf|)
    {
      hide ProgramAt, Written, Programmable, Holds, SameOutside, Plan, Width, Succeeds, AllOk, OutsideOk, InBank;
      var size := |buf|;
      ops := [];
      if (addr + size) % WORD > END || size < 1 {
        return Invalid, ops;
      }
      ghost var before := mem[..];
      var written := 0;
      NothingWritten(before, addr, buf);
      NoOps(hal, elsewhere);
      while written < size
        invariant 0 <= written <= size
        invariant Plan(addr, size) == ops + Plan(Plus(addr, written), size - written)
        invariant AllOk(hal, |ops|) && OutsideOk(elsewhere, ops)
        invariant Written(before, mem[..], addr, buf, written)
      {
        var at := Plus(addr, written);
        var w := Width(at, size - written);
        var n := |ops|;
        ghost var image := mem[..];
        PlanStep(at, size - written, ops);
        var same := Program(at, buf[written..written + w], hal(n), elsewhere(n));
        WriteStep(before, image, addr, buf, written, w, hal(n));
        OneMoreOp(hal, elsewhere, ops, Op(at, w));
        ops := ops + [Op(at, w)];
        if hal(n).HalError? || !same {
          NotSucceeding(before, addr, buf, hal, elsewhere, ops);
          return Failed, ops;
        }
        written := written + w;
      }
      EmptyPlan(Plus(addr, size), ops);
      AllWritten(before, mem[..], addr, buf);
      Succeeding(before, addr, buf, hal, elsewhere, ops);
      result := Done(size);
    }

    /** Clears the sectors of the range one after the other.  `ready` says that the controller was
        idle, and `good` sectors are cleared before it reports an error. */
    method Erase(addr: nat, size: nat, ready: bool, good: nat) returns (result: Result)
      requires Valid() && addr < WORD && size < WORD
      modifies mem
      ensures !PassesRangeTest(addr, size) || size == 0 ==> result == Invalid && mem[..] == old(mem[..])
      ensures PassesRangeTest(addr, size) && size > 0 ==>
        && result == (if ready && SectorCount(addr, size) <= good then Done(size) else Failed)
        && mem[..] == Erased(old(mem[..]), addr, size, if ready then GetSector(addr) + good else 0)
      ensures result == Done(size) && Inside(addr, size) ==>
        forall s, c | 0 <= s < 12 && 0 <= c < BANK && SectorStart(s) <= BASE + c < SectorStart(s + 1) ::
          mem[c] == if Meets(addr, size, s) then 0xFF else old(mem[c])
    {
      if (addr + size) % WORD > END || size < 1 {
        return Invalid;
      }
      hide GetSector;
      var firstSector := GetSector(addr);
      var nbOfSectors := (GetSector(Plus(addr, size - 1)) - firstSector + 1) % WORD;
      if !ready {
        NothingErased(mem[..], addr, size);
        return Failed;
      }
      var bound := (firstSector + nbOfSectors) % WORD;
      SectorRange(addr);
      SectorRange(Plus(addr, size - 1));
      BoundIs(firstSector, GetSector(Plus(addr, size - 1)));
      ghost var before := mem[..];
      forall c |
        && 0 <= c < mem.Length
        && firstSector <= GetSector(BASE + c) < bound && GetSector(BASE + c) < firstSector + good
      {
        mem[c] := 0xFF;
      }
      ghost var clean := Erased(before, addr, size, firstSector + good);
      forall c | 0 <= c < BANK
        ensures mem[c] == clean[c]
      {
        SectorRange(BASE + c);
        assert firstSector <= GetSector(BASE + c) < bound <==> Clears(addr, size, GetSector(BASE + c));
      }
      result := if firstSector + good < bound then Failed else Done(size);
      if result == Done(size) && Inside(addr, size) {
        ErasedIffMet(before, addr, size, firstSector + good);
      }
    }

    /** Erase, write, read: with a willing hardware every buffer comes back from every range of the
        bank, and bytes in sectors the range does not meet are unchanged. */
    method EraseWriteRead(addr: nat, buf: seq<byte>, hal: nat -> HalStatus) returns (readBack: array<byte>)
      requires Valid() && Inside(addr, |buf|) && |buf| > 0
      requires AllOk(hal, |Plan(addr, |buf|)|)
      modifies mem
      ensures readBack[..] == buf
      ensures forall c | 0 <= c < mem.Length && !Meets(addr, |buf|, GetSector(BASE + c)) :: mem[c] == old(mem[c])
    {
      hide Plan, AllOk, GetSector, Programmable, SameOutside, Erased, Meets, Holds;
      ghost var before := mem[..];
      var erased := Erase(addr, |buf|, true, 12);
      ghost var clean := mem[..];
      ErasedRange(before, addr, buf);
      PlanInBank(addr, buf, hal, clean);
      var written, ops := Write(addr, buf, hal, _ => false);
      HeldRange(mem[..], addr, buf);
      WriteAfterErase(before, clean, mem[..], addr, |buf|);
      readBack := new byte[|buf|];
      var r := Read(addr, readBack, _ => 0);
    }
  }

  /** What makes a write succeed. */
  predicate Succeeds(before: seq<byte>, addr: nat, buf: seq<byte>, hal: nat -> HalStatus, elsewhere: nat -> bool)
    requires |before| == BANK && addr < WORD && |buf| < WORD
  {
    && AllOk(hal, |Plan(addr, |buf|)|)
    && OutsideOk(elsewhere, Plan(addr, |buf|))
    && Programmable(before, addr, buf)
  }

  lemma Succeeding(before: seq<byte>, addr: nat, buf: seq<byte>, hal: nat -> HalStatus, elsewhere: nat -> bool,
                   ops: seq<Op>)
    requires |before| == BANK && addr < WORD && |buf| < WORD
    requires ops == Plan(addr, |buf|) && AllOk(hal, |ops|) && OutsideOk(elsewhere, ops)
    requires Programmable(before, addr, buf)
    ensures Succeeds(before, addr, buf, hal, elsewhere)
  {
  }

  lemma NotSucceeding(before: seq<byte>, addr: nat, buf: seq<byte>, hal: nat -> HalStatus, elsewhere: nat -> bool,
                      ops: seq<Op>)
    requires |before| == BANK && addr < WORD && |buf| < WORD
    requires ops <= Plan(addr, |buf|)
    requires !AllOk(hal, |ops|) || !OutsideOk(elsewhere, ops) || !Programmable(before, addr, buf)
    ensures !Succeeds(before, addr, buf, hal, elsewhere)
  {
    hide Plan, Programmable;
    if OutsideOk(elsewhere, Plan(addr, |buf|)) {
      forall i | 0 <= i < |ops|
        ensures InBank(ops[i].addr) || elsewhere(i)
      {
        assert ops[i] == Plan(addr, |buf|)[i];
      }
    }
  }

  lemma NoOps(hal: nat -> HalStatus, elsewhere: nat -> bool)
    ensures AllOk(hal, 0) && OutsideOk(elsewhere, [])
  {
  }

  lemma OneMoreOp(hal: nat -> HalStatus, elsewhere: nat -> bool, ops: seq<Op>, op: Op)
    requires AllOk(hal, |ops|) && OutsideOk(elsewhere, ops)
    ensures AllOk(hal, |ops| + 1) <==> hal(|ops|) == HalOk
    ensures OutsideOk(elsewhere, ops + [op]) <==> InBank(op.addr) || elsewhere(|ops|)
  {
    assert (ops + [op])[|ops|] == op;
  }

  lemma PlanStep(addr: nat, left: nat, ops: seq<Op>)
    requires addr < WORD && 0 < left < WORD
    ensures 1 <= Width(addr, left) <= left
    ensures ops + Plan(addr, left)
      == ops + [Op(addr, Width(addr, left))] + Plan(Plus(addr, Width(addr, left)), left - Width(addr, left))
  {
  }

  lemma EmptyPlan(addr: nat, ops: seq<Op>)
    requires addr < WORD
    ensures ops + Plan(addr, 0) == ops
  {
  }

  /** The bank after one program operation. */
  function ProgramAt(image: seq<byte>, at: nat, data: seq<byte>, status: HalStatus): (r: seq<byte>)
    requires |image| == BANK && at < WORD
    ensures |r| == BANK
  {
    seq(BANK, c requires 0 <= c < BANK && |image| == BANK && at < WORD =>
      if Off(at, c) < |data| then Programmed(image[c], data[Off(at, c)], status) else image[c])
  }

  /** The first `n` bytes of the buffer are in place and were programmable; the rest is as before. */
  predicate Written(before: seq<byte>, after: seq<byte>, addr: nat, buf: seq<byte>, n: nat)
    requires |before| == |after| == BANK && addr < WORD && n <= |buf|
  {
    forall c | 0 <= c < BANK :: WrittenAt(before[c], after[c], buf, Off(addr, c), n)
  }

  predicate WrittenAt(before: byte, after: byte, buf: seq<byte>, k: nat, n: nat)
    requires n <= |buf|
  {
    if k < n then after == buf[k] && And(before, buf[k]) == buf[k] else after == before
  }

  lemma NothingWritten(image: seq<byte>, addr: nat, buf: seq<byte>)
    requires |image| == BANK && addr < WORD
    ensures Written(image, image, addr, buf, 0)
  {
  }

  lemma AllWritten(before: seq<byte>, after: seq<byte>, addr: nat, buf: seq<byte>)
    requires |before| == |after| == BANK && addr < WORD && Written(before, after, addr, buf, |buf|)
    ensures Holds(after, addr, buf) && Programmable(before, addr, buf) && SameOutside(before, after, addr, |buf|)
  {
    hide And;
    forall c | 0 <= c < BANK
      ensures WrittenAt(before[c], after[c], buf, Off(addr, c), |buf|)
    {
    }
  }

  lemma HeldRange(image: seq<byte>, addr: nat, buf: seq<byte>)
    requires |image| == BANK && addr < WORD && Holds(image, addr, buf)
    ensures Inside(addr, |buf|) ==> image[addr - BASE..addr - BASE + |buf|] == buf
  {
    if Inside(addr, |buf|) {
      forall i | 0 <= i < |buf|
        ensures image[addr - BASE + i] == buf[i]
      {
        assert Off(addr, addr - BASE + i) == i;
      }
    }
  }

  /** Offsets from a later address of the range. */
  lemma OffShifts(addr: nat, n: nat, w: nat, c: nat)
    requires addr < WORD && n + w < WORD && c < BANK
    ensures Off(Plus(addr, n), c) < w <==> n <= Off(addr, c) < n + w
    ensures n <= Off(addr, c) ==> Off(Plus(addr, n), c) == Off(addr, c) - n
  {
  }

  /** The effect of one loop step, whatever the hardware answers. */
  lemma WriteStep(before: seq<byte>, image: seq<byte>, addr: nat, buf: seq<byte>, n: nat, w: nat, status: HalStatus)
    requires |before| == |image| == BANK && addr < WORD && |buf| < WORD && n + w <= |buf|
    requires Written(before, image, addr, buf, n)
    ensures var chunk, at := buf[n..n + w], Plus(addr, n);
      var after := ProgramAt(image, at, chunk, status);
      && SameOutside(before, after, addr, |buf|)
      && (status == HalOk && Holds(after, at, chunk) ==> Written(before, after, addr, buf, n + w))
      && (status == HalOk && !Holds(after, at, chunk) ==> !Programmable(before, addr, buf))
  {
    hide ProgramAt;
    var chunk, at := buf[n..n + w], Plus(addr, n);
    var after := ProgramAt(image, at, chunk, status);
    forall c | 0 <= c < BANK && Off(addr, c) >= |buf|
      ensures after[c] == before[c]
    {
      assert WrittenAt(before[c], image[c], buf, Off(addr, c), n);
      StepAt(before, image, addr, buf, n, w, status, c);
    }
    if status == HalOk && Holds(after, at, chunk) {
      forall c | 0 <= c < BANK
        ensures WrittenAt(before[c], after[c], buf, Off(addr, c), n + w)
      {
        assert WrittenAt(before[c], image[c], buf, Off(addr, c), n);
        StepAt(before, image, addr, buf, n, w, status, c);
      }
    } else if status == HalOk {
      var c :| 0 <= c < BANK && Off(at, c) < |chunk| && after[c] != chunk[Off(at, c)];
      assert WrittenAt(before[c], image[c], buf, Off(addr, c), n);
      StepAt(before, image, addr, buf, n, w, status, c);
    }
  }

  /** One byte of the bank across one step. */
  lemma StepAt(before: seq<byte>, image: seq<byte>, addr: nat, buf: seq<byte>, n: nat, w: nat, status: HalStatus,
               c: nat)
    requires |before| == |image| == BANK && addr < WORD && |buf| < WORD && n + w <= |buf| && c < BANK
    requires WrittenAt(before[c], image[c], buf, Off(addr, c), n)
    ensures var at := Plus(addr, n);
      var after := ProgramAt(image, at, buf[n..n + w], status);
      var k := Off(addr, c);
      && (Off(at, c) < w <==> n <= k < n + w)
      && (Off(at, c) < w ==>
            && buf[n..n + w][Off(at, c)] == buf[k]
            && (status == HalOk ==> after[c] == And(before[c], buf[k])))
      && (Off(at, c) >= w ==> after[c] == image[c])
  {
    hide And;
    OffShifts(addr, n, w, c);
  }

  /** After the erase of a range whose sectors are exactly those it meets, any buffer can be
      programmed there. */
  lemma ErasedRange(before: seq<byte>, addr: nat, buf: seq<byte>)
    requires |before| == BANK && addr < WORD && 0 < |buf| < WORD
    requires InBank(Plus(addr, |buf| - 1)) && !(InBank(addr) && addr + |buf| > WORD)
    ensures SectorCount(addr, |buf|) <= 12
    ensures Programmable(Erased(before, addr, |buf|, GetSector(addr) + 12), addr, buf)
  {
    hide GetSector, Clears, Meets, And;
    var clean := Erased(before, addr, |buf|, GetSector(addr) + 12);
    SectorRange(addr);
    SectorRange(Plus(addr, |buf| - 1));
    forall c | 0 <= c < BANK && Off(addr, c) < |buf|
      ensures And(clean[c], buf[Off(addr, c)]) == buf[Off(addr, c)]
    {
      SectorRange(BASE + c);
      CellMeets(addr, |buf|, c);
      ExactInside(addr, |buf|, GetSector(BASE + c));
      AndWithOnes(buf[Off(addr, c)]);
    }
  }

  lemma SectorRange(a: nat)
    ensures 0 <= GetSector(a) < 12
  {
  }

  lemma CellMeets(addr: nat, size: nat, c: nat)
    requires addr < WORD && c < BANK && Off(addr, c) < size
    ensures Meets(addr, size, GetSector(BASE + c))
  {
  }

  /** Inside the bank no operation is outside it. */
  lemma PlanInBank(addr: nat, buf: seq<byte>, hal: nat -> HalStatus, clean: seq<byte>)
    requires |clean| == BANK && Inside(addr, |buf|) && AllOk(hal, |Plan(addr, |buf|)|) && Programmable(clean, addr, buf)
    ensures Succeeds(clean, addr, buf, hal, _ => false)
  {
    hide Plan, Programmable, AllOk;
    OpsInBank(addr, |buf|);
  }

  lemma {:induction false} OpsInBank(addr: nat, size: nat)
    requires Inside(addr, size)
    ensures forall i | 0 <= i < |Plan(addr, size)| :: InBank(Plan(addr, size)[i].addr)
    decreases size
  {
    if size > 0 {
      var w := Width(addr, size);
      OpsInBank(addr + w, size - w);
      assert Plan(addr, size) == [Op(addr, w)] + Plan(addr + w, size - w);
    }
  }

  /** Outside the sectors the range meets, erasing and writing change nothing. */
  lemma WriteAfterErase(before: seq<byte>, clean: seq<byte>, after: seq<byte>, addr: nat, size: nat)
    requires |before| == |clean| == |after| == BANK && Inside(addr, size) && size > 0
    requires clean == Erased(before, addr, size, GetSector(addr) + 12)
    requires SameOutside(clean, after, addr, size)
    ensures forall c | 0 <= c < BANK && !Meets(addr, size, GetSector(BASE + c)) :: after[c] == before[c]
  {
    hide GetSector, Clears, Meets;
    forall c | 0 <= c < BANK && !Meets(addr, size, GetSector(BASE + c))
      ensures after[c] == before[c]
    {
      SectorRange(BASE + c);
      ExactInside(addr, size, GetSector(BASE + c));
      if Off(addr, c) < size {
        CellMeets(addr, size, c);
      }
    }
  }
}
