/** Whole-stream properties of the frame parser: frames separated by noise are all recovered,
    the parser resynchronises from any state, and damaged frames are not accepted. */
module FrameStream {
  import opened Machine
  import opened Wrappers
  import opened Slices
  import opened Crc16
  import opened FrameCodec

  function Offset(log: seq<Emission>, k: int): (r: seq<Emission>)
    ensures |r| == |log|
  {
    seq(|log|, i requires 0 <= i < |log| => Emission(log[i].start + k, log[i].end + k, log[i].frame))
  }

  lemma ExtendOffset(log: seq<Emission>, t: RunState, k: nat, n: nat, e: Event)
    requires Partial(t.acc)
    ensures Extend(RunState(t.acc, log + Offset(t.log, k)), k + n, e)
         == RunState(Extend(t, n, e).acc, log + Offset(Extend(t, n, e).log, k))
  {
    hide Step;
    var out := Step(t.acc, e).1;
    if out.Some? {
      var added := [Emission(n - |t.acc|, n + 1, out.value)];
      assert Offset(t.log + added, k) == Offset(t.log, k) + Offset(added, k);
    }
  }

  /** Parsing a stream in two pieces is parsing it whole. */
  lemma {:induction false} RunConcat(acc0: seq<byte>, x: seq<Event>, y: seq<Event>)
    requires Partial(acc0)
    ensures var s, t := Run(acc0, x), Run(Run(acc0, x).acc, y);
      Run(acc0, x + y) == RunState(t.acc, s.log + Offset(t.log, |x|))
    decreases |y|
  {
    hide Extend;
    var s := Run(acc0, x);
    if y == [] {
      assert x + y == x;
    } else {
      var n := |y| - 1;
      RunConcat(acc0, x, y[..n]);
      assert (x + y)[..|x| + n] == x + y[..n];
      ExtendOffset(s.log, Run(s.acc, y[..n]), |x|, n, y[n]);
    }
  }

  lemma FramesConcat(p: seq<Emission>, q: seq<Emission>, k: int)
    ensures Frames(p + Offset(q, k)) == Frames(p) + Frames(q)
  {
  }

  // ----- Completeness -----

  predicate Noise(evs: seq<Event>) {
    forall i | 0 <= i < |evs| :: evs[i].b != STX
  }

  lemma {:induction false} NoiseIsIgnored(evs: seq<Event>)
    requires Noise(evs)
    ensures Run([], evs) == RunState([], [])
  {
    if evs != [] {
      NoiseIsIgnored(evs[..|evs| - 1]);
    }
  }

  predicate Headed(w: seq<byte>) {
    |w| >= 2 && w[0] == STX && w[1] as nat <= MAX_PAYLOAD
  }

  lemma CollectsOne(w: seq<byte>, k: nat, e: Event)
    requires Headed(w) && k < |w| && k < w[1] as nat + 6
    requires e.b == w[k] && (k > 0 ==> !e.late)
    ensures Partial(w[..k]) && Step(w[..k], e) == (w[..k + 1], None)
  {
    hide Intact;
    var acc := w[..k];
    assert acc + [w[k]] == w[..k + 1];
    assert !Complete(acc);
    assert Fresh(acc, e) == acc;
    assert Collect(acc, e.b) == w[..k + 1];
  }

  lemma CompleteStep(acc: seq<byte>, n: nat, e: Event)
    requires Partial(acc) && Complete(acc) && !e.late && n == |acc|
    ensures Extend(RunState(acc, []), n, e) == RunState([], match Emit(acc, e.b)
                                                            case Some(f) => [Emission(0, n + 1, f)]
                                                            case None => [])
  {
    hide Intact;
  }

  /** Up to the byte before ETX the parser only collects. */
  lemma {:induction false} CollectsPrefix(evs: seq<Event>, k: nat)
    requires Headed(Wire(evs)) && Prompt(evs)
    requires k <= |evs| && k <= evs[1].b as nat + 6
    ensures Run([], evs[..k]) == RunState(Wire(evs)[..k], [])
  {
    hide Step, Run, Partial, Prompt;
    if k == 0 {
      assert evs[..0] == [];
      RunEmpty();
    } else {
      CollectsPrefix(evs, k - 1);
      PromptAt(evs, k - 1);
      CollectsOne(Wire(evs), k - 1, evs[k - 1]);
      RunPrefix(evs, k);
    }
  }

  lemma RunEmpty()
    ensures Run([], []) == RunState([], [])
  {
  }

  lemma PromptAt(evs: seq<Event>, k: nat)
    requires Prompt(evs) && k < |evs|
    ensures k > 0 ==> !evs[k].late
  {
  }

  lemma RunPrefix(evs: seq<Event>, k: nat)
    requires 0 < k <= |evs|
    ensures Run([], evs[..k]) == Extend(Run([], evs[..k - 1]), k - 1, evs[k - 1])
  {
    assert evs[..k][..k - 1] == evs[..k - 1];
  }

  /** A prompt block of the length its LEN byte announces: one frame or none, then idle. */
  lemma BlockOutcome(evs: seq<Event>)
    requires Headed(Wire(evs)) && Prompt(evs)
    requires |evs| == evs[1].b as nat + 7
    ensures var w, n := Wire(evs), |evs| - 1;
      && Partial(w[..n]) && Complete(w[..n])
      && Run([], evs) == RunState([], match Emit(w[..n], w[n])
                                      case Some(f) => [Emission(0, |evs|, f)]
                                      case None => [])
  {
    hide Emit, Extend;
    var n := |evs| - 1;
    CollectsPrefix(evs, n);
    CompleteStep(Wire(evs)[..n], n, evs[n]);
  }

  lemma EncodedParts(f: Frame)
    requires |f.payload| <= MAX_PAYLOAD
    ensures var w, n := Encode(f), |f.payload|;
      && Headed(w) && w[1] as nat == n && w[n + 6] == ETX
      && w[2] == f.cmd && w[3] == f.sn && w[4..4 + n] == f.payload && w[2..4 + n] == Body(f)
      && w[2..6 + n] == Body(f) + [Lo(Crc(Body(f))), Hi(Crc(Body(f)))]
      && w[4 + n] == Lo(Crc(Body(f))) && w[5 + n] == Hi(Crc(Body(f)))
  {
    hide Crc, Lo, Hi;
    SmallByte(|f.payload|);
  }

  lemma EncodedIsIntact(f: Frame)
    requires |f.payload| <= MAX_PAYLOAD
    ensures var acc := Encode(f)[..6 + |f.payload|];
      Partial(acc) && Complete(acc) && Intact(acc) && Decode(acc) == f
  {
    hide Crc, Lo, Hi, Received, Encode, Body, Decode, Complete;
    EncodedParts(f);
    ReceivedLoHi(Crc(Body(f)));
    var w, n := Encode(f), |f.payload|;
    SliceOfPrefix(w, 6 + n, 2, 4 + n);
    SliceOfPrefix(w, 6 + n, 4, 4 + n);
    CollectedParts(w[..6 + n], n);
  }

  /** Round trip: the encoding of a frame, received promptly, is parsed back to that frame. */
  lemma RoundTrip(f: Frame, evs: seq<Event>)
    requires |f.payload| <= MAX_PAYLOAD
    requires Wire(evs) == Encode(f) && Prompt(evs)
    ensures Run([], evs) == RunState([], [Emission(0, |evs|, f)])
  {
    hide Encode, Intact, Decode;
    EncodedParts(f);
    EncodedIsIntact(f);
    BlockOutcome(evs);
  }

  /** What a sender and the line put on the wire: noise without STX, one encoded frame, or one that
      was damaged on the way in a manner the checksum detects. */
  datatype Item =
    | Gap(evs: seq<Event>)
    | Sent(frame: Frame, evs: seq<Event>)
    | Spoilt(frame: Frame, evs: seq<Event>)

  /** The bytes of an item, whenever they come. */
  ghost predicate Shaped(item: Item) {
    match item
    case Gap(evs) => Noise(evs)
    case Sent(f, evs) => |f.payload| <= MAX_PAYLOAD && Wire(evs) == Encode(f)
    case Spoilt(f, evs) => |f.payload| <= MAX_PAYLOAD && Damaged(Encode(f), Wire(evs))
  }

  /** Frames come without a pause inside. */
  ghost predicate WellSent(item: Item) {
    Shaped(item) && (item.Gap? || Prompt(item.evs))
  }

  function Stream(items: seq<Item>): seq<Event> {
    if items == [] then [] else Stream(items[..|items| - 1]) + items[|items| - 1].evs
  }

  function Wanted(items: seq<Item>): seq<Frame> {
    if items == [] then []
    else
      Wanted(items[..|items| - 1]) +
      match items[|items| - 1]
      case Gap(_) => []
      case Sent(f, _) => [f]
      case Spoilt(_, _) => []
  }

  /** Where a byte of the stream comes from: the item, and where the item starts. */
  lemma {:induction false} Locate(items: seq<Item>, pos: nat) returns (i: nat, start: nat)
    requires pos < |Stream(items)|
    ensures i < |items| && start <= pos < start + |items[i].evs| <= |Stream(items)|
    ensures Stream(items)[start..start + |items[i].evs|] == items[i].evs
  {
    var n := |items| - 1;
    var before := Stream(items[..n]);
    if pos < |before| {
      i, start := Locate(items[..n], pos);
      assert Stream(items)[start..start + |items[i].evs|] == before[start..start + |items[i].evs|];
    } else {
      i, start := n, |before|;
    }
  }

  lemma FramesOf(item: Item)
    ensures Frames([]) == []
    ensures item.Sent? ==> Frames([Emission(0, |item.evs|, item.frame)]) == [item.frame]
  {
  }

  /** Any sequence of encoded frames, with STX-free noise and detectably damaged frames anywhere
      between them, parses to exactly the undamaged frames and leaves the parser idle. */
  lemma {:induction false} ParserComplete(items: seq<Item>)
    requires forall i | 0 <= i < |items| :: WellSent(items[i])
    ensures var s := Run([], Stream(items));
      s.acc == [] && Frames(s.log) == Wanted(items)
  {
    hide Encode, Extend, Frames, Offset, Damaged;
    if items != [] {
      var n := |items| - 1;
      ParserComplete(items[..n]);
      var x, y := Stream(items[..n]), items[n].evs;
      RunConcat([], x, y);
      FramesConcat(Run([], x).log, Run([], y).log, |x|);
      match items[n] {
        case Gap(evs) =>
          NoiseIsIgnored(evs);
        case Sent(f, evs) =>
          RoundTrip(f, evs);
        case Spoilt(f, evs) =>
          DamagedFrameRejected(f, evs);
      }
      FramesOf(items[n]);
    } else {
      FramesOf(Gap([]));
    }
  }

  // ----- Resynchronisation -----

  const RESYNC: nat := 70

  /** How many STX-free bytes at most until the parser is idle again. */
  function Left(acc: seq<byte>): nat
    requires Partial(acc)
  {
    if acc == [] then 0 else if |acc| == 1 then RESYNC else Need(acc) + 1 - |acc|
  }

  lemma NoiseStep(acc: seq<byte>, e: Event)
    requires Partial(acc) && e.b != STX
    ensures var (acc', out) := Step(acc, e);
      && Left(acc') <= (if acc == [] then 0 else Left(acc) - 1)
      && (out.Some? ==> acc != [] && acc' == [])
  {
  }

  lemma {:induction false} NoiseDrains(acc0: seq<byte>, noise: seq<Event>)
    requires Partial(acc0) && Noise(noise)
    ensures var s := Run(acc0, noise);
      && Left(s.acc) <= (if |noise| <= Left(acc0) then Left(acc0) - |noise| else 0)
      && |s.log| <= 1 && (s.log != [] ==> s.acc == [])
  {
    hide Step;
    if noise != [] {
      var n := |noise| - 1;
      NoiseDrains(acc0, noise[..n]);
      NoiseStep(Run(acc0, noise[..n]).acc, noise[n]);
    }
  }

  /** From any state whatever, seventy STX-free bytes make the parser idle, with at most one
      stray frame on the way; after that every well-sent frame is recovered. */
  lemma Resynchronises(acc0: seq<byte>, noise: seq<Event>, items: seq<Item>)
    requires Partial(acc0) && Noise(noise) && |noise| >= RESYNC
    requires forall i | 0 <= i < |items| :: WellSent(items[i])
    ensures var s := Run(acc0, noise + Stream(items));
      && s.acc == []
      && exists stray: seq<Frame> :: |stray| <= 1 && Frames(s.log) == stray + Wanted(items)
  {
    hide Step, Run;
    NoiseDrains(acc0, noise);
    var s := Run(acc0, noise);
    assert Left(acc0) <= RESYNC;
    ParserComplete(items);
    RunConcat(acc0, noise, Stream(items));
    var t := Run([], Stream(items));
    FramesConcat(s.log, t.log, |noise|);
    assert |Frames(s.log)| <= 1;
  }

  /** Seventy is the least such number: sixty-nine bytes can leave the parser mid-frame. */
  lemma ResyncIsTight()
    ensures exists noise :: Noise(noise) && |noise| == RESYNC - 1 && Run([STX], noise).acc != []
  {
    hide Run;
    var noise := seq(RESYNC - 1, i => Event(false, 64));
    var stx := [Event(false, STX)];
    var all := stx + noise;
    assert Wire(all)[0] == STX && Wire(all)[1] == 64;
    assert (64 as byte) as nat == 64;
    CollectsPrefix(all, 70);
    assert all[..70] == all;
    CollectsPrefix(all, 1);
    assert all[..1] == stx;
    assert Wire(all)[..1] == [STX];
    RunConcat([], stx, noise);
    assert Noise(noise);
  }

  // ----- After a pause -----

  /** A late byte finds the parser as if it were idle: what was collected is dropped, and the byte
      itself is looked at. */
  lemma LateByte(acc0: seq<byte>, e: Event)
    requires Partial(acc0) && e.late
    ensures Run(acc0, [e]) == Run([], [e]) == RunState(if e.b == STX then [STX] else [], [])
  {
    hide Intact;
    assert [e][..0] == [];
    assert Run(acc0, []) == RunState(acc0, []) && Run([], []) == RunState([], []);
    assert Run(acc0, [e]) == Extend(RunState(acc0, []), 0, e);
    assert Run([], [e]) == Extend(RunState([], []), 0, e);
  }

  /** So whatever state it was in, a pause before the first byte makes it parse the rest as from
      idle. */
  lemma LateStart(acc0: seq<byte>, evs: seq<Event>)
    requires Partial(acc0) && evs != [] && evs[0].late
    ensures Run(acc0, evs) == Run([], evs)
  {
    hide Run, Partial;
    assert evs == [evs[0]] + evs[1..];
    LateByte(acc0, evs[0]);
    FromIdle();
    RunConcat(acc0, [evs[0]], evs[1..]);
    RunConcat([], [evs[0]], evs[1..]);
  }

  lemma FromIdle()
    ensures Partial([])
  {
  }

  /** A frame that comes after a pause is recovered, also when an earlier one was lost half way. */
  lemma FrameAfterPause(acc0: seq<byte>, f: Frame, evs: seq<Event>)
    requires Partial(acc0) && |f.payload| <= MAX_PAYLOAD
    requires Wire(evs) == Encode(f) && Prompt(evs) && evs[0].late
    ensures Run(acc0, evs) == RunState([], [Emission(0, |evs|, f)])
  {
    hide Run, Encode;
    LateStart(acc0, evs);
    RoundTrip(f, evs);
  }

  /** And so is everything after it. */
  lemma AllAfterPause(acc0: seq<byte>, items: seq<Item>)
    requires Partial(acc0) && (forall i | 0 <= i < |items| :: WellSent(items[i]))
    requires Stream(items) != [] && Stream(items)[0].late
    ensures var s := Run(acc0, Stream(items));
      s.acc == [] && Frames(s.log) == Wanted(items)
  {
    hide Run, WellSent;
    LateStart(acc0, Stream(items));
    ParserComplete(items);
  }

  // ----- Damage -----

  /** `bad` is `good` damaged only between LEN and ETX, by an error the checksum detects. */
  ghost predicate Damaged(good: seq<byte>, bad: seq<byte>) {
    && 3 <= |good| == |bad|
    && bad[..2] == good[..2]
    && bad[|bad| - 1] == good[|good| - 1]
    && Detectable(XorBits(StreamBits(good[2..|good| - 1]), StreamBits(bad[2..|bad| - 1])))
  }

  lemma EncodedResidue(f: Frame)
    requires |f.payload| <= MAX_PAYLOAD
    ensures Crc(Encode(f)[2..6 + |f.payload|]) == 0
  {
    hide Crc, Lo, Hi, Received, Encode, Body;
    EncodedParts(f);
    var c := Crc(Body(f));
    ZeroResidue(Body(f), Lo(c), Hi(c));
    ReceivedLoHi(c);
  }

  lemma IntactIffResidue(acc: seq<byte>)
    requires Partial(acc) && Complete(acc)
    ensures Intact(acc) <==> Crc(acc[2..]) == 0
  {
    hide Crc, Received;
    var n := acc[1] as nat;
    ZeroResidue(acc[2..4 + n], acc[4 + n], acc[5 + n]);
    assert acc[2..] == acc[2..4 + n] + [acc[4 + n], acc[5 + n]];
  }

  /** A frame damaged in its CMD..CRC bytes by a burst of at most sixteen bits, or by any odd
      number of flipped bits, is swallowed whole: nothing is emitted and the parser is idle. */
  lemma DamagedFrameRejected(f: Frame, evs: seq<Event>)
    requires |f.payload| <= MAX_PAYLOAD
    requires Damaged(Encode(f), Wire(evs)) && Prompt(evs)
    ensures Run([], evs) == RunState([], [])
  {
    hide Crc, Encode, Detectable, StreamBits, XorBits, Intact;
    var w, v, n := Encode(f), Wire(evs), 6 + |f.payload|;
    EncodedParts(f);
    assert v[0] == v[..2][0] && v[1] == v[..2][1];
    assert w[0] == w[..2][0] && w[1] == w[..2][1];
    EncodedResidue(f);
    ErrorDetected(w[2..n], v[2..n]);
    assert v[..n][2..] == v[2..n];
    BlockOutcome(evs);
    IntactIffResidue(v[..n]);
  }

  // ----- Damage confined to two neighbouring bytes -----

  lemma {:induction false} StreamBitsAt(d: seq<byte>, i: nat, j: nat)
    requires i < |d| && j < 8
    ensures StreamBits(d)[8 * i + j] == Bits(d[i])[j]
  {
    hide Bits;
    if i < |d| - 1 {
      StreamBitsAt(d[..|d| - 1], i, j);
    }
  }

  function Half(x: bv16): bv16 {
    x >> 1
  }

  predicate LowBit(x: bv16) {
    x & 1 != 0
  }

  lemma SameByHalves(x: bv16, y: bv16)
    requires Half(x) == Half(y) && LowBit(x) == LowBit(y)
    ensures x == y
  {
    LowBitIsBit(x);
    LowBitIsBit(y);
    assert x & 1 == y & 1;
  }

  lemma LowBitsByHalves(x: bv16, n: nat)
    requires n > 0
    ensures LowBits(x, n) == [LowBit(x)] + LowBits(Half(x), n - 1)
    ensures Drop(x, n) == Drop(Half(x), n - 1)
  {
  }

  lemma DropNothing(x: bv16)
    ensures Drop(x, 0) == x
  {
  }

  lemma {:induction false} LowBitsInjective(x: bv16, y: bv16, n: nat)
    requires Drop(x, n) == 0 && Drop(y, n) == 0 && LowBits(x, n) == LowBits(y, n)
    ensures x == y
    decreases n
  {
    hide Half, LowBit, LowBits, Drop;
    if n == 0 {
      DropNothing(x);
      DropNothing(y);
    } else {
      LowBitsByHalves(x, n);
      LowBitsByHalves(y, n);
      SameTail(LowBit(x), LowBits(Half(x), n - 1), LowBit(y), LowBits(Half(y), n - 1));
      LowBitsInjective(Half(x), Half(y), n - 1);
      SameByHalves(x, y);
    }
  }

  lemma SameTail(b: bool, p: seq<bool>, c: bool, q: seq<bool>)
    requires [b] + p == [c] + q
    ensures b == c && p == q
  {
    assert ([b] + p)[0] == b && ([c] + q)[0] == c;
    assert ([b] + p)[1..] == p && ([c] + q)[1..] == q;
  }

  lemma BitsInjective(a: byte, b: byte)
    requires Bits(a) == Bits(b)
    ensures a == b
  {
    hide LowBits, Drop;
    DropByte(a);
    DropByte(b);
    LowBitsInjective(a as bv16, b as bv16, 8);
    ByteOfWord(a);
    ByteOfWord(b);
  }

  lemma ByteOfWord(a: byte)
    ensures Lo(a as bv16) == a
  {
  }

  lemma BitOfByte(d: seq<byte>, k: nat)
    requires k < 8 * |d|
    ensures StreamBits(d)[k] == Bits(d[k / 8])[k % 8]
  {
    hide Bits, StreamBits;
    StreamBitsAt(d, k / 8, k % 8);
  }

  lemma SameElsewhere(good: seq<byte>, bad: seq<byte>, i: nat, k: nat)
    requires |good| == |bad| && k < 8 * |good|
    requires forall j | 0 <= j < |good| && j != i && j != i + 1 :: good[j] == bad[j]
    requires StreamBits(good)[k] != StreamBits(bad)[k]
    ensures 8 * i <= k < 8 * i + 16
  {
    hide Bits, StreamBits;
    BitOfByte(good, k);
    BitOfByte(bad, k);
  }

  lemma DifferentBit(good: seq<byte>, bad: seq<byte>) returns (k: nat)
    requires |good| == |bad| && good != bad
    ensures k < 8 * |good| && StreamBits(good)[k] != StreamBits(bad)[k]
  {
    hide Bits, StreamBits;
    var m :| 0 <= m < |good| && good[m] != bad[m];
    if Bits(good[m]) == Bits(bad[m]) {
      BitsInjective(good[m], bad[m]);
      assert false;
    }
    var j :| 0 <= j < 8 && Bits(good[m])[j] != Bits(bad[m])[j];
    StreamBitsAt(good, m, j);
    StreamBitsAt(bad, m, j);
    k := 8 * m + j;
  }

  /** Two blocks that differ, and only in bytes `i` and `i + 1`, differ by a burst. */
  lemma NeighboursAreBurst(good: seq<byte>, bad: seq<byte>, i: nat)
    requires |good| == |bad| && good != bad
    requires forall k | 0 <= k < |good| && k != i && k != i + 1 :: good[k] == bad[k]
    ensures Detectable(XorBits(StreamBits(good), StreamBits(bad)))
  {
    hide Bits, StreamBits;
    var e := XorBits(StreamBits(good), StreamBits(bad));
    forall k | 0 <= k < |e| && e[k]
      ensures 8 * i <= k < 8 * i + 16
    {
      SameElsewhere(good, bad, i, k);
    }
    var k := DifferentBit(good, bad);
    assert e[k];
    assert Burst(e, 8 * i);
  }

  /** Any change confined to two consecutive bytes of CMD..CRC makes the parser drop the frame. */
  lemma TwoByteDamageRejected(f: Frame, evs: seq<Event>, i: nat)
    requires |f.payload| <= MAX_PAYLOAD && Prompt(evs) && |evs| == 7 + |f.payload|
    requires 2 <= i && i + 1 < |evs| - 1
    requires Wire(evs) != Encode(f)
    requires forall k | 0 <= k < |evs| && k != i && k != i + 1 :: Wire(evs)[k] == Encode(f)[k]
    ensures Run([], evs) == RunState([], [])
  {
    hide Encode, Damaged;
    NeighboursAreDamage(Encode(f), Wire(evs), i);
    DamagedFrameRejected(f, evs);
  }

  lemma NeighboursAreDamage(good: seq<byte>, bad: seq<byte>, i: nat)
    requires |bad| == |good| && good != bad
    requires 2 <= i && i + 1 < |good| - 1
    requires forall k | 0 <= k < |good| && k != i && k != i + 1 :: bad[k] == good[k]
    ensures Damaged(good, bad)
  {
    hide Detectable, StreamBits, XorBits;
    var n := |good| - 1;
    var x, y := good[2..n], bad[2..n];
    var k :| 0 <= k < |bad| && bad[k] != good[k];
    assert x[k - 2] != y[k - 2];
    NeighboursAreBurst(x, y, i - 2);
  }

  // ----- Damage to LEN -----

  lemma ReceivedIs(lo: byte, hi: byte, c: bv16)
    ensures Received(lo, hi) == c <==> lo == Lo(c) && hi == Hi(c)
  {
    ReceivedParts(lo, hi);
    ReceivedLoHi(c);
  }

  /** The encoding of a frame with another LEN. */
  function Relabelled(f: Frame, len: byte): (w: seq<byte>)
    requires |f.payload| <= MAX_PAYLOAD
    ensures |w| == 7 + |f.payload|
  {
    [STX, len] + Body(f) + [Lo(Crc(Body(f))), Hi(Crc(Body(f))), ETX]
  }

  /** It differs from the encoding in LEN only. */
  lemma RelabelledIs(f: Frame, len: byte)
    requires |f.payload| <= MAX_PAYLOAD
    ensures Relabelled(f, len) == Encode(f)[1 := len]
  {
    hide Crc, Lo, Hi, Body;
    var w, v := Encode(f)[1 := len], Relabelled(f, len);
    forall i | 0 <= i < |w|
      ensures w[i] == v[i]
    {
    }
  }

  /** LEN is outside the checksum: when the line changes only it, to a smaller number, the parser
      reports a frame at the length LEN now announces if and only if the bytes of the original frame
      there happen to be the checksum and ETX of the shortened frame; and then it is that frame. */
  lemma ShorterLen(f: Frame, evs: seq<Event>, len: byte)
    requires |f.payload| <= MAX_PAYLOAD && Prompt(evs) && Wire(evs) == Relabelled(f, len)
    requires len as nat < |f.payload|
    ensures var m := len as nat;
      var short := Frame(f.cmd, f.sn, f.payload[..m]);
      var crc := Crc(Body(short));
      Run([], evs[..m + 7]) ==
        RunState([], if Wire(evs)[4 + m..m + 7] == [Lo(crc), Hi(crc), ETX] then [Emission(0, m + 7, short)] else [])
  {
    hide Crc, Lo, Hi, Encode, Run, Emit, Partial, Complete, Prompt, Body, Relabelled;
    var m, v, head := len as nat, Wire(evs), evs[..len as nat + 7];
    RelabelledParts(f, len);
    assert Wire(head) == v[..m + 7];
    PromptHead(evs, m + 7);
    BlockOutcome(head);
    assert v[..m + 7][..m + 6] == v[..m + 6];
    EmitsShortened(f, v, len);
  }

  lemma RelabelledParts(f: Frame, len: byte)
    requires |f.payload| <= MAX_PAYLOAD
    ensures Relabelled(f, len)[0] == STX && Relabelled(f, len)[1] == len
  {
  }

  lemma EmitsShortened(f: Frame, v: seq<byte>, len: byte)
    requires |f.payload| <= MAX_PAYLOAD && len as nat < |f.payload| && v == Relabelled(f, len)
    requires Partial(v[..len as nat + 6])
    ensures var m := len as nat;
      var short := Frame(f.cmd, f.sn, f.payload[..m]);
      var crc := Crc(Body(short));
      Emit(v[..m + 6], v[m + 6]) == if v[4 + m..m + 7] == [Lo(crc), Hi(crc), ETX] then Some(short) else None
  {
    hide Crc, Lo, Hi, Received, Body, Decode, Partial, Relabelled, Complete;
    var m, acc := len as nat, v[..len as nat + 6];
    var crc := Crc(Body(Frame(f.cmd, f.sn, f.payload[..m])));
    Shortened(f, len, v, acc);
    ReceivedIs(v[4 + m], v[5 + m], crc);
    ThreeBytes(v, 4 + m, Lo(crc), Hi(crc), ETX);
  }

  lemma ThreeBytes(v: seq<byte>, i: nat, x: byte, y: byte, z: byte)
    requires i + 3 <= |v|
    ensures v[i..i + 3] == [x, y, z] <==> v[i] == x && v[i + 1] == y && v[i + 2] == z
  {
    var s := v[i..i + 3];
    assert s == [v[i], v[i + 1], v[i + 2]];
    assert s == [x, y, z] ==> s[0] == x && s[1] == y && s[2] == z;
  }

  lemma Shortened(f: Frame, len: byte, v: seq<byte>, acc: seq<byte>)
    requires |f.payload| <= MAX_PAYLOAD && len as nat < |f.payload|
    requires v == Relabelled(f, len) && acc == v[..len as nat + 6]
    ensures var m := len as nat;
      var short := Frame(f.cmd, f.sn, f.payload[..m]);
      && acc[1] == len && Complete(acc) && Decode(acc) == short && acc[2..4 + m] == Body(short)
      && acc[4 + m] == v[4 + m] && acc[5 + m] == v[5 + m]
  {
    hide Relabelled, Complete, Decode, Body;
    var m := len as nat;
    RelabelledShows(f, len);
    SliceOfPrefix(v, m + 6, 4, 4 + m);
    PrefixOfSlice(v, 4, 4 + |f.payload|, 4 + m);
    CollectedParts(acc, m);
  }

  lemma CollectedParts(acc: seq<byte>, m: nat)
    requires |acc| == m + 6 && acc[1] as nat == m
    ensures Complete(acc) && Decode(acc) == Frame(acc[2], acc[3], acc[4..4 + m])
    ensures acc[2..4 + m] == Body(Frame(acc[2], acc[3], acc[4..4 + m]))
  {
    HeadAndRest(acc, 2, 4 + m);
  }

  lemma RelabelledShows(f: Frame, len: byte)
    requires |f.payload| <= MAX_PAYLOAD
    ensures var v := Relabelled(f, len);
      v[1] == len && v[2] == f.cmd && v[3] == f.sn && v[4..4 + |f.payload|] == f.payload
  {
    hide Crc, Lo, Hi;
  }

  lemma PromptHead(evs: seq<Event>, k: nat)
    requires Prompt(evs) && k <= |evs|
    ensures Prompt(evs[..k])
  {
  }

  /** Changed to a larger number the parser accepts, LEN makes the whole frame go unreported, and the
      parser is left waiting for more. */
  lemma LongerLen(f: Frame, evs: seq<Event>, len: byte)
    requires |f.payload| <= MAX_PAYLOAD && Prompt(evs) && Wire(evs) == Relabelled(f, len)
    requires |f.payload| < len as nat <= MAX_PAYLOAD
    ensures Run([], evs) == RunState(Wire(evs), []) && Wire(evs) != []
  {
    hide Run, Relabelled;
    RelabelledParts(f, len);
    CollectsPrefix(evs, |evs|);
    assert evs[..|evs|] == evs && Wire(evs)[..|evs|] == Wire(evs);
  }

  /** Changed to more than a payload can be, it is refused at once. */
  lemma RefusedLen(f: Frame, evs: seq<Event>, len: byte)
    requires |f.payload| <= MAX_PAYLOAD && Prompt(evs) && Wire(evs) == Relabelled(f, len)
    requires len as nat > MAX_PAYLOAD
    ensures Run([], evs[..2]) == RunState([], [])
  {
    hide Run, Relabelled, Prompt;
    RelabelledParts(f, len);
    PromptAt(evs, 1);
    RefusedAtOnce(evs);
  }

  lemma RefusedAtOnce(evs: seq<Event>)
    requires |evs| >= 2 && Wire(evs)[0] == STX && Wire(evs)[1] as nat > MAX_PAYLOAD && !evs[1].late
    ensures Run([], evs[..2]) == RunState([], [])
  {
    hide Run, Intact;
    assert evs[0].b == STX && evs[1].b == Wire(evs)[1];
    RunEmpty();
    assert evs[..0] == [];
    RunPrefix(evs, 1);
    RunPrefix(evs, 2);
  }

  /** Such damage does occur: for every command and sequence number there is a frame that, with one
      bit of LEN flipped, is reported as another. */
  lemma LenDamageAccepted(cmd: byte, sn: byte) returns (sent: Frame, evs: seq<Event>)
    ensures |sent.payload| == 4 && Prompt(evs) && Wire(evs) == Relabelled(sent, 0)
    ensures Run([], evs[..7]) == RunState([], [Emission(0, 7, Frame(cmd, sn, []))])
  {
    hide Crc, Lo, Hi, Run;
    var short := Frame(cmd, sn, []);
    var crc := Crc(Body(short));
    sent := Frame(cmd, sn, [Lo(crc), Hi(crc), ETX, 0]);
    evs := AllPrompt(Relabelled(sent, 0));
    assert sent.payload[..0] == [];
    assert Wire(evs)[4..7] == [Lo(crc), Hi(crc), ETX];
    ShorterLen(sent, evs, 0);
  }

  /** Bytes that all come in time. */
  function AllPrompt(w: seq<byte>): (evs: seq<Event>)
    ensures |evs| == |w| && Wire(evs) == w && Prompt(evs)
  {
    var evs := seq(|w|, i requires 0 <= i < |w| => Event(false, w[i]));
    assert Wire(evs) == w;
    evs
  }
}
