/** The two implementations of the frame parser and sender, STM32 (C) and K230 (Python),
    each proved against the values of FrameCodec, and their agreement on timed streams. */
module FrameParsers {
  import opened Machine
  import opened Wrappers
  import opened Slices
  import opened Division
  import opened Crc16
  import opened FrameCodec

  const TICKS_PER_SECOND: int := 1000

  type uint32 = t: int | 0 <= t < WORD

  datatype Waiting = Stx | Len | Data | Etx

  function TickFromMillisecond(ms: nat): int {
    TICKS_PER_SECOND * (ms / 1000) + (TICKS_PER_SECOND * (ms % 1000) + 999) / 1000
  }

  /** Unsigned 32-bit tick difference of the RT-Thread side. */
  predicate LateStm(now: uint32, last: uint32) {
    (now - last) % WORD > TickFromMillisecond(FRAME_TIMEOUT)
  }

  /** Signed wrapped difference of MicroPython ticks with the given period. */
  function TicksDiff(a: int, b: int, period: int): int
    requires period > 0
  {
    (a - b + period / 2) % period - period / 2
  }

  predicate LateK230(now: int, last: int, period: int)
    requires period > 0
  {
    TicksDiff(now, last, period) > FRAME_TIMEOUT
  }

  /** The fields both parsers keep, and when they describe a partly collected frame. */
  ghost predicate Collecting(state: Waiting, buf: seq<byte>, pos: nat, dataLen: nat, expected: nat) {
    && |buf| == MAX_FRAME
    && match state
       case Stx => true
       case Len => pos == 1 && buf[0] == STX
       case Data => 2 <= pos < 2 + expected && LenKnown(buf, dataLen, expected)
       case Etx => pos == 2 + expected && LenKnown(buf, dataLen, expected)
  }

  predicate LenKnown(buf: seq<byte>, dataLen: nat, expected: nat) {
    && |buf| >= 2 && buf[0] == STX
    && buf[1] as nat == dataLen <= MAX_PAYLOAD
    && expected == dataLen + 4
  }

  /** The checks and copies made when ETX arrives: LEN and the checksum bytes are read back from
      the buffer, the checksum is recomputed over CMD, SEQ and the payload. */
  method CheckFrame(buf: array<byte>) returns (out: Option<Frame>)
    requires buf.Length == MAX_FRAME && buf[0] == STX && buf[1] as nat <= MAX_PAYLOAD
    ensures var acc := buf[..6 + buf[1] as nat];
      out == if Intact(acc) then Some(Decode(acc)) else None
  {
    hide Crc, Received;
    out := None;
    var len := buf[1] as nat;
    ghost var acc := buf[..6 + len];
    var crcRx := Received(buf[4 + len], buf[5 + len]);
    var crcCalc := Compute(buf, 2, 2 + len);
    SliceOfPrefix(buf[..], 6 + len, 2, 4 + len);
    SliceOfPrefix(buf[..], 6 + len, 4, 4 + len);
    assert buf[2..4 + len] == buf[..][2..4 + len] && buf[4..4 + len] == buf[..][4..4 + len];
    assert acc == buf[..][..6 + len];
    if crcRx == crcCalc {
      out := Some(Frame(buf[2], buf[3], buf[4..4 + len]));
    }
  }

  /** The bytes collected when ETX is awaited are the `pos` first of the buffer. */
  lemma Awaited(buf: seq<byte>, pos: nat, dataLen: nat, expected: nat)
    requires Collecting(Etx, buf, pos, dataLen, expected)
    ensures pos == 6 + buf[1] as nat < MAX_FRAME
    ensures Partial(buf[..pos]) && Complete(buf[..pos])
    ensures forall b :: Collect(buf[..pos], b) == []
  {
  }

  class StmParser {
    var state: Waiting
    const buf: array<byte>
    var pos: nat
    var dataLen: nat
    var expected: nat
    var lastByteTick: uint32
    var lastSeq: byte

    ghost predicate Valid()
      reads this, buf
    {
      Collecting(state, buf[..], pos, dataLen, expected)
    }

    ghost function Acc(): (acc: seq<byte>)
      reads this, buf
      requires Valid()
      ensures Partial(acc)
    {
      if state.Stx? then [] else buf[..pos]
    }

    constructor ()
      ensures Valid() && fresh(buf) && Acc() == [] && lastByteTick == 0 && lastSeq == 0xFF
    {
      state := Stx;
      buf := new byte[MAX_FRAME];
      pos, dataLen, expected, lastByteTick, lastSeq := 0, 0, 0, 0, 0xFF;
    }

    method OnStx(b: byte)
      requires Valid() && state == Stx
      modifies this, buf
      ensures Valid() && lastByteTick == old(lastByteTick) && lastSeq == old(lastSeq)
      ensures Acc() == Collect(old(Acc()), b)
    {
      if b == STX {
        buf[0] := b;
        pos := 1;
        state := Len;
        assert buf[..1] == [b];
      }
    }

    method OnLen(b: byte)
      requires Valid() && state == Len
      modifies this, buf
      ensures Valid() && lastByteTick == old(lastByteTick) && lastSeq == old(lastSeq)
      ensures Acc() == Collect(old(Acc()), b)
    {
      ghost var acc := Acc();
      if b as nat > MAX_PAYLOAD {
        state := Stx;
        pos := 0;
        return;
      }
      buf[pos] := b;
      pos := pos + 1;
      dataLen := b as nat;
      expected := b as nat + 4;
      state := Data;
      assert buf[..pos] == acc + [b];
    }

    method OnData(b: byte)
      requires Valid() && state == Data
      modifies this, buf
      ensures Valid() && lastByteTick == old(lastByteTick) && lastSeq == old(lastSeq)
      ensures Acc() == Collect(old(Acc()), b)
    {
      ghost var acc := Acc();
      assert pos + 1 <= 2 + expected <= 2 + MAX_PAYLOAD + 4;
      if pos < MAX_FRAME {
        buf[pos] := b;
        pos := pos + 1;
      } else {
        // The overflow branch cannot be reached: LEN was checked, so 2 + expected <= 70.
        assert false;
      }
      assert buf[..pos] == acc + [b];
      if pos >= 2 + expected {
        state := Etx;
      }
    }

    method OnEtx(b: byte) returns (out: Option<Frame>)
      requires Valid() && state == Etx
      modifies this, buf
      ensures Valid() && lastByteTick == old(lastByteTick) && lastSeq == old(lastSeq)
      ensures Acc() == Collect(old(Acc()), b) && out == Emit(old(Acc()), b)
    {
      hide Intact, Decode, Collect, Complete;
      out := None;
      Awaited(buf[..], pos, dataLen, expected);
      assert buf[..][..pos] == Acc();
      if b == ETX {
        out := CheckFrame(buf);
      }
      state := Stx;
      pos := 0;
    }

    method Feed(b: byte, now: uint32) returns (out: Option<Frame>)
      requires Valid()
      modifies this, buf
      ensures Valid() && lastByteTick == now && lastSeq == old(lastSeq)
      ensures (Acc(), out) == Step(old(Acc()), Event(LateStm(now, old(lastByteTick)), b))
    {
      hide Collect, Intact, Decode;
      ghost var acc := Fresh(Acc(), Event(LateStm(now, lastByteTick), b));
      out := None;
      if state != Stx && (now - lastByteTick) % WORD > TickFromMillisecond(FRAME_TIMEOUT) {
        state := Stx;
        pos := 0;
      }
      lastByteTick := now;
      assert Acc() == acc;
      match state {
        case Stx => OnStx(b);
        case Len => OnLen(b);
        case Data => OnData(b);
        case Etx => out := OnEtx(b);
      }
    }
  }

  class K230Parser {
    var state: Waiting
    const buf: array<byte>
    var pos: nat
    var dataLen: nat
    var expected: nat
    var lastByteTick: int
    const period: int

    ghost predicate Valid()
      reads this, buf
    {
      period > 0 && Collecting(state, buf[..], pos, dataLen, expected)
    }

    ghost function Acc(): (acc: seq<byte>)
      reads this, buf
      requires Valid()
      ensures Partial(acc)
    {
      if state.Stx? then [] else buf[..pos]
    }

    constructor (period: int, now: int)
      requires period > 0
      ensures Valid() && fresh(buf) && Acc() == [] && lastByteTick == now && this.period == period
    {
      state := Stx;
      buf := new byte[MAX_FRAME];
      pos, dataLen, expected, lastByteTick := 0, 0, 0, now;
      this.period := period;
    }

    method Reset()
      requires period > 0 && buf.Length == MAX_FRAME
      modifies this
      ensures Valid() && Acc() == [] && lastByteTick == old(lastByteTick)
    {
      state := Stx;
      pos := 0;
      dataLen := 0;
      expected := 0;
    }

    method OnStx(b: byte)
      requires Valid() && state == Stx
      modifies this, buf
      ensures Valid() && lastByteTick == old(lastByteTick)
      ensures Acc() == Collect(old(Acc()), b)
    {
      if b == STX {
        buf[0] := b;
        pos := 1;
        state := Len;
        assert buf[..1] == [b];
      }
    }

    method OnLen(b: byte)
      requires Valid() && state == Len
      modifies this, buf
      ensures Valid() && lastByteTick == old(lastByteTick)
      ensures Acc() == Collect(old(Acc()), b)
    {
      ghost var acc := Acc();
      if b as nat > MAX_PAYLOAD {
        Reset();
        return;
      }
      buf[pos] := b;
      pos := pos + 1;
      dataLen := b as nat;
      expected := b as nat + 4;
      state := Data;
      assert buf[..pos] == acc + [b];
    }

    method OnData(b: byte)
      requires Valid() && state == Data
      modifies this, buf
      ensures Valid() && lastByteTick == old(lastByteTick)
      ensures Acc() == Collect(old(Acc()), b)
    {
      ghost var acc := Acc();
      assert pos + 1 <= 2 + expected <= 2 + MAX_PAYLOAD + 4;
      if pos < MAX_FRAME {
        buf[pos] := b;
        pos := pos + 1;
      } else {
        // The overflow branch cannot be reached: LEN was checked, so 2 + expected <= 70.
        assert false;
      }
      assert buf[..pos] == acc + [b];
      if pos >= 2 + expected {
        state := Etx;
      }
    }

    method OnEtx(b: byte) returns (out: Option<Frame>)
      requires Valid() && state == Etx
      modifies this, buf
      ensures Valid() && lastByteTick == old(lastByteTick)
      ensures Acc() == Collect(old(Acc()), b) && out == Emit(old(Acc()), b)
    {
      hide Intact, Decode, Collect, Complete;
      out := None;
      Awaited(buf[..], pos, dataLen, expected);
      ghost var acc := Acc();
      assert buf[..][..pos] == acc;
      if b == ETX {
        buf[pos] := b;
        pos := pos + 1;
        out := CheckFrame(buf);
        assert buf[..pos - 1] == acc;
      }
      Reset();
    }

    method Feed(b: byte, now: int) returns (out: Option<Frame>)
      requires Valid()
      modifies this, buf
      ensures Valid() && lastByteTick == now
      ensures (Acc(), out) == Step(old(Acc()), Event(LateK230(now, old(lastByteTick), period), b))
    {
      hide Collect, Intact, Decode;
      ghost var acc := Fresh(Acc(), Event(LateK230(now, lastByteTick, period), b));
      out := None;
      if state != Stx {
        if TicksDiff(now, lastByteTick, period) > FRAME_TIMEOUT {
          Reset();
        }
      }
      lastByteTick := now;
      assert Acc() == acc;
      match state {
        case Stx => OnStx(b);
        case Len => OnLen(b);
        case Data => OnData(b);
        case Etx => out := OnEtx(b);
      }
    }
  }

  // ----- Both parsers on one timed stream -----

  function StmTick(t: nat, phase: nat): uint32 {
    (t + phase) % WORD
  }

  function K230Tick(t: nat, phase: nat, period: nat): int
    requires period > 0
  {
    (t + phase) % period
  }

  lemma ModMultiple(x: int, k: int, p: int)
    requires p > 0
    ensures (x + k * p) % p == x % p
  {
    assert x == (x / p) * p + x % p;
    Distribute(x / p, -k, p);
    Divided(p, x + k * p, x / p + k, x % p);
  }

  /** A wrapped tick difference is the true difference, wrapped. */
  lemma TickDifference(a: int, b: int, c: int, p: int)
    requires p > 0
    ensures (a % p - b % p + c) % p == (a - b + c) % p
  {
    var k := b / p - a / p;
    assert a % p - b % p + c == a - b + c + k * p by {
      assert a == (a / p) * p + a % p;
      assert b == (b / p) * p + b % p;
      assert k * p == (b / p) * p - (a / p) * p;
    }
    ModMultiple(a - b + c, k, p);
  }

  lemma SmallMod(x: int, p: int)
    requires 0 <= x < p
    ensures x % p == x
  {
  }

  /** Both timeout tests see the true gap as long as it is shorter than the 32-bit wrap and than
      half the MicroPython period, whatever the two clocks started from. */
  lemma ClocksAgree(t0: nat, t1: nat, phaseS: nat, phaseK: nat, period: nat)
    requires t0 <= t1 && period > 0
    requires t1 - t0 < WORD && t1 - t0 < period - period / 2
    ensures LateStm(StmTick(t1, phaseS), StmTick(t0, phaseS)) <==> t1 - t0 > FRAME_TIMEOUT
    ensures LateK230(K230Tick(t1, phaseK, period), K230Tick(t0, phaseK, period), period) <==> t1 - t0 > FRAME_TIMEOUT
  {
    hide LateStm, LateK230, StmTick, K230Tick;
    StmClock(t0, t1, phaseS);
    K230Clock(t0, t1, phaseK, period);
  }

  lemma StmClock(t0: nat, t1: nat, phase: nat)
    requires t0 <= t1 && t1 - t0 < WORD
    ensures LateStm(StmTick(t1, phase), StmTick(t0, phase)) <==> t1 - t0 > FRAME_TIMEOUT
  {
    TickDifference(t1 + phase, t0 + phase, 0, WORD);
    SmallMod(t1 - t0, WORD);
  }

  /** The wrapped difference of two readings is the true gap, below half the period. */
  lemma TrueGap(t0: nat, t1: nat, phase: nat, period: nat)
    requires t0 <= t1 && period > 0 && t1 - t0 < period - period / 2
    ensures TicksDiff(K230Tick(t1, phase, period), K230Tick(t0, phase, period), period) == t1 - t0
  {
    TickDifference(t1 + phase, t0 + phase, period / 2, period);
    SmallMod(t1 - t0 + period / 2, period);
  }

  lemma K230Clock(t0: nat, t1: nat, phase: nat, period: nat)
    requires t0 <= t1 && period > 0 && t1 - t0 < period - period / 2
    ensures LateK230(K230Tick(t1, phase, period), K230Tick(t0, phase, period), period) <==> t1 - t0 > FRAME_TIMEOUT
  {
    hide TicksDiff, K230Tick;
    TrueGap(t0, t1, phase, period);
  }

  /** The event of each byte, judged by true arrival times. */
  function Timed(data: seq<byte>, times: seq<nat>): (r: seq<Event>)
    requires |data| == |times|
    ensures |r| == |data|
  {
    seq(|data|, i requires 0 <= i < |data| && |data| == |times| =>
      Event(i > 0 && times[i] - times[i - 1] > FRAME_TIMEOUT, data[i]))
  }

  lemma IdleIgnoresLateness(b: byte, x: bool, y: bool)
    ensures Step([], Event(x, b)) == Step([], Event(y, b))
  {
  }

  lemma NoFrames()
    ensures Run([], []).acc == [] && Frames(Run([], []).log) == []
  {
  }

  /** The frames so far, one byte later. */
  lemma FramesGrow(evs: seq<Event>, i: nat)
    requires i < |evs|
    ensures var s, t := Run([], evs[..i]), Run([], evs[..i + 1]);
      && t.acc == Step(s.acc, evs[i]).0
      && Frames(t.log) == Frames(s.log) + (match Step(s.acc, evs[i]).1 case Some(f) => [f] case None => [])
  {
    hide Step;
    assert evs[..i + 1][..i] == evs[..i];
    assert evs[..i + 1][i] == evs[i];
  }

  /** Whatever the two timeout tests answer for byte `i`, both parsers take the same step. */
  lemma SameStep(data: seq<byte>, times: seq<nat>, i: nat, acc: seq<byte>, lastS: uint32, lastK: int,
                 phaseS: nat, phaseK: nat, period: nat)
    requires i < |data| == |times| && period > 0 && Partial(acc)
    requires i > 0 ==>
      && times[i - 1] <= times[i] && times[i] - times[i - 1] < WORD && times[i] - times[i - 1] < period - period / 2
      && lastS == StmTick(times[i - 1], phaseS) && lastK == K230Tick(times[i - 1], phaseK, period)
    requires i == 0 ==> acc == []
    ensures Step(acc, Event(LateStm(StmTick(times[i], phaseS), lastS), data[i])) == Step(acc, Timed(data, times)[i])
    ensures Step(acc, Event(LateK230(K230Tick(times[i], phaseK, period), lastK, period), data[i]))
         == Step(acc, Timed(data, times)[i])
  {
    hide Step, LateStm, LateK230, StmTick, K230Tick;
    var e := Timed(data, times)[i];
    if i > 0 {
      ClocksAgree(times[i - 1], times[i], phaseS, phaseK, period);
    } else {
      IdleIgnoresLateness(data[0], e.late, LateStm(StmTick(times[i], phaseS), lastS));
      IdleIgnoresLateness(data[0], e.late, LateK230(K230Tick(times[i], phaseK, period), lastK, period));
    }
  }

  /** The two parsers emit the same frames on every byte stream with the same arrival times,
      although their clocks start anywhere and they reset different fields. */
  method ParseBoth(data: seq<byte>, times: seq<nat>, phaseS: nat, phaseK: nat, period: nat)
    returns (stmFrames: seq<Frame>, k230Frames: seq<Frame>)
    requires |data| == |times| && period > 0
    requires forall i | 0 < i < |times| ::
      times[i - 1] <= times[i] && times[i] - times[i - 1] < WORD && times[i] - times[i - 1] < period - period / 2
    ensures stmFrames == k230Frames == Frames(Run([], Timed(data, times)).log)
  {
    hide Step, Extend, LateStm, LateK230, StmTick, K230Tick, Run, Frames, Timed;
    NoFrames();
    var stm := new StmParser();
    var k230 := new K230Parser(period, phaseK % period);
    stmFrames, k230Frames := [], [];
    ghost var evs := Timed(data, times);
    for i := 0 to |data|
      invariant stm.Valid() && k230.Valid() && fresh(stm) && fresh(k230) && fresh(stm.buf) && fresh(k230.buf)
      invariant stm.buf != k230.buf && k230.period == period
      invariant i > 0 ==> stm.lastByteTick == StmTick(times[i - 1], phaseS)
      invariant i > 0 ==> k230.lastByteTick == K230Tick(times[i - 1], phaseK, period)
      invariant stm.Acc() == k230.Acc() == Run([], evs[..i]).acc
      invariant stmFrames == k230Frames == Frames(Run([], evs[..i]).log)
    {
      FramesGrow(evs, i);
      SameStep(data, times, i, stm.Acc(), stm.lastByteTick, k230.lastByteTick, phaseS, phaseK, period);
      var f := stm.Feed(data[i], StmTick(times[i], phaseS));
      if f.Some? {
        stmFrames := stmFrames + [f.value];
      }
      var g := k230.Feed(data[i], K230Tick(times[i], phaseK, period));
      if g.Some? {
        k230Frames := k230Frames + [g.value];
      }
    }
    assert evs[..|data|] == evs;
  }
}
