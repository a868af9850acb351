/** The unlock request and its acknowledgement, from the byte buffers of both senders to the
    agreement between the two ends over a lossy FIFO line. */
module UnlockLink {
  import opened Machine
  import opened Wrappers
  import opened Slices
  import opened Division
  import opened Crc16
  import opened FrameCodec
  import opened FrameStream
  import opened FrameParsers

  const FACE_UNLOCK_REQ: byte := 0x01
  const FACE_UNLOCK_ACK: byte := 0x02
  const DOOR_CTRL: byte := 0x03
  const DOOR_STATUS_REQ: byte := 0x04
  const DOOR_STATUS_ACK: byte := 0x05
  const HEARTBEAT_REQ: byte := 0x06
  const HEARTBEAT_ACK: byte := 0x07

  const RESULT_OK: byte := 0x00
  const RESULT_ERROR: byte := 0x01
  const RESULT_BUSY: byte := 0x02

  // ----- Senders -----

  /** Copies a block into a buffer. */
  method CopyIn(buf: array<byte>, at: nat, block: seq<byte>)
    requires at + |block| <= buf.Length
    modifies buf
    ensures buf[..] == old(buf[..at]) + block + old(buf[at + |block|..])
  {
    forall i | 0 <= i < |block| {
      buf[at + i] := block[i];
    }
  }

  /** The frame up to its checksum. */
  function Head(f: Frame): (w: seq<byte>)
    requires |f.payload| <= MAX_PAYLOAD
    ensures |w| == 4 + |f.payload|
  {
    [STX, |f.payload| as byte] + Body(f)
  }

  method FillBody(buf: array<byte>, cmd: byte, sn: byte, payload: seq<byte>)
    requires |payload| <= MAX_PAYLOAD && buf.Length >= 7 + |payload|
    modifies buf
    ensures buf[..] == Head(Frame(cmd, sn, payload)) + old(buf[4 + |payload|..])
  {
    ghost var before := buf[..];
    buf[0] := STX;
    buf[1] := |payload| as byte;
    buf[2] := cmd;
    buf[3] := sn;
    ghost var headed := buf[..];
    assert headed[..4] == [STX, |payload| as byte, cmd, sn];
    assert headed[4 + |payload|..] == before[4 + |payload|..];
    CopyIn(buf, 4, payload);
    BodyLaid(headed[..4], cmd, sn, payload, before[4 + |payload|..]);
  }

  lemma BodyLaid(head: seq<byte>, cmd: byte, sn: byte, payload: seq<byte>, rest: seq<byte>)
    requires |payload| <= MAX_PAYLOAD && head == [STX, |payload| as byte, cmd, sn]
    ensures head + payload + rest == Head(Frame(cmd, sn, payload)) + rest
  {
    assert head == [STX, |payload| as byte] + [cmd, sn];
    assert head + payload == [STX, |payload| as byte] + ([cmd, sn] + payload);
  }

  /** What the buffer shows once the body is laid out. */
  lemma HeadShows(w: seq<byte>, f: Frame, rest: seq<byte>)
    requires |f.payload| <= MAX_PAYLOAD && |rest| >= 3 && w == Head(f) + rest
    ensures w[..4 + |f.payload|] == Head(f)
    ensures w[2..4 + |f.payload|] == Body(f)
    ensures w[4 + |f.payload| + 3..] == rest[3..]
  {
    hide Body;
  }

  /** The checksum bytes and ETX. */
  method FillTail(buf: array<byte>, at: nat, crc: bv16)
    requires at + 3 <= buf.Length
    modifies buf
    ensures buf[..] == old(buf[..at]) + [Lo(crc), Hi(crc), ETX] + old(buf[at + 3..])
  {
    hide Lo, Hi;
    buf[at] := Lo(crc);
    buf[at + 1] := Hi(crc);
    buf[at + 2] := ETX;
  }

  lemma SealedFrame(w: seq<byte>, f: Frame, rest: seq<byte>)
    requires |f.payload| <= MAX_PAYLOAD && |rest| >= 3
    requires w == Head(f) + [Lo(Crc(Body(f))), Hi(Crc(Body(f))), ETX] + rest[3..]
    ensures w[..7 + |f.payload|] == Encode(f)
    ensures w[7 + |f.payload|..] == rest[3..]
  {
    hide Crc, Lo, Hi, Body;
    assert w == Encode(f) + rest[3..];
  }

  /** Fills a frame buffer in place; both senders write the same layout. */
  method FillFrame(buf: array<byte>, cmd: byte, sn: byte, payload: seq<byte>)
    requires |payload| <= MAX_PAYLOAD && buf.Length >= 7 + |payload|
    modifies buf
    ensures buf[..7 + |payload|] == Encode(Frame(cmd, sn, payload))
    ensures buf[7 + |payload|..] == old(buf[7 + |payload|..])
  {
    hide Crc, Lo, Hi, Body, Head, Encode;
    var n := |payload|;
    ghost var f := Frame(cmd, sn, payload);
    ghost var rest := buf[4 + n..];
    assert rest[3..] == buf[7 + n..];
    FillBody(buf, cmd, sn, payload);
    ghost var laid := buf[..];
    HeadShows(laid, f, rest);
    assert buf[2..4 + n] == laid[2..4 + n];
    var crc := Compute(buf, 2, 2 + n);
    assert laid == buf[..];
    FillTail(buf, 4 + n, crc);
    SealedFrame(buf[..], f, rest);
  }

  /** The STM32 sender: -1 and nothing written for an over-long payload or a closed port. */
  method StmSendFrame(connected: bool, cmd: byte, sn: byte, payload: seq<byte>) returns (r: int, wire: seq<byte>)
    ensures |payload| > MAX_PAYLOAD || !connected ==> r == -1 && wire == []
    ensures |payload| <= MAX_PAYLOAD && connected ==> r == 0 && wire == Encode(Frame(cmd, sn, payload))
  {
    if |payload| > MAX_PAYLOAD || !connected {
      return -1, [];
    }
    var buf := new byte[MAX_FRAME];
    FillFrame(buf, cmd, sn, payload);
    r, wire := 0, buf[..7 + |payload|];
  }

  // ----- Waiting for the acknowledgement -----

  /** The verdict of the first frame that answers `sn`: whether its result byte says OK. */
  function FirstAck(frames: seq<Frame>, sn: byte): Option<bool> {
    if frames == [] then None
    else if frames[0].cmd == FACE_UNLOCK_ACK && frames[0].sn == sn then Some(SaysOk(frames[0]))
    else FirstAck(frames[1..], sn)
  }

  predicate SaysOk(f: Frame) {
    f.payload != [] && f.payload[0] == RESULT_OK
  }

  lemma {:induction false} FirstAckConcat(p: seq<Frame>, q: seq<Frame>, sn: byte)
    ensures FirstAck(p + q, sn) == if FirstAck(p, sn).Some? then FirstAck(p, sn) else FirstAck(q, sn)
    decreases |p|
  {
    if p == [] {
      assert p + q == q;
    } else {
      assert (p + q)[1..] == p[1..] + q;
      FirstAckConcat(p[1..], q, sn);
    }
  }

  /** A byte and the tick at which the parser looks at it. */
  datatype Stamped = Stamped(b: byte, tick: int)

  /** One round of the polling loop: its own tick, and what the port held. */
  datatype Poll = Poll(now: int, data: seq<Stamped>)

  /** The bytes read before the first round that finds the time used up. */
  function Delivered(polls: seq<Poll>, start: int, timeout: int, period: int): seq<Stamped>
    requires period > 0
  {
    if polls == [] || TicksDiff(polls[0].now, start, period) >= timeout then []
    else polls[0].data + Delivered(polls[1..], start, timeout, period)
  }

  /** All that some rounds read. */
  function AllData(polls: seq<Poll>): seq<Stamped> {
    if polls == [] then [] else polls[0].data + AllData(polls[1..])
  }

  /** By the true times of the rounds, these are the bytes of the rounds before the first that comes
      `timeout` or more after the start. */
  lemma {:induction false} DeliveredInTime(polls: seq<Poll>, times: seq<nat>, t0: nat, phase: nat, timeout: nat,
                                           period: nat, k: nat)
    requires |polls| == |times| && period > 0 && k <= |polls|
    requires forall i | 0 <= i < |polls| ::
      && polls[i].now == K230Tick(times[i], phase, period)
      && t0 <= times[i] && times[i] - t0 < period - period / 2
    requires forall i | 0 <= i < k :: times[i] - t0 < timeout
    requires k < |polls| ==> times[k] - t0 >= timeout
    ensures Delivered(polls, K230Tick(t0, phase, period), timeout, period) == AllData(polls[..k])
    decreases k
  {
    hide TicksDiff, K230Tick;
    if polls != [] {
      TrueGap(t0, times[0], phase, period);
      if k > 0 {
        DeliveredInTime(polls[1..], times[1..], t0, phase, timeout, period, k - 1);
        assert polls[..k][1..] == polls[1..][..k - 1];
      }
    }
  }

  function LastTick(last: int, s: seq<Stamped>): int {
    if s == [] then last else s[|s| - 1].tick
  }

  function Stamp(last: int, s: seq<Stamped>, period: int): (r: seq<Event>)
    requires period > 0
    ensures |r| == |s|
  {
    seq(|s|, i requires 0 <= i < |s| =>
      Event(LateK230(s[i].tick, LastTick(last, s[..i]), period), s[i].b))
  }

  /** The verdict on a delivered byte stream, from the state the parser was in. */
  function Verdict(acc0: seq<byte>, last: int, s: seq<Stamped>, period: int, sn: byte): Option<bool>
    requires period > 0 && Partial(acc0)
  {
    FirstAck(Frames(Run(acc0, Stamp(last, s, period)).log), sn)
  }

  lemma StampConcat(last: int, p: seq<Stamped>, q: seq<Stamped>, period: int)
    requires period > 0
    ensures Stamp(last, p + q, period)
         == Stamp(last, p, period) + Stamp(LastTick(last, p), q, period)
  {
    hide LateK230, LastTick;
    var all, x, y := Stamp(last, p + q, period), Stamp(last, p, period), Stamp(LastTick(last, p), q, period);
    forall i | 0 <= i < |all|
      ensures all[i] == (x + y)[i]
    {
      LastTickConcat(last, p, q, i);
    }
  }

  lemma LastTickConcat(last: int, p: seq<Stamped>, q: seq<Stamped>, i: nat)
    requires i <= |p| + |q|
    ensures i < |p| ==> LastTick(last, (p + q)[..i]) == LastTick(last, p[..i])
    ensures i >= |p| ==> LastTick(last, (p + q)[..i]) == LastTick(LastTick(last, p), q[..i - |p|])
  {
    if i < |p| {
      assert (p + q)[..i] == p[..i];
    } else {
      assert (p + q)[..i] == p + q[..i - |p|];
    }
  }

  /** Once a verdict is reached, later bytes cannot change it. */
  lemma VerdictStable(acc0: seq<byte>, last: int, p: seq<Stamped>, q: seq<Stamped>, period: int, sn: byte)
    requires period > 0 && Partial(acc0)
    requires Verdict(acc0, last, p, period, sn).Some?
    ensures Verdict(acc0, last, p + q, period, sn) == Verdict(acc0, last, p, period, sn)
  {
    hide Run, FirstAck;
    StampConcat(last, p, q, period);
    var x, y := Stamp(last, p, period), Stamp(LastTick(last, p), q, period);
    RunConcat(acc0, x, y);
    var s := Run(acc0, x);
    var t := Run(s.acc, y);
    FramesConcat(s.log, t.log, |x|);
    FirstAckConcat(Frames(s.log), Frames(t.log), sn);
  }

  /** One more byte: the parser state, and the verdict it may bring. */
  lemma VerdictGrows(acc0: seq<byte>, last: int, p: seq<Stamped>, x: Stamped, period: int, sn: byte)
    requires period > 0 && Partial(acc0)
    requires Verdict(acc0, last, p, period, sn) == None
    ensures var acc := Run(acc0, Stamp(last, p, period)).acc;
      var before := LastTick(last, p);
      var (acc', out) := Step(acc, Event(LateK230(x.tick, before, period), x.b));
      && Run(acc0, Stamp(last, p + [x], period)).acc == acc'
      && Verdict(acc0, last, p + [x], period, sn) == FirstAck(match out case Some(f) => [f] case None => [], sn)
  {
    hide Step, FirstAck, LateK230;
    var before := LastTick(last, p);
    var e := Event(LateK230(x.tick, before, period), x.b);
    StampConcat(last, p, [x], period);
    assert Stamp(before, [x], period) == [e];
    var evs := Stamp(last, p, period);
    assert (evs + [e])[..|evs|] == evs;
    var s := Run(acc0, evs);
    var out := Step(s.acc, e).1;
    var added := match out case Some(f) => [f] case None => [];
    assert Frames(Run(acc0, evs + [e]).log) == Frames(s.log) + added;
    FirstAckConcat(Frames(s.log), added, sn);
  }

  class K230Link {
    var sn: byte
    const parser: K230Parser

    ghost predicate Valid()
      reads this, parser, parser.buf
    {
      parser.Valid()
    }

    constructor (period: int, now: int)
      requires period > 0
      ensures Valid() && sn == 0 && parser.Acc() == [] && fresh(parser) && fresh(parser.buf)
      ensures parser.lastByteTick == now && parser.period == period
    {
      sn := 0;
      parser := new K230Parser(period, now);
    }

    /** Sends under the next sequence number, which it returns; an over-long payload is refused
        and consumes none. */
    method SendFrame(cmd: byte, payload: seq<byte>) returns (r: Option<byte>, wire: seq<byte>)
      requires Valid()
      modifies this
      ensures Valid()
      ensures |payload| > MAX_PAYLOAD ==> r == None && wire == [] && sn == old(sn)
      ensures |payload| <= MAX_PAYLOAD ==>
        r == Some(old(sn)) && sn == old(sn) + 1 && wire == Encode(Frame(cmd, old(sn), payload))
    {
      if |payload| > MAX_PAYLOAD {
        return None, [];
      }
      var seqNo := sn;
      sn := sn + 1;
      var buf := new byte[7 + |payload|];
      FillFrame(buf, cmd, seqNo, payload);
      assert buf[..] == buf[..7 + |payload|];
      r, wire := Some(seqNo), buf[..];
    }

    /** User number high byte first, then the confidence, each cut to a byte. */
    method SendFaceUnlockReq(userId: int, confidence: int) returns (r: Option<byte>, wire: seq<byte>)
      requires Valid()
      modifies this
      ensures Valid() && r == Some(old(sn)) && sn == old(sn) + 1
      ensures wire == Encode(UnlockRequest(old(sn), userId, confidence))
    {
      var payload := [((userId / 256) % 256) as byte, (userId % 256) as byte, (confidence % 256) as byte];
      r, wire := SendFrame(FACE_UNLOCK_REQ, payload);
    }

    /** Feeds one read chunk, up to the first matching acknowledgement, whose result it returns. */
    method FeedChunk(expected: byte, data: seq<Stamped>, ghost acc0: seq<byte>, ghost last: int,
                     ghost fed: seq<Stamped>)
      returns (result: Option<byte>)
      requires Valid() && Partial(acc0)
      requires parser.lastByteTick == LastTick(last, fed)
      requires parser.Acc() == Run(acc0, Stamp(last, fed, parser.period)).acc
      requires Verdict(acc0, last, fed, parser.period, expected) == None
      modifies parser, parser.buf
      ensures Valid() && sn == old(sn)
      ensures result.Some? ==> parser.Acc() == []
      ensures match result
              case Some(b) => Verdict(acc0, last, fed + data, parser.period, expected) == Some(b == RESULT_OK)
              case None =>
                && Verdict(acc0, last, fed + data, parser.period, expected) == None
                && parser.lastByteTick == LastTick(last, fed + data)
                && parser.Acc() == Run(acc0, Stamp(last, fed + data, parser.period)).acc
    {
      hide Step, Run, FirstAck, LateK230, Verdict, Stamp;
      result := None;
      assert fed + data[..0] == fed;
      for j := 0 to |data|
        invariant parser.Valid()
        invariant parser.lastByteTick == LastTick(last, fed + data[..j])
        invariant parser.Acc() == Run(acc0, Stamp(last, fed + data[..j], parser.period)).acc
        invariant Verdict(acc0, last, fed + data[..j], parser.period, expected) == None
      {
        ghost var p := fed + data[..j];
        VerdictGrows(acc0, last, p, data[j], parser.period, expected);
        assert p + [data[j]] == fed + data[..j + 1];
        var frame := parser.Feed(data[j].b, data[j].tick);
        OneFrame(frame, expected);
        if frame.Some? && frame.value.cmd == FACE_UNLOCK_ACK && frame.value.sn == expected {
          VerdictStable(acc0, last, p + [data[j]], data[j + 1..], parser.period, expected);
          assert p + [data[j]] + data[j + 1..] == fed + data;
          var code := if frame.value.payload != [] then frame.value.payload[0] else RESULT_ERROR;
          assert SaysOk(frame.value) == (code == RESULT_OK);
          return Some(code);
        }
      }
      assert fed + data[..|data|] == fed + data;
    }

    /** Feeds every byte that arrives in time to the parser and answers with the verdict of the
        first matching acknowledgement, or False when the time is used up; either way it leaves
        the parser idle. */
    method WaitAck(expected: byte, start: int, timeout: int, polls: seq<Poll>) returns (ok: bool)
      requires Valid()
      modifies parser, parser.buf
      ensures Valid() && sn == old(sn)
      ensures var v := Verdict(old(parser.Acc()), old(parser.lastByteTick),
                               Delivered(polls, start, timeout, parser.period), parser.period, expected);
        ok == (v == Some(true))
      ensures parser.Acc() == []
    {
      hide Run, Verdict, Stamp, Delivered;
      ghost var acc0, last := parser.Acc(), parser.lastByteTick;
      ghost var all := Delivered(polls, start, timeout, parser.period);
      ghost var fed: seq<Stamped> := [];
      NothingYet(acc0, last, parser.period, expected);
      var i := 0;
      while i < |polls| && TicksDiff(polls[i].now, start, parser.period) < timeout
        invariant 0 <= i <= |polls| && parser.Valid()
        invariant all == fed + Delivered(polls[i..], start, timeout, parser.period)
        invariant parser.lastByteTick == LastTick(last, fed)
        invariant parser.Acc() == Run(acc0, Stamp(last, fed, parser.period)).acc
        invariant Verdict(acc0, last, fed, parser.period, expected) == None
      {
        var data := polls[i].data;
        ghost var rest := Delivered(polls[i + 1..], start, timeout, parser.period);
        DeliveredNext(polls, i, start, timeout, parser.period, fed);
        var result := FeedChunk(expected, data, acc0, last, fed);
        fed := fed + data;
        if result.Some? {
          VerdictStable(acc0, last, fed, rest, parser.period, expected);
          return result.value == RESULT_OK;
        }
        i := i + 1;
      }
      DeliveredAll(polls, i, start, timeout, parser.period, fed);
      parser.Reset();
      ok := false;
    }
  }

  lemma DeliveredNext(polls: seq<Poll>, i: nat, start: int, timeout: int, period: int, fed: seq<Stamped>)
    requires period > 0 && i < |polls| && TicksDiff(polls[i].now, start, period) < timeout
    ensures fed + Delivered(polls[i..], start, timeout, period)
      == (fed + polls[i].data) + Delivered(polls[i + 1..], start, timeout, period)
  {
    assert polls[i..][1..] == polls[i + 1..];
  }

  lemma DeliveredAll(polls: seq<Poll>, i: nat, start: int, timeout: int, period: int, fed: seq<Stamped>)
    requires period > 0 && i <= |polls|
    requires i < |polls| ==> TicksDiff(polls[i].now, start, period) >= timeout
    ensures fed + Delivered(polls[i..], start, timeout, period) == fed
  {
  }

  lemma NothingYet(acc0: seq<byte>, last: int, period: int, sn: byte)
    requires period > 0 && Partial(acc0)
    ensures Run(acc0, Stamp(last, [], period)) == RunState(acc0, [])
    ensures Verdict(acc0, last, [], period, sn) == None
  {
    assert Stamp(last, [], period) == [];
  }

  lemma OneFrame(out: Option<Frame>, sn: byte)
    ensures FirstAck(match out case Some(f) => [f] case None => [], sn) ==
      if out.Some? && out.value.cmd == FACE_UNLOCK_ACK && out.value.sn == sn then Some(SaysOk(out.value)) else None
  {
  }

  function UnlockRequest(sn: byte, userId: int, confidence: int): Frame {
    Frame(FACE_UNLOCK_REQ, sn,
          [ByteOf(userId / 256), ByteOf(userId), ByteOf(confidence)])
  }

  // ----- The exchange over a lossy FIFO line -----

  /** A frame under way, with the number of the send it belongs to. */
  datatype Tagged = Tagged(id: nat, frame: Frame)

  /** Sends so far, frames under way in each direction, and the requests whose OPEN event the
      STM32 has posted. */
  datatype Link = Link(sent: nat, toStm: seq<Tagged>, toK230: seq<Tagged>, posted: set<nat>)

  const INITIAL := Link(0, [], [], {})

  /** What the STM32 answers to an unlock request; `accepted` is the outcome of posting OPEN. */
  function UnlockReply(f: Frame, accepted: bool): Frame {
    Frame(FACE_UNLOCK_ACK, f.sn,
          [if |f.payload| < 3 then RESULT_ERROR else if accepted then RESULT_OK else RESULT_BUSY])
  }

  predicate PostsOpen(f: Frame, accepted: bool) {
    f.cmd == FACE_UNLOCK_REQ && |f.payload| >= 3 && accepted
  }

  /** When the answer arrives, the request it answers is granted exactly when the OPEN event was
      posted for it: OK on the wire and the post go together. */
  lemma OkMeansPosted(f: Frame, accepted: bool, evs: seq<Event>)
    requires f.cmd == FACE_UNLOCK_REQ
    requires Wire(evs) == Encode(UnlockReply(f, accepted)) && Prompt(evs)
    ensures FirstAck(Frames(Run([], evs).log), f.sn) == Some(PostsOpen(f, accepted))
  {
    hide Run, Encode;
    var reply := UnlockReply(f, accepted);
    RoundTrip(reply, evs);
    OneFrame(Some(reply), f.sn);
    assert Frames([Emission(0, |evs|, reply)]) == [reply];
  }

  /** The unlock branch of the STM32 command dispatch; `eventReady` says that the door event
      object exists, so that posting to it succeeds, and `connected` that the port is open. */
  method DispatchUnlock(f: Frame, eventReady: bool, connected: bool) returns (posted: bool, wire: seq<byte>)
    requires f.cmd == FACE_UNLOCK_REQ
    ensures posted == PostsOpen(f, eventReady)
    ensures wire == if connected then Encode(UnlockReply(f, eventReady)) else []
  {
    var r;
    posted := false;
    if |f.payload| < 3 {
      r, wire := StmSendFrame(connected, FACE_UNLOCK_ACK, f.sn, [RESULT_ERROR]);
      return;
    }
    posted := eventReady;
    if posted {
      r, wire := StmSendFrame(connected, FACE_UNLOCK_ACK, f.sn, [RESULT_OK]);
    } else {
      r, wire := StmSendFrame(connected, FACE_UNLOCK_ACK, f.sn, [RESULT_BUSY]);
    }
  }

  predicate IsDoorCode(b: byte) {
    b == 0 || b == 1 || b == 2 || b == 3 || b == 0xFF
  }

  /** What the STM32 answers to each command; `door` is the code of the door state, and `uptime` the
      four bytes of the seconds it has been up. */
  function Reply(f: Frame, accepted: bool, door: byte, uptime: seq<byte>): Option<Frame> {
    if f.cmd == FACE_UNLOCK_REQ then Some(UnlockReply(f, accepted))
    else if f.cmd == DOOR_CTRL then
      Some(Frame(DOOR_CTRL, f.sn, [if f.payload == [] then RESULT_ERROR else RESULT_OK]))
    else if f.cmd == DOOR_STATUS_REQ then Some(Frame(DOOR_STATUS_ACK, f.sn, [door]))
    else if f.cmd == HEARTBEAT_REQ then Some(Frame(HEARTBEAT_ACK, f.sn, uptime))
    else None
  }

  /** The answering branches of the command dispatch; what the door and the LED are told besides is
      not shown here. */
  method Dispatch(f: Frame, eventReady: bool, connected: bool, door: byte, seconds: nat)
    returns (posted: bool, wire: seq<byte>)
    requires IsDoorCode(door)
    ensures posted == PostsOpen(f, eventReady)
    ensures wire == match Reply(f, eventReady, door, UptimeBytes(seconds))
                    case Some(reply) => if connected then Encode(reply) else []
                    case None => []
  {
    hide Encode, UptimeBytes;
    var r;
    posted, wire := false, [];
    if f.cmd == FACE_UNLOCK_REQ {
      posted, wire := DispatchUnlock(f, eventReady, connected);
    } else if f.cmd == DOOR_CTRL {
      if |f.payload| < 1 {
        r, wire := StmSendFrame(connected, DOOR_CTRL, f.sn, [RESULT_ERROR]);
        return;
      }
      r, wire := StmSendFrame(connected, DOOR_CTRL, f.sn, [RESULT_OK]);
    } else if f.cmd == DOOR_STATUS_REQ {
      r, wire := StmSendFrame(connected, DOOR_STATUS_ACK, f.sn, [door]);
    } else if f.cmd == HEARTBEAT_REQ {
      r, wire := StmSendFrame(connected, HEARTBEAT_ACK, f.sn, UptimeBytes(seconds));
    }
  }

  /** The low 32 bits of a number, highest byte first. */
  function UptimeBytes(seconds: nat): (r: seq<byte>)
    ensures |r| == 4
  {
    [ByteOf(seconds / 16777216), ByteOf(seconds / 65536), ByteOf(seconds / 256), ByteOf(seconds)]
  }

  function ByteOf(n: int): byte {
    (n % 256) as byte
  }

  lemma ByteOfBack(n: int)
    ensures ByteOf(n) as nat == n % 256
  {
    SmallByte(n % 256);
  }

  // ----- What the other side reads -----

  /** An unlock request that arrives is read as the command, the number, the user and the
      confidence it was sent with, cut to 16 and 8 bits. */
  lemma RequestReads(sn: byte, userId: int, confidence: int, evs: seq<Event>) returns (f: Frame)
    requires Wire(evs) == Encode(UnlockRequest(sn, userId, confidence)) && Prompt(evs)
    ensures Frames(Run([], evs).log) == [f] && f.cmd == 0x01 && f.sn == sn && |f.payload| == 3
    ensures f.payload[0] as nat * 256 + f.payload[1] as nat == userId % 65536
    ensures f.payload[2] as nat == confidence % 256
  {
    hide Run, Encode, ByteOf;
    f := UnlockRequest(sn, userId, confidence);
    RoundTrip(f, evs);
    assert Frames([Emission(0, |evs|, f)]) == [f];
    ByteOfBack(userId / 256);
    ByteOfBack(userId);
    ByteOfBack(confidence);
    TwoBytes(userId);
  }

  lemma TwoBytes(n: int)
    ensures n / 256 % 256 * 256 + n % 256 == n % 65536
  {
    var q, r := n / 256, n % 256;
    assert n == q * 256 + r && q == q / 256 * 256 + q % 256;
    Divided(65536, n, q / 256, q % 256 * 256 + r);
  }

  /** The bytes of a request, for user 1 with confidence 90. */
  lemma RequestBytes()
    ensures Encode(UnlockRequest(0, 1, 90)) == [0xAA, 0x03, 0x01, 0x00, 0x00, 0x01, 0x5A, 0x98, 0x6B, 0x55]
  {
    RequestChecksum();
    RequestChecksumParts();
    hide Crc, Lo, Hi, ByteOf;
    SmallByteOf();
    assert Body(UnlockRequest(0, 1, 90)) == [0x01, 0x00, 0x00, 0x01, 0x5A];
  }

  lemma SmallByteOf()
    ensures ByteOf(0) == 0 && ByteOf(1) == 1 && ByteOf(90) == 0x5A && 1 / 256 == 0
  {
  }

  lemma RequestChecksumParts()
    ensures Lo(0x6B98) == 0x98 && Hi(0x6B98) == 0x6B
  {
    hide Lo, Hi;
    ReceivedIs(0x98, 0x6B, 0x6B98);
    assert Received(0x98, 0x6B) == 0x6B98;
  }

  /** What each answer says when it arrives: whose it is, and in its first byte 0 for a request that
      was posted, 1 for one too short, 2 for one the door did not take. */
  lemma UnlockAnswerReads(f: Frame, accepted: bool, evs: seq<Event>) returns (r: Frame)
    requires Wire(evs) == Encode(UnlockReply(f, accepted)) && Prompt(evs)
    ensures Frames(Run([], evs).log) == [r] && r.cmd == 0x02 && r.sn == f.sn && |r.payload| == 1
    ensures r.payload[0] == 0x01 <==> |f.payload| < 3
    ensures r.payload[0] == 0x00 <==> |f.payload| >= 3 && accepted
    ensures r.payload[0] == 0x02 <==> |f.payload| >= 3 && !accepted
  {
    hide Run, Encode;
    r := UnlockReply(f, accepted);
    RoundTrip(r, evs);
    assert Frames([Emission(0, |evs|, r)]) == [r];
  }

  /** Which commands are answered, and how: a door command with 0, or 1 if it names no action; a
      status request with the code of the state; a heartbeat with the seconds, highest byte first. */
  lemma AnswersRead(f: Frame, accepted: bool, door: byte, seconds: nat)
    ensures var r := Reply(f, accepted, door, UptimeBytes(seconds));
      && (r.Some? <==> f.cmd == 0x01 || f.cmd == 0x03 || f.cmd == 0x04 || f.cmd == 0x06)
      && (r.Some? ==> r.value.sn == f.sn)
      && (f.cmd == 0x01 ==> r == Some(UnlockReply(f, accepted)))
      && (f.cmd == 0x03 ==> r.value.cmd == 0x03 && r.value.payload == [if |f.payload| < 1 then 0x01 else 0x00])
      && (f.cmd == 0x04 ==> r.value.cmd == 0x05 && r.value.payload == [door])
      && (f.cmd == 0x06 ==>
            r.value.cmd == 0x07 && |r.value.payload| == 4 && BigEndian(r.value.payload) == seconds % WORD)
  {
    hide UptimeBytes, BigEndian;
    UptimeReads(seconds);
  }

  function BigEndian(b: seq<byte>): nat
    requires |b| == 4
  {
    16777216 * (b[0] as nat) + 65536 * (b[1] as nat) + 256 * (b[2] as nat) + b[3] as nat
  }

  lemma UptimeReads(seconds: nat)
    ensures BigEndian(UptimeBytes(seconds)) == seconds % WORD
  {
    hide ByteOf;
    ByteOfBack(seconds / 16777216);
    ByteOfBack(seconds / 65536);
    ByteOfBack(seconds / 256);
    ByteOfBack(seconds);
    ByBytes(seconds);
    Divided(WORD, seconds, seconds / WORD, BigEndian(UptimeBytes(seconds)));
  }

  datatype Move =
    | Send(cmd: byte, payload: seq<byte>)
    | Lose(toStm: bool, at: nat)
    | Handle(accepted: bool, door: byte, uptime: seq<byte>)
    | Read

  predicate Enabled(l: Link, m: Move) {
    match m
    case Send(_, payload) => |payload| <= MAX_PAYLOAD
    case Lose(up, at) => at < if up then |l.toStm| else |l.toK230|
    case Handle(_, door, uptime) => l.toStm != [] && IsDoorCode(door) && |uptime| == 4
    case Read => l.toK230 != []
  }

  function Without(s: seq<Tagged>, at: nat): seq<Tagged>
    requires at < |s|
  {
    s[..at] + s[at + 1..]
  }

  /** The sequence number of a send: the 8-bit counter starts at 0 and wraps. */
  function SeqNo(id: nat): byte {
    if id == 0 then 0 else SeqNo(id - 1) + 1
  }

  /** One step of the exchange. */
  function Next(l: Link, m: Move): Link
    requires Enabled(l, m)
  {
    match m
    case Send(cmd, payload) =>
      l.(sent := l.sent + 1, toStm := l.toStm + [Tagged(l.sent, Frame(cmd, SeqNo(l.sent), payload))])
    case Lose(up, at) =>
      if up then l.(toStm := Without(l.toStm, at)) else l.(toK230 := Without(l.toK230, at))
    case Handle(accepted, door, uptime) =>
      var r := l.toStm[0];
      var reply := Reply(r.frame, accepted, door, uptime);
      var answer := if reply.Some? then [Tagged(r.id, reply.value)] else [];
      l.(toStm := l.toStm[1..], toK230 := l.toK230 + answer,
         posted := l.posted + if PostsOpen(r.frame, accepted) then {r.id} else {})
    case Read =>
      l.(toK230 := l.toK230[1..])
  }

  /** The state after a sequence of moves from the start, if each was possible. */
  function Play(moves: seq<Move>): Option<Link> {
    if moves == [] then Some(INITIAL)
    else
      var before := Play(moves[..|moves| - 1]);
      var m := moves[|moves| - 1];
      if before.Some? && Enabled(before.value, m) then Some(Next(before.value, m)) else None
  }

  predicate Reachable(l: Link, moves: seq<Move>) {
    Play(moves) == Some(l)
  }

  predicate RequestOk(l: Link, r: Tagged) {
    r.id < l.sent && r.frame.sn == SeqNo(r.id)
  }

  /** One byte that is not STX, or the four of a heartbeat. */
  predicate IsAnswer(f: Frame) {
    && f.cmd != STX
    && ((|f.payload| == 1 && f.payload[0] != STX) || (f.cmd == HEARTBEAT_ACK && |f.payload| == 4))
  }

  predicate AnswerOk(l: Link, a: Tagged) {
    && a.id < l.sent
    && IsAnswer(a.frame)
    && (a.frame.cmd == FACE_UNLOCK_ACK ==> a.frame.sn == SeqNo(a.id))
    && (a.frame.cmd == FACE_UNLOCK_ACK && SaysOk(a.frame) ==> a.id in l.posted)
  }

  predicate Inv(l: Link) {
    && (forall i | 0 <= i < |l.toStm| :: RequestOk(l, l.toStm[i]))
    && (forall i | 0 <= i < |l.toK230| :: AnswerOk(l, l.toK230[i]))
    && (forall id <- l.posted :: id < l.sent)
  }

  lemma StepKeepsInv(l: Link, m: Move)
    requires Inv(l) && Enabled(l, m)
    ensures Inv(Next(l, m))
  {
    var l' := Next(l, m);
    forall i | 0 <= i < |l'.toStm|
      ensures RequestOk(l', l'.toStm[i])
    {
      assert l'.toStm[i] in l.toStm || i == |l.toStm|;
    }
    if m.Handle? {
      assert RequestOk(l, l.toStm[0]);
    }
    forall i | 0 <= i < |l'.toK230|
      ensures AnswerOk(l', l'.toK230[i])
    {
      assert l'.toK230[i] in l.toK230 || (m.Handle? && i == |l.toK230|);
    }
  }

  lemma {:induction false} ReachableInv(l: Link, moves: seq<Move>)
    requires Reachable(l, moves)
    ensures Inv(l)
    decreases |moves|
  {
    hide Next, Enabled;
    if moves != [] {
      var n := |moves| - 1;
      var before := Play(moves[..n]).value;
      ReachableInv(before, moves[..n]);
      StepKeepsInv(before, moves[n]);
    }
  }

  lemma {:induction false} AckFound(frames: seq<Frame>, sn: byte) returns (k: nat)
    requires FirstAck(frames, sn) == Some(true)
    ensures k < |frames| && frames[k].cmd == FACE_UNLOCK_ACK && frames[k].sn == sn && SaysOk(frames[k])
    decreases |frames|
  {
    if frames[0].cmd == FACE_UNLOCK_ACK && frames[0].sn == sn {
      k := 0;
    } else {
      k := AckFound(frames[1..], sn);
      k := k + 1;
    }
  }

  lemma {:induction false} SeqNoAdds(a: nat, k: nat)
    ensures SeqNo(a + k) == SeqNo(a) + SeqNo(k)
  {
    if k > 0 {
      SeqNoAdds(a, k - 1);
    }
  }

  lemma Increment(b: byte)
    requires b != 0xFF
    ensures (b + 1) as nat == b as nat + 1
  {
  }

  lemma {:induction false} SeqNoCounts(k: nat)
    requires k < 256
    ensures SeqNo(k) as nat == k
  {
    if k > 0 {
      SeqNoCounts(k - 1);
      Increment(SeqNo(k - 1));
    }
  }

  lemma AddsNothing(x: byte, y: byte)
    requires x == x + y
    ensures y == 0
  {
  }

  /** Two sends up to 255 apart have different sequence numbers; 256 apart, the same. */
  lemma SameSeqNo(a: nat, b: nat)
    requires a <= b && SeqNo(a) == SeqNo(b)
    ensures a == b <==> b - a <= 255
  {
    SeqNoAdds(a, b - a);
    AddsNothing(SeqNo(a), SeqNo(b - a));
    if b - a <= 255 {
      SeqNoCounts(b - a);
    }
  }

  lemma SeqNoWraps()
    ensures SeqNo(256) == 0
  {
    SeqNoCounts(255);
    assert SeqNo(255) as nat == (255 as byte) as nat;
    assert SeqNo(255) == 255;
    assert SeqNo(256) == SeqNo(255) + 1;
  }

  predicate Underway(l: Link, f: Frame) {
    exists k :: 0 <= k < |l.toK230| && l.toK230[k].frame == f
  }

  /** The acknowledgement `k` under way grants the number. */
  predicate Grants(l: Link, k: nat, expected: byte) {
    && k < |l.toK230|
    && l.toK230[k].frame.cmd == FACE_UNLOCK_ACK && l.toK230[k].frame.sn == expected
    && SaysOk(l.toK230[k].frame)
  }

  /** The line carries frames under way, intact or detectably damaged, with STX-free noise between. */
  ghost predicate OnLine(l: Link, items: seq<Item>) {
    forall i | 0 <= i < |items| :: Shaped(items[i]) && (items[i].Sent? ==> Underway(l, items[i].frame))
  }

  /** Noise and intact frames with one payload byte, as all answers to the requests of this
      controller are. */
  predicate OneByte(item: Item) {
    item.Gap? || (item.Sent? && |item.frame.payload| == 1)
  }

  /** What the parser is fed is a piece of the line.  It was last idle, by a reset or because bytes
      were thrown away, at byte `cut`; the bytes up to `n` were fed before and left it with `acc0`
      collected; the line may go on after the piece.  A line with one-byte answers may be cut
      anywhere, also inside a frame, and its frames may come with pauses; otherwise the parser has
      seen all of it, without pauses in frames. */
  ghost predicate Arrives(l: Link, items: seq<Item>, cut: nat, n: nat, acc0: seq<byte>, read: seq<Event>) {
    && OnLine(l, items)
    && ((cut == 0 && forall i | 0 <= i < |items| :: WellSent(items[i]))
        || forall i | 0 <= i < |items| :: OneByte(items[i]))
    && cut <= n && n + |read| <= |Stream(items)|
    && acc0 == Run([], Stream(items)[cut..n]).acc
    && read == Stream(items)[n..n + |read|]
  }

  /** Nothing but unlock requests is sent, as this controller does. */
  predicate OnlyRequests(moves: seq<Move>) {
    forall i | 0 <= i < |moves| && moves[i].Send? :: moves[i].cmd == FACE_UNLOCK_REQ
  }

  /** Then all answers are one-byte acknowledgements, and a line with intact frames may be cut
      anywhere. */
  lemma RequestsGetOneByte(l: Link, moves: seq<Move>, items: seq<Item>)
    requires Reachable(l, moves) && OnlyRequests(moves) && OnLine(l, items)
    requires forall i | 0 <= i < |items| :: !items[i].Spoilt?
    ensures forall i | 0 <= i < |items| :: OneByte(items[i])
  {
    hide Reachable, Shaped;
    AnswersToRequests(l, moves);
    forall i | 0 <= i < |items|
      ensures OneByte(items[i])
    {
      if items[i].Sent? {
        var k :| 0 <= k < |l.toK230| && l.toK230[k].frame == items[i].frame;
      }
    }
  }

  lemma {:induction false} AnswersToRequests(l: Link, moves: seq<Move>)
    requires Reachable(l, moves) && OnlyRequests(moves)
    ensures forall k | 0 <= k < |l.toStm| :: l.toStm[k].frame.cmd == FACE_UNLOCK_REQ
    ensures forall k | 0 <= k < |l.toK230| ::
      l.toK230[k].frame.cmd == FACE_UNLOCK_ACK && |l.toK230[k].frame.payload| == 1
    decreases |moves|
  {
    hide Next, Enabled;
    if moves != [] {
      var n := |moves| - 1;
      var before := Play(moves[..n]).value;
      AnswersToRequests(before, moves[..n]);
      StepOnlyRequests(before, moves[n]);
    }
  }

  lemma StepOnlyRequests(l: Link, m: Move)
    requires Enabled(l, m) && (m.Send? ==> m.cmd == FACE_UNLOCK_REQ)
    requires forall k | 0 <= k < |l.toStm| :: l.toStm[k].frame.cmd == FACE_UNLOCK_REQ
    requires forall k | 0 <= k < |l.toK230| ::
      l.toK230[k].frame.cmd == FACE_UNLOCK_ACK && |l.toK230[k].frame.payload| == 1
    ensures forall k | 0 <= k < |Next(l, m).toStm| :: Next(l, m).toStm[k].frame.cmd == FACE_UNLOCK_REQ
    ensures forall k | 0 <= k < |Next(l, m).toK230| ::
      Next(l, m).toK230[k].frame.cmd == FACE_UNLOCK_ACK && |Next(l, m).toK230[k].frame.payload| == 1
  {
  }

  lemma {:induction false} WantedUnderway(l: Link, items: seq<Item>, f: Frame)
    requires forall i | 0 <= i < |items| :: items[i].Sent? ==> Underway(l, items[i].frame)
    requires f in Wanted(items)
    ensures Underway(l, f)
  {
    if f in Wanted(items[..|items| - 1]) {
      WantedUnderway(l, items[..|items| - 1], f);
    }
  }

  /** The frames parsed from a stream are those of its two pieces. */
  lemma FramesOfPieces(acc0: seq<byte>, x: seq<Event>, y: seq<Event>)
    requires Partial(acc0)
    ensures Frames(Run(acc0, x + y).log) == Frames(Run(acc0, x).log) + Frames(Run(Run(acc0, x).acc, y).log)
  {
    hide Run, Frames, Partial;
    RunConcat(acc0, x, y);
    FramesConcat(Run(acc0, x).log, Run(Run(acc0, x).acc, y).log, |x|);
  }

  /** The frames parsed from a middle piece of a stream are among those of the whole. */
  lemma MiddleOfStream(x: seq<Event>, y: seq<Event>, z: seq<Event>, f: Frame)
    requires f in Frames(Run(Run([], x).acc, y).log)
    ensures f in Frames(Run([], x + y + z).log)
  {
    hide Run, Frames;
    FramesOfPieces([], x, y);
    FramesOfPieces([], x + y, z);
  }

  lemma PieceOfStream(evs: seq<Event>, n: nat, m: nat, f: Frame)
    requires n <= m <= |evs|
    requires f in Frames(Run(Run([], evs[..n]).acc, evs[n..m]).log)
    ensures f in Frames(Run([], evs).log)
  {
    hide Run, Frames;
    MiddleOfStream(evs[..n], evs[n..m], evs[m..], f);
    assert evs[..n] + evs[n..m] + evs[m..] == evs;
  }

  // ----- A cut line -----

  /** On a line with one-byte answers a stretch of bytes that encodes an OK acknowledgement is one of
      the frames, wherever the parser starts: an STX inside a frame can only be its SEQ or one of
      its checksum bytes, and what follows those up to ETX is no OK acknowledgement. */
  lemma OwnFrame(l: Link, items: seq<Item>, from: nat, to: nat, f: Frame)
    requires OnLine(l, items) && Inv(l) && (forall i | 0 <= i < |items| :: OneByte(items[i]))
    requires from <= to <= |Stream(items)| && |f.payload| <= MAX_PAYLOAD
    requires f.cmd == FACE_UNLOCK_ACK && SaysOk(f) && Wire(Stream(items)[from..to]) == Encode(f)
    ensures Underway(l, f)
  {
    hide Encode, Stream, SaysOk, AnswerOk, Noise;
    var evs := Stream(items);
    var block := Encode(f);
    assert to == from + |block|;
    var i, start := Locate(items, from);
    assert OneByte(items[i]);
    EncodedParts(f);
    BlockBytes(evs, from, to, block);
    assert evs[from] == evs[start..start + |items[i].evs|][from - start];
    if items[i].Gap? {
      NoStx(items[i].evs, from - start);
      assert false;
    }
    var g := items[i].frame;
    UnderwayAnswer(l, g);
    ItemBytes(evs, start, items[i]);
    StrayStx(g, f, from - start, evs, start);
  }

  lemma BlockBytes(evs: seq<Event>, from: nat, to: nat, block: seq<byte>)
    requires from <= to <= |evs| && Wire(evs[from..to]) == block
    ensures forall k | 0 <= k < |block| :: evs[from + k].b == block[k]
  {
    forall k | 0 <= k < |block|
      ensures evs[from + k].b == block[k]
    {
      assert Wire(evs[from..to])[k] == evs[from..to][k].b;
    }
  }

  lemma NoStx(evs: seq<Event>, k: nat)
    requires Noise(evs) && k < |evs|
    ensures evs[k].b != STX
  {
  }

  lemma UnderwayAnswer(l: Link, f: Frame)
    requires Inv(l) && Underway(l, f)
    ensures IsAnswer(f)
  {
    var k :| 0 <= k < |l.toK230| && l.toK230[k].frame == f;
    assert AnswerOk(l, l.toK230[k]);
  }

  lemma ItemBytes(evs: seq<Event>, start: nat, item: Item)
    requires item.Sent? && Shaped(item) && |item.frame.payload| == 1
    requires start + |item.evs| <= |evs| && evs[start..start + |item.evs|] == item.evs
    ensures |item.evs| == 8
    ensures forall k | 0 <= k < 8 :: evs[start + k].b == Encode(item.frame)[k]
  {
    hide Encode;
    assert |item.evs| == |Wire(item.evs)|;
    forall k | 0 <= k < 8
      ensures evs[start + k].b == Encode(item.frame)[k]
    {
      assert Wire(item.evs)[k] == item.evs[k].b == evs[start..start + 8][k].b;
    }
  }

  /** The bytes of an acknowledgement. */
  lemma AckBytes(f: Frame)
    requires 1 <= |f.payload| <= MAX_PAYLOAD
    ensures var w := Encode(f);
      && w[0] == STX && w[1] as nat == |f.payload| && w[2] == f.cmd && w[3] == f.sn && w[4] == f.payload[0]
      && (|f.payload| == 1 ==> w[7] == ETX)
  {
    hide Crc, Lo, Hi;
    SmallByte(|f.payload|);
  }

  /** Two frames of one payload byte with the same first bytes are the same. */
  lemma SameFrame(f: Frame, g: Frame)
    requires |f.payload| == |g.payload| == 1 && f.cmd == g.cmd && f.sn == g.sn && f.payload[0] == g.payload[0]
    ensures f == g
  {
  }

  lemma StrayStx(g: Frame, f: Frame, o: nat, evs: seq<Event>, start: nat)
    requires IsAnswer(g) && |g.payload| == 1 && o < 8
    requires f.cmd == FACE_UNLOCK_ACK && SaysOk(f) && |f.payload| <= MAX_PAYLOAD
    requires start + 8 <= |evs| && start + o + |Encode(f)| <= |evs|
    requires forall k | 0 <= k < 8 :: evs[start + k].b == Encode(g)[k]
    requires forall k | 0 <= k < |Encode(f)| :: evs[start + o + k].b == Encode(f)[k]
    ensures f == g
  {
    hide Encode;
    AckBytes(f);
    AckBytes(g);
    OneIsNotStx();
    assert evs[start + o].b == Encode(f)[0] == Encode(g)[o];
    assert evs[start + o + 1].b == Encode(f)[1];
    assert evs[start + o + 2].b == Encode(f)[2];
    assert evs[start + o + 4].b == Encode(f)[4];
    assert evs[start + 1].b == Encode(g)[1] && evs[start + 2].b == Encode(g)[2];
    assert evs[start + 3].b == Encode(g)[3] && evs[start + 4].b == Encode(g)[4];
    assert evs[start + 7].b == Encode(g)[7] == ETX;
    assert o == 0 || o == 3 || o == 5 || o == 6;
    if o == 0 {
      assert evs[start + 3].b == Encode(f)[3];
      SameFrame(f, g);
    } else {
      assert false;
    }
  }

  lemma OneIsNotStx()
    ensures STX as nat == 170 && ETX as nat == 85 && (1 as byte) as nat == 1
  {
  }

  /** The frames reported from a piece are reported from all that was fed since the parser was idle. */
  lemma FedSinceCut(evs: seq<Event>, cut: nat, n: nat, m: nat, f: Frame)
    requires cut <= n <= m <= |evs|
    requires f in Frames(Run(Run([], evs[cut..n]).acc, evs[n..m]).log)
    ensures f in Frames(Run([], evs[cut..m]).log)
  {
    hide Run, Frames;
    assert evs[cut..m] == evs[cut..n] + evs[n..m];
    FramesOfPieces([], evs[cut..n], evs[n..m]);
  }

  lemma GrantOnCutLine(l: Link, items: seq<Item>, cut: nat, m: nat, f: Frame)
    requires Inv(l) && OnLine(l, items) && (forall i | 0 <= i < |items| :: OneByte(items[i]))
    requires cut <= m <= |Stream(items)|
    requires f in Frames(Run([], Stream(items)[cut..m]).log) && f.cmd == FACE_UNLOCK_ACK && SaysOk(f)
    ensures Underway(l, f)
  {
    hide Run, Stream, Frames, Inv, OnLine, OneByte, SaysOk, Encode;
    var evs := Stream(items);
    var e := BlockOfFrame(evs[cut..m], f);
    SliceOfSlice(evs, cut, m, e.start, e.end);
    OwnFrame(l, items, cut + e.start, cut + e.end, f);
  }

  lemma GrantOnWholeLine(l: Link, items: seq<Item>, m: nat, f: Frame)
    requires OnLine(l, items) && (forall i | 0 <= i < |items| :: WellSent(items[i]))
    requires m <= |Stream(items)| && f in Frames(Run([], Stream(items)[..m]).log)
    ensures Underway(l, f)
  {
    hide Run, Stream, Frames, WellSent, Shaped, Wanted;
    var evs := Stream(items);
    FramesOfPieces([], evs[..m], evs[m..]);
    assert evs[..m] + evs[m..] == evs;
    ParserComplete(items);
    WantedUnderway(l, items, f);
  }

  /** The frame the parser reports from a piece of the line is one of the frames under way. */
  lemma GrantUnderway(l: Link, items: seq<Item>, cut: nat, n: nat, acc0: seq<byte>, piece: seq<Event>, f: Frame)
    requires Inv(l) && Partial(acc0) && Arrives(l, items, cut, n, acc0, piece)
    requires f in Frames(Run(acc0, piece).log) && f.cmd == FACE_UNLOCK_ACK && SaysOk(f)
    ensures Underway(l, f)
  {
    hide Run, Stream, Frames, Inv, OnLine, WellSent, OneByte, SaysOk;
    var evs, m := Stream(items), n + |piece|;
    FedSinceCut(evs, cut, n, m, f);
    if forall i | 0 <= i < |items| :: OneByte(items[i]) {
      GrantOnCutLine(l, items, cut, m, f);
    } else {
      assert evs[0..m] == evs[..m];
      GrantOnWholeLine(l, items, m, f);
    }
  }

  /** If the bytes read make `WaitAck` answer True, wherever the parser was when the wait began, then
      an OK acknowledgement with that number is under way and the STM32 posted OPEN for its request;
      and that is the latest request exactly when the acknowledgement is at most 255 sends old. */
  lemma AckMeansPosted(l: Link, moves: seq<Move>, items: seq<Item>, cut: nat, n: nat, acc0: seq<byte>, last: int,
                       read: seq<Stamped>, period: int, expected: byte)
    returns (k: nat)
    requires Reachable(l, moves) && period > 0 && Partial(acc0)
    requires Arrives(l, items, cut, n, acc0, Stamp(last, read, period))
    requires Verdict(acc0, last, read, period, expected) == Some(true)
    ensures Grants(l, k, expected) && l.toK230[k].id in l.posted && SeqNo(l.toK230[k].id) == expected
    ensures l.sent > 0 && expected == SeqNo(l.sent - 1) ==>
      (l.toK230[k].id == l.sent - 1 <==> l.sent - 1 - l.toK230[k].id <= 255)
  {
    hide Run, Reachable, Stamp, SeqNo, Arrives, FirstAck, Frames, Inv;
    var piece := Stamp(last, read, period);
    var frames := Frames(Run(acc0, piece).log);
    var j := AckFound(frames, expected);
    ReachableInv(l, moves);
    GrantUnderway(l, items, cut, n, acc0, piece, frames[j]);
    k :| 0 <= k < |l.toK230| && l.toK230[k].frame == frames[j];
    GrantIsPosted(l, moves, k, expected);
    if l.sent > 0 && expected == SeqNo(l.sent - 1) {
      GrantIsCurrent(l, moves, k);
    }
  }

  lemma GrantIsPosted(l: Link, moves: seq<Move>, k: nat, expected: byte)
    requires Reachable(l, moves) && Grants(l, k, expected)
    ensures l.toK230[k].id < l.sent && l.toK230[k].id in l.posted && SeqNo(l.toK230[k].id) == expected
    ensures |l.toK230[k].frame.payload| <= MAX_PAYLOAD
  {
    hide Reachable, SeqNo;
    ReachableInv(l, moves);
    assert AnswerOk(l, l.toK230[k]);
  }

  /** An acknowledgement that grants the latest request's number is for the latest request exactly
      when it is at most 255 sends old. */
  lemma GrantIsCurrent(l: Link, moves: seq<Move>, k: nat)
    requires Reachable(l, moves) && l.sent > 0 && Grants(l, k, SeqNo(l.sent - 1))
    ensures l.toK230[k].id < l.sent && l.toK230[k].id in l.posted
    ensures l.toK230[k].id == l.sent - 1 <==> l.sent - 1 - l.toK230[k].id <= 255
  {
    hide Reachable, SeqNo;
    GrantIsPosted(l, moves, k, SeqNo(l.sent - 1));
    SameSeqNo(l.toK230[k].id, l.sent - 1);
  }

  /** Some arrival on the line makes a wait for the number answer True. */
  ghost predicate CanBeGranted(l: Link, period: int, expected: byte)
    requires period > 0
  {
    exists items: seq<Item>, cut: nat, n: nat, acc0: seq<byte>, last: int, read: seq<Stamped> ::
      (&& Partial(acc0) && Arrives(l, items, cut, n, acc0, Stamp(last, read, period))
       && Verdict(acc0, last, read, period, expected) == Some(true))
  }

  /** A wait can be answered True exactly when an OK acknowledgement with its number is under way. */
  lemma GrantedIff(l: Link, moves: seq<Move>, period: int, expected: byte)
    requires Reachable(l, moves) && period > 0
    ensures CanBeGranted(l, period, expected) <==> exists k: nat :: Grants(l, k, expected)
  {
    hide Reachable, Arrives, Stamp, Verdict;
    if CanBeGranted(l, period, expected) {
      var items: seq<Item>, cut: nat, n: nat, acc0: seq<byte>, last: int, read: seq<Stamped> :|
        && Partial(acc0) && Arrives(l, items, cut, n, acc0, Stamp(last, read, period))
        && Verdict(acc0, last, read, period, expected) == Some(true);
      var k := AckMeansPosted(l, moves, items, cut, n, acc0, last, read, period, expected);
    }
    if k: nat :| Grants(l, k, expected) {
      GrantIsPosted(l, moves, k, expected);
      FrameArrives(l, l.toK230[k].frame, 0, period);
      OneAck(l.toK230[k].frame, 0, 0, period);
    }
  }

  /** A frame's bytes, all looked at on the same tick. */
  function AtOnce(f: Frame, tick: int): (read: seq<Stamped>)
    requires |f.payload| <= MAX_PAYLOAD
  {
    seq(|Encode(f)|, i requires 0 <= i < |Encode(f)| => Stamped(Encode(f)[i], tick))
  }

  lemma AtOnceIsPrompt(f: Frame, last: int, tick: int, period: int)
    requires |f.payload| <= MAX_PAYLOAD && period > 0
    ensures var evs := Stamp(last, AtOnce(f, tick), period);
      Wire(evs) == Encode(f) && Prompt(evs) && Run([], evs) == RunState([], [Emission(0, |evs|, f)])
  {
    hide Encode, Run;
    var read := AtOnce(f, tick);
    var evs := Stamp(last, read, period);
    SameTick(tick, period);
    forall i | 0 <= i < |evs|
      ensures evs[i].b == Encode(f)[i] && (i > 0 ==> !evs[i].late)
    {
      assert i > 0 ==> LastTick(last, read[..i]) == tick;
    }
    RoundTrip(f, evs);
  }

  lemma OneAck(f: Frame, last: int, tick: int, period: int)
    requires |f.payload| <= MAX_PAYLOAD && period > 0
    ensures Verdict([], last, AtOnce(f, tick), period, f.sn)
      == if f.cmd == FACE_UNLOCK_ACK then Some(SaysOk(f)) else None
  {
    hide Encode, Run, Stamp, AtOnce, Prompt;
    AtOnceIsPrompt(f, last, tick, period);
    OneFrame(Some(f), f.sn);
    assert Frames([Emission(0, |Stamp(last, AtOnce(f, tick), period)|, f)]) == [f];
  }

  /** A frame under way can be what an idle parser reads next. */
  lemma FrameArrives(l: Link, f: Frame, tick: int, period: int)
    requires Underway(l, f) && |f.payload| <= MAX_PAYLOAD && period > 0
    ensures exists items :: Arrives(l, items, 0, 0, [], Stamp(tick, AtOnce(f, tick), period))
  {
    hide Encode, Run, Stamp, AtOnce, Prompt;
    AtOnceIsPrompt(f, tick, tick, period);
    var evs := Stamp(tick, AtOnce(f, tick), period);
    var items := [Sent(f, evs)];
    assert items[..0] == [];
    assert Stream(items) == evs;
    assert evs[0..0] == [] && evs[0..0 + |evs|] == evs;
    RunEmpty();
    assert Arrives(l, items, 0, 0, [], evs);
  }

  /** The bytes collected so far, as if they had just come in time. */
  function Kept(acc: seq<byte>): (evs: seq<Event>)
    ensures |evs| == |acc|
  {
    seq(|acc|, i requires 0 <= i < |acc| => Event(false, acc[i]))
  }

  lemma KeptIsCollected(acc: seq<byte>)
    requires Partial(acc)
    ensures Run([], Kept(acc)) == RunState(acc, [])
  {
    hide Run;
    if acc == [] {
      RunEmpty();
    } else {
      var padded := acc + [0];
      var evs := Kept(padded);
      assert Wire(evs) == padded;
      CollectsPrefix(evs, |acc|);
      assert evs[..|acc|] == Kept(acc);
      assert padded[..|acc|] == acc;
    }
  }

  /** A line on which every stretch of bytes that is the encoding of an acknowledgement is a frame
      under way; otherwise it may do anything: cut frames short, garble them, add STX. */
  ghost predicate Carries(l: Link, evs: seq<Event>) {
    forall from: nat, to: nat, f: Frame |
      && 0 <= from <= to <= |evs| && |f.payload| <= MAX_PAYLOAD && f.cmd == FACE_UNLOCK_ACK
      && Wire(evs[from..to]) == Encode(f)
      :: Underway(l, f)
  }

  /** On any line without forged acknowledgements too, from any parser state, True means posted. */
  lemma AckOnAnyLine(l: Link, moves: seq<Move>, acc0: seq<byte>, last: int, read: seq<Stamped>, period: int,
                     expected: byte)
    returns (k: nat)
    requires Reachable(l, moves) && period > 0 && Partial(acc0)
    requires Carries(l, Kept(acc0) + Stamp(last, read, period))
    requires Verdict(acc0, last, read, period, expected) == Some(true)
    ensures Grants(l, k, expected) && l.toK230[k].id in l.posted && SeqNo(l.toK230[k].id) == expected
    ensures l.sent > 0 && expected == SeqNo(l.sent - 1) ==>
      (l.toK230[k].id == l.sent - 1 <==> l.sent - 1 - l.toK230[k].id <= 255)
  {
    hide Run, Reachable, FirstAck, Encode, Stamp, SeqNo, Partial, Frames, Kept;
    var x, y := Kept(acc0), Stamp(last, read, period);
    var frames := Frames(Run(acc0, y).log);
    var j := AckFound(frames, expected);
    KeptIsCollected(acc0);
    assert (x + y)[..|x|] == x && (x + y)[|x|..|x + y|] == y;
    PieceOfStream(x + y, |x|, |x + y|, frames[j]);
    var i := BlockOfFrame(x + y, frames[j]);
    assert Underway(l, frames[j]);
    k :| 0 <= k < |l.toK230| && l.toK230[k].frame == frames[j];
    GrantIsPosted(l, moves, k, expected);
    if l.sent > 0 && expected == SeqNo(l.sent - 1) {
      GrantIsCurrent(l, moves, k);
    }
  }

  lemma BlockOfFrame(evs: seq<Event>, f: Frame) returns (e: Emission)
    requires f in Frames(Run([], evs).log)
    ensures FromBlock(evs, e) && e.frame == f
  {
    hide Run;
    ParserSound(evs);
    var log := Run([], evs).log;
    var j :| 0 <= j < |log| && Frames(log)[j] == f;
    e := log[j];
  }

  // ----- Runs that show the conditions are needed -----

  /** `n` unlock requests that never reach the STM32. */
  lemma {:induction false} LostRequests(l0: Link, m0: seq<Move>, n: nat) returns (l: Link, moves: seq<Move>)
    requires Reachable(l0, m0) && l0.toStm == []
    ensures Reachable(l, moves) && l == l0.(sent := l0.sent + n)
  {
    if n == 0 {
      l, moves := l0, m0;
    } else {
      var send := Send(FACE_UNLOCK_REQ, [0, 0, 0]);
      var l1, m1 := LostRequests(l0, m0, n - 1);
      var l2 := Next(l1, send);
      Continues(l1, m1, send);
      l := Next(l2, Lose(true, 0));
      Continues(l2, m1 + [send], Lose(true, 0));
      moves := m1 + [send] + [Lose(true, 0)];
    }
  }

  /** One command that is handled at once. */
  lemma FirstHandled(cmd: byte, uptime: seq<byte>) returns (l: Link, moves: seq<Move>)
    requires |uptime| == 4
    ensures Reachable(l, moves)
    ensures var f := Frame(cmd, 0, [0, 0, 0]);
      && l.sent == 1 && l.toStm == [] && l.posted == (if cmd == FACE_UNLOCK_REQ then {0} else {})
      && l.toK230 == match Reply(f, true, 0, uptime) case Some(r) => [Tagged(0, r)] case None => []
  {
    var send, handle := Send(cmd, [0, 0, 0]), Handle(true, 0, uptime);
    var l1 := Next(INITIAL, send);
    l := Next(l1, handle);
    assert Reachable(INITIAL, []);
    Continues(INITIAL, [], send);
    Continues(l1, [send], handle);
    moves := [send] + [handle];
    assert SeqNo(0) == 0;
  }

  /** The age condition cannot be dropped: an acknowledgement 256 sends old is taken for the
      current one, whose request never reached the STM32. */
  lemma StaleAckRun() returns (l: Link, moves: seq<Move>)
    ensures Reachable(l, moves)
    ensures l.sent == 257 && l.toStm == [] && l.posted == {0}
    ensures l.toK230 == [Tagged(0, Frame(FACE_UNLOCK_ACK, 0, [RESULT_OK]))]
  {
    var l0, m0 := FirstHandled(FACE_UNLOCK_REQ, [0, 0, 0, 0]);
    l, moves := LostRequests(l0, m0, 256);
  }

  lemma Continues(l: Link, moves: seq<Move>, m: Move)
    requires Reachable(l, moves) && Enabled(l, m)
    ensures Reachable(Next(l, m), moves + [m])
  {
    assert (moves + [m])[..|moves|] == moves;
  }

  /** A wait into which one acknowledgement comes at once. */
  method WaitForOne(ack: Frame, period: int, now: int, timeout: int) returns (ok: bool)
    requires period > 0 && timeout > 0
    requires ack.cmd == FACE_UNLOCK_ACK && |ack.payload| <= MAX_PAYLOAD
    ensures ok <==> ack.payload != [] && ack.payload[0] == 0x00
  {
    hide Run, Encode, Stamp, Verdict, AtOnce, Delivered;
    var link := new K230Link(period, now);
    var poll := Poll(now, AtOnce(ack, now));
    OnePoll(poll, timeout, period);
    OneAck(ack, now, now, period);
    ok := link.WaitAck(ack.sn, now, timeout, [poll]);
  }

  /** A wait for the 257th request, whose bytes never reached the STM32, answers True when the
      acknowledgement of the first one comes in at last. */
  method StaleAckAccepted(period: int, now: int, timeout: int)
    returns (ok: bool, ghost l: Link, ghost moves: seq<Move>)
    requires period > 0 && timeout > 0
    ensures ok
    ensures Reachable(l, moves) && l.sent == 257 && l.sent - 1 !in l.posted
    ensures CanBeGranted(l, period, SeqNo(l.sent - 1))
  {
    hide Reachable;
    l, moves := StaleAckRun();
    SeqNoWraps();
    assert Grants(l, 0, 0);
    GrantedIff(l, moves, period, 0);
    ok := WaitForOne(Frame(FACE_UNLOCK_ACK, 0, [RESULT_OK]), period, now, timeout);
  }

  lemma OnePoll(p: Poll, timeout: int, period: int)
    requires period > 0 && timeout > 0
    ensures Delivered([p], p.now, timeout, period) == p.data
  {
    SameTick(p.now, period);
  }

  lemma SameTick(t: int, period: int)
    requires period > 0
    ensures TicksDiff(t, t, period) == 0 && !LateK230(t, t, period)
  {
    SmallMod(period / 2, period);
  }

  // ----- A cut through a heartbeat answer -----

  lemma CrcStep(data: seq<byte>, b: byte)
    ensures Crc(data + [b]) == Update(Crc(data), b) && Crc([]) == 0xFFFF
  {
    hide Update;
    assert (data + [b])[..|data|] == data;
  }

  lemma RequestChecksumSteps0()
    ensures Update(0xFFFF, 0x01) == 0x807E
    ensures Update(0x807E, 0x00) == 0x2000
    ensures Update(0x2000, 0x00) == 0x0020
  {
    EightSteps(0xFFFE);
    assert Shift(0xFFFE) == 0x7FFF && Shift(0x7FFF) == 0x9FFE && Shift(0x9FFE) == 0x4FFF && Shift(0x4FFF) == 0x87FE;
    assert Shift(0x87FE) == 0x43FF && Shift(0x43FF) == 0x81FE && Shift(0x81FE) == 0x40FF && Shift(0x40FF) == 0x807E;
    assert Update(0xFFFF, 0x01) == 0x807E;
    EightSteps(0x807E);
    assert Shift(0x807E) == 0x403F && Shift(0x403F) == 0x801E && Shift(0x801E) == 0x400F && Shift(0x400F) == 0x8006;
    assert Shift(0x8006) == 0x4003 && Shift(0x4003) == 0x8000 && Shift(0x8000) == 0x4000 && Shift(0x4000) == 0x2000;
    assert Update(0x807E, 0x00) == 0x2000;
    EightSteps(0x2000);
    assert Shift(0x2000) == 0x1000 && Shift(0x1000) == 0x0800 && Shift(0x0800) == 0x0400 && Shift(0x0400) == 0x0200;
    assert Shift(0x0200) == 0x0100 && Shift(0x0100) == 0x0080 && Shift(0x0080) == 0x0040 && Shift(0x0040) == 0x0020;
    assert Update(0x2000, 0x00) == 0x0020;
  }

  lemma RequestChecksumSteps1()
    ensures Update(0x0020, 0x01) == 0x18C0
    ensures Update(0x18C0, 0x5A) == 0x6B98
  {
    EightSteps(0x0021);
    assert Shift(0x0021) == 0xA011 && Shift(0xA011) == 0xF009 && Shift(0xF009) == 0xD805 && Shift(0xD805) == 0xCC03;
    assert Shift(0xCC03) == 0xC600 && Shift(0xC600) == 0x6300 && Shift(0x6300) == 0x3180 && Shift(0x3180) == 0x18C0;
    assert Update(0x0020, 0x01) == 0x18C0;
    EightSteps(0x189A);
    assert Shift(0x189A) == 0x0C4D && Shift(0x0C4D) == 0xA627 && Shift(0xA627) == 0xF312 && Shift(0xF312) == 0x7989;
    assert Shift(0x7989) == 0x9CC5 && Shift(0x9CC5) == 0xEE63 && Shift(0xEE63) == 0xD730 && Shift(0xD730) == 0x6B98;
    assert Update(0x18C0, 0x5A) == 0x6B98;
  }

  lemma RequestChecksum()
    ensures Crc([0x01, 0x00, 0x00, 0x01, 0x5A]) == 0x6B98
  {
    RequestChecksumSteps0();
    RequestChecksumSteps1();
    hide Update;
    var d: seq<byte> := [0x01, 0x00, 0x00, 0x01, 0x5A];
    CrcStep(d[..0], 0x01);
    assert d[..1] == d[..0] + [0x01];
    CrcStep(d[..1], 0x00);
    assert d[..2] == d[..1] + [0x00];
    CrcStep(d[..2], 0x00);
    assert d[..3] == d[..2] + [0x00];
    CrcStep(d[..3], 0x01);
    assert d[..4] == d[..3] + [0x01];
    CrcStep(d[..4], 0x5A);
    assert d[..5] == d[..4] + [0x5A];
    assert d[..5] == d && d[..0] == [];
  }

  lemma UptimeChecksumSteps0()
    ensures Update(0xFFFF, 0x07) == 0x82FE
    ensures Update(0x82FE, 0x00) == 0x8003
    ensures Update(0x8003, 0x00) == 0x01C0
  {
    EightSteps(0xFFF8);
    assert Shift(0xFFF8) == 0x7FFC && Shift(0x7FFC) == 0x3FFE && Shift(0x3FFE) == 0x1FFF && Shift(0x1FFF) == 0xAFFE;
    assert Shift(0xAFFE) == 0x57FF && Shift(0x57FF) == 0x8BFE && Shift(0x8BFE) == 0x45FF && Shift(0x45FF) == 0x82FE;
    assert Update(0xFFFF, 0x07) == 0x82FE;
    EightSteps(0x82FE);
    assert Shift(0x82FE) == 0x417F && Shift(0x417F) == 0x80BE && Shift(0x80BE) == 0x405F && Shift(0x405F) == 0x802E;
    assert Shift(0x802E) == 0x4017 && Shift(0x4017) == 0x800A && Shift(0x800A) == 0x4005 && Shift(0x4005) == 0x8003;
    assert Update(0x82FE, 0x00) == 0x8003;
    EightSteps(0x8003);
    assert Shift(0x8003) == 0xE000 && Shift(0xE000) == 0x7000 && Shift(0x7000) == 0x3800 && Shift(0x3800) == 0x1C00;
    assert Shift(0x1C00) == 0x0E00 && Shift(0x0E00) == 0x0700 && Shift(0x0700) == 0x0380 && Shift(0x0380) == 0x01C0;
    assert Update(0x8003, 0x00) == 0x01C0;
  }

  lemma UptimeChecksumSteps1()
    ensures Update(0x01C0, 0x53) == 0x6D41
    ensures Update(0x6D41, 0xBC) == 0x81AC
    ensures Update(0x81AC, 0xAA) == 0x0201
  {
    EightSteps(0x0193);
    assert Shift(0x0193) == 0xA0C8 && Shift(0xA0C8) == 0x5064 && Shift(0x5064) == 0x2832 && Shift(0x2832) == 0x1419;
    assert Shift(0x1419) == 0xAA0D && Shift(0xAA0D) == 0xF507 && Shift(0xF507) == 0xDA82 && Shift(0xDA82) == 0x6D41;
    assert Update(0x01C0, 0x53) == 0x6D41;
    EightSteps(0x6DFD);
    assert Shift(0x6DFD) == 0x96FF && Shift(0x96FF) == 0xEB7E && Shift(0xEB7E) == 0x75BF && Shift(0x75BF) == 0x9ADE;
    assert Shift(0x9ADE) == 0x4D6F && Shift(0x4D6F) == 0x86B6 && Shift(0x86B6) == 0x435B && Shift(0x435B) == 0x81AC;
    assert Update(0x6D41, 0xBC) == 0x81AC;
    EightSteps(0x8106);
    assert Shift(0x8106) == 0x4083 && Shift(0x4083) == 0x8040 && Shift(0x8040) == 0x4020 && Shift(0x4020) == 0x2010;
    assert Shift(0x2010) == 0x1008 && Shift(0x1008) == 0x0804 && Shift(0x0804) == 0x0402 && Shift(0x0402) == 0x0201;
    assert Update(0x81AC, 0xAA) == 0x0201;
  }

  lemma UptimeChecksum()
    ensures Crc([0x07, 0x00, 0x00, 0x53, 0xBC, 0xAA]) == 0x0201
  {
    UptimeChecksumSteps0();
    UptimeChecksumSteps1();
    hide Update;
    var d: seq<byte> := [0x07, 0x00, 0x00, 0x53, 0xBC, 0xAA];
    CrcStep(d[..0], 0x07);
    assert d[..1] == d[..0] + [0x07];
    CrcStep(d[..1], 0x00);
    assert d[..2] == d[..1] + [0x00];
    CrcStep(d[..2], 0x00);
    assert d[..3] == d[..2] + [0x00];
    CrcStep(d[..3], 0x53);
    assert d[..4] == d[..3] + [0x53];
    CrcStep(d[..4], 0xBC);
    assert d[..5] == d[..4] + [0xBC];
    CrcStep(d[..5], 0xAA);
    assert d[..6] == d[..5] + [0xAA];
    assert d[..6] == d && d[..0] == [];
  }

  lemma GrantChecksumSteps0()
    ensures Update(0xFFFF, 0x02) == 0x813E
    ensures Update(0x813E, 0x55) == 0xEFC0
    ensures Update(0xEFC0, 0x00) == 0x50EF
  {
    EightSteps(0xFFFD);
    assert Shift(0xFFFD) == 0xDFFF && Shift(0xDFFF) == 0xCFFE && Shift(0xCFFE) == 0x67FF && Shift(0x67FF) == 0x93FE;
    assert Shift(0x93FE) == 0x49FF && Shift(0x49FF) == 0x84FE && Shift(0x84FE) == 0x427F && Shift(0x427F) == 0x813E;
    assert Update(0xFFFF, 0x02) == 0x813E;
    EightSteps(0x816B);
    assert Shift(0x816B) == 0xE0B4 && Shift(0xE0B4) == 0x705A && Shift(0x705A) == 0x382D && Shift(0x382D) == 0xBC17;
    assert Shift(0xBC17) == 0xFE0A && Shift(0xFE0A) == 0x7F05 && Shift(0x7F05) == 0x9F83 && Shift(0x9F83) == 0xEFC0;
    assert Update(0x813E, 0x55) == 0xEFC0;
    EightSteps(0xEFC0);
    assert Shift(0xEFC0) == 0x77E0 && Shift(0x77E0) == 0x3BF0 && Shift(0x3BF0) == 0x1DF8 && Shift(0x1DF8) == 0x0EFC;
    assert Shift(0x0EFC) == 0x077E && Shift(0x077E) == 0x03BF && Shift(0x03BF) == 0xA1DE && Shift(0xA1DE) == 0x50EF;
    assert Update(0xEFC0, 0x00) == 0x50EF;
  }

  lemma GrantChecksum()
    ensures Crc([0x02, 0x55, 0x00]) == 0x50EF
  {
    GrantChecksumSteps0();
    hide Update;
    var d: seq<byte> := [0x02, 0x55, 0x00];
    CrcStep(d[..0], 0x02);
    assert d[..1] == d[..0] + [0x02];
    CrcStep(d[..1], 0x55);
    assert d[..2] == d[..1] + [0x55];
    CrcStep(d[..2], 0x00);
    assert d[..3] == d[..2] + [0x00];
    assert d[..3] == d && d[..0] == [];
  }

  /** The answer to a heartbeat after 63 days, and what follows it on the line. */
  const HEARTBEAT := Frame(HEARTBEAT_ACK, 0, [0x00, 0x53, 0xBC, 0xAA])
  const GRANT := Frame(FACE_UNLOCK_ACK, 0x55, [RESULT_OK])
  const CUT_OFF: seq<byte> := [STX, 0x04, HEARTBEAT_ACK, 0x00, 0x00, 0x53, 0xBC]
  const FOLLOWS: seq<byte> := [0x00, 0xEF, 0x50, 0x55]

  /** The rest of the one and the noise together are an acknowledgement nobody sent. */
  lemma ForgedBytes()
    ensures CUT_OFF + Encode(GRANT) == Encode(HEARTBEAT) + FOLLOWS
  {
    UptimeChecksum();
    GrantChecksum();
    ForgedChecksums();
    hide Crc, Lo, Hi;
    assert Body(HEARTBEAT) == [0x07, 0x00, 0x00, 0x53, 0xBC, 0xAA];
    assert Body(GRANT) == [0x02, 0x55, 0x00];
    assert Encode(HEARTBEAT) == [0xAA, 0x04, 0x07, 0x00, 0x00, 0x53, 0xBC, 0xAA, 0x01, 0x02, 0x55];
    assert Encode(GRANT) == [0xAA, 0x01, 0x02, 0x55, 0x00, 0xEF, 0x50, 0x55];
  }

  lemma ForgedChecksums()
    ensures Lo(0x0201) == 0x01 && Hi(0x0201) == 0x02 && Lo(0x50EF) == 0xEF && Hi(0x50EF) == 0x50
  {
    hide Lo, Hi;
    ReceivedIs(0x01, 0x02, 0x0201);
    ReceivedIs(0xEF, 0x50, 0x50EF);
    assert Received(0x01, 0x02) == 0x0201;
    assert Received(0xEF, 0x50) == 0x50EF;
  }

  /** Bytes that are all looked at on the same tick. */
  function Heard(w: seq<byte>, tick: int): (read: seq<Stamped>)
    ensures |read| == |w|
  {
    seq(|w|, i requires 0 <= i < |w| => Stamped(w[i], tick))
  }

  lemma CutOffIsNothing(last: int, tick: int, period: int, sn: byte)
    requires period > 0
    ensures Verdict([], last, Heard(CUT_OFF, tick), period, sn) == None
  {
    hide Run;
    var read := Heard(CUT_OFF, tick);
    var evs := Stamp(last, read, period);
    SameTick(tick, period);
    forall i | 0 <= i < |evs|
      ensures evs[i].b == CUT_OFF[i] && (i > 0 ==> !evs[i].late)
    {
      assert i > 0 ==> LastTick(last, read[..i]) == tick;
    }
    assert Wire(evs) == CUT_OFF;
    assert (0x04 as byte) as nat == 4;
    CollectsPrefix(evs, 7);
    assert evs[..7] == evs;
  }

  /** The line of that run: the heartbeat answer, then noise. */
  lemma ForgedLine(l: Link) returns (items: seq<Item>)
    requires l.toK230 == [Tagged(0, HEARTBEAT)]
    ensures OnLine(l, items) && Wire(Stream(items)) == CUT_OFF + Encode(GRANT)
  {
    hide Encode;
    var x, y := AllPrompt(Encode(HEARTBEAT)), AllPrompt(FOLLOWS);
    items := [Sent(HEARTBEAT, x), Gap(y)];
    ForgedBytes();
    assert l.toK230[0].frame == HEARTBEAT;
    assert items[..1] == [Sent(HEARTBEAT, x)] && items[..1][..0] == [];
    assert Stream(items[..1]) == x;
    assert Stream(items) == x + y;
    assert Wire(x + y) == Wire(x) + Wire(y);
    assert Wire(Stream(items)) == Encode(HEARTBEAT) + FOLLOWS;
    forall k | 0 <= k < |y|
      ensures y[k].b != STX
    {
      assert Wire(y)[k] == FOLLOWS[k];
    }
  }

  /** A wait that times out inside a heartbeat answer resets the parser there; the next wait, for the
      latest request, reads on and is answered True, though no request was ever posted. */
  method HeartbeatForges(period: int, now: int, timeout: int)
    returns (first: bool, second: bool, ghost l: Link, ghost moves: seq<Move>, ghost items: seq<Item>)
    requires period > 0 && timeout > 0
    ensures !first && second
    ensures Reachable(l, moves) && l.sent == 86 && l.posted == {}
    ensures OnLine(l, items) && Wire(Stream(items)) == CUT_OFF + Encode(GRANT)
    ensures forall k: nat, sn :: !Grants(l, k, sn)
  {
    hide Run, Encode, Verdict, Heard, AtOnce, Delivered, Reachable, OnLine;
    l, moves := FirstHandled(HEARTBEAT_REQ, [0x00, 0x53, 0xBC, 0xAA]);
    l, moves := LostRequests(l, moves, 85);
    items := ForgedLine(l);
    SeqNoCounts(85);
    var link := new K230Link(period, now);
    var poll := Poll(now, Heard(CUT_OFF, now));
    OnePoll(poll, timeout, period);
    CutOffIsNothing(now, now, period, 0x55);
    first := link.WaitAck(0x55, now, timeout, [poll]);
    poll := Poll(now, AtOnce(GRANT, now));
    OnePoll(poll, timeout, period);
    OneAck(GRANT, link.parser.lastByteTick, now, period);
    second := link.WaitAck(0x55, now, timeout, [poll]);
  }
}
