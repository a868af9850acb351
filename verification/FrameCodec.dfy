/** The serial frame format and the byte-at-a-time parser, as values.

    A frame on the wire is STX, LEN, CMD, SEQ, LEN payload bytes, CRC low, CRC high, ETX.
    The checksum covers CMD..payload and not LEN.  Both implementations of the parser are
    proved against `Step` in the module FrameParsers; here are the properties of whole streams. */
module FrameCodec {
  import opened Machine
  import opened Wrappers
  import opened Slices
  import opened Crc16

  const STX: byte := 0xAA
  const ETX: byte := 0x55
  const MAX_PAYLOAD: nat := 64
  const MAX_FRAME: nat := 7 + MAX_PAYLOAD
  const FRAME_TIMEOUT: nat := 50

  datatype Frame = Frame(cmd: byte, sn: byte, payload: seq<byte>)

  /** The bytes under the checksum. */
  function Body(f: Frame): seq<byte> {
    [f.cmd, f.sn] + f.payload
  }

  function Encode(f: Frame): (w: seq<byte>)
    requires |f.payload| <= MAX_PAYLOAD
    ensures |w| == 7 + |f.payload|
  {
    [STX, |f.payload| as byte] + Body(f) + [Lo(Crc(Body(f))), Hi(Crc(Body(f))), ETX]
  }

  /** A received byte; `late` says that more than the frame timeout passed since the last one. */
  datatype Event = Event(late: bool, b: byte)

  /** The bytes of the frame being collected; empty while waiting for STX. */
  predicate Partial(acc: seq<byte>) {
    && (|acc| >= 1 ==> acc[0] == STX)
    && (|acc| >= 2 ==> acc[1] as nat <= MAX_PAYLOAD && |acc| <= Need(acc))
  }

  /** How many bytes precede ETX, once LEN is known. */
  function Need(acc: seq<byte>): nat
    requires |acc| >= 2
  {
    acc[1] as nat + 6
  }

  predicate Complete(acc: seq<byte>) {
    |acc| >= 2 && |acc| == Need(acc)
  }

  predicate Intact(acc: seq<byte>)
    requires Complete(acc)
  {
    var n := acc[1] as nat;
    Received(acc[4 + n], acc[5 + n]) == Crc(acc[2..4 + n])
  }

  function Decode(acc: seq<byte>): Frame
    requires Complete(acc)
  {
    Frame(acc[2], acc[3], acc[4..4 + acc[1] as nat])
  }

  function Collect(acc: seq<byte>, b: byte): (r: seq<byte>)
    requires Partial(acc)
    ensures Partial(r)
  {
    if acc == [] then (if b == STX then [b] else [])
    else if |acc| == 1 then (if b as nat > MAX_PAYLOAD then [] else acc + [b])
    else if |acc| < Need(acc) then acc + [b]
    else []
  }

  function Fresh(acc: seq<byte>, e: Event): seq<byte> {
    if e.late then [] else acc
  }

  function Emit(acc: seq<byte>, b: byte): Option<Frame>
    requires Partial(acc)
  {
    if Complete(acc) && b == ETX && Intact(acc) then Some(Decode(acc)) else None
  }

  /** One byte: the bytes kept afterwards, and the frame completed by this byte, if any. */
  function Step(acc: seq<byte>, e: Event): (r: (seq<byte>, Option<Frame>))
    requires Partial(acc)
    ensures Partial(r.0)
    ensures r.1.Some? ==> r.0 == []
  {
    (Collect(Fresh(acc, e), e.b), Emit(Fresh(acc, e), e.b))
  }

  /** A frame and the half-open range of stream positions it was read from. */
  datatype Emission = Emission(start: int, end: int, frame: Frame)

  datatype RunState = RunState(acc: seq<byte>, log: seq<Emission>)

  /** What the byte at position `n` adds to a run over the `n` bytes before it. */
  function Extend(s: RunState, n: nat, e: Event): (r: RunState)
    requires Partial(s.acc)
    ensures Partial(r.acc)
  {
    var (acc, out) := Step(s.acc, e);
    RunState(acc, s.log + if out.Some? then [Emission(n - |s.acc|, n + 1, out.value)] else [])
  }

  function Run(acc0: seq<byte>, evs: seq<Event>): (r: RunState)
    requires Partial(acc0)
    ensures Partial(r.acc)
  {
    if evs == [] then RunState(acc0, [])
    else Extend(Run(acc0, evs[..|evs| - 1]), |evs| - 1, evs[|evs| - 1])
  }

  function Frames(log: seq<Emission>): (r: seq<Frame>)
    ensures |r| == |log|
  {
    seq(|log|, i requires 0 <= i < |log| => log[i].frame)
  }

  function Wire(evs: seq<Event>): (r: seq<byte>)
    ensures |r| == |evs|
  {
    seq(|evs|, i requires 0 <= i < |evs| => evs[i].b)
  }

  /** No byte after the first arrives late. */
  predicate Prompt(evs: seq<Event>) {
    forall i | 0 < i < |evs| :: !evs[i].late
  }

  // ----- Soundness over every stream -----

  lemma SplitFrame(acc: seq<byte>, n: nat)
    requires |acc| == n + 6
    ensures acc == [acc[0], acc[1]] + acc[2..4 + n] + [acc[4 + n], acc[5 + n]]
  {
  }

  lemma DecodedBody(acc: seq<byte>)
    requires Partial(acc) && Complete(acc)
    ensures var n := acc[1] as nat;
      |acc| == n + 6 && n <= MAX_PAYLOAD && |Decode(acc).payload| == n && Body(Decode(acc)) == acc[2..4 + n]
  {
    var n := acc[1] as nat;
    HeadAndRest(acc, 2, 4 + n);
  }

  /** Collected bytes that pass the check are exactly the encoding of what is decoded. */
  lemma IntactIsEncoded(acc: seq<byte>)
    requires Partial(acc) && Complete(acc) && Intact(acc)
    ensures |Decode(acc).payload| <= MAX_PAYLOAD
    ensures acc + [ETX] == Encode(Decode(acc))
  {
    hide Crc, Received, Lo, Hi, Body, Decode;
    var n := acc[1] as nat;
    DecodedBody(acc);
    NatOfByte(acc[1]);
    ReceivedParts(acc[4 + n], acc[5 + n]);
    SplitFrame(acc, n);
    Sealed([acc[0], acc[1]] + acc[2..4 + n], acc[4 + n], acc[5 + n]);
  }

  lemma Sealed(head: seq<byte>, lo: byte, hi: byte)
    ensures head + [lo, hi] + [ETX] == head + [lo, hi, ETX]
  {
  }

  lemma ReceivedParts(lo: byte, hi: byte)
    ensures Lo(Received(lo, hi)) == lo && Hi(Received(lo, hi)) == hi
  {
  }

  /** The collected bytes are the last bytes of the stream and arrived in time. */
  ghost predicate Tail(evs: seq<Event>, acc: seq<byte>) {
    && |acc| <= |evs|
    && acc == Wire(evs[|evs| - |acc|..])
    && Prompt(evs[|evs| - |acc|..])
  }

  /** The emission is the encoding of its own stretch of the stream. */
  ghost predicate FromBlock(evs: seq<Event>, e: Emission) {
    && 0 <= e.start < e.end <= |evs|
    && |e.frame.payload| <= MAX_PAYLOAD
    && Wire(evs[e.start..e.end]) == Encode(e.frame)
    && Prompt(evs[e.start..e.end])
  }

  ghost predicate InOrder(log: seq<Emission>) {
    forall j, k | 0 <= j < k < |log| :: log[j].end <= log[k].start
  }

  /** Where the collected bytes and the emitted frames sit in the stream. */
  ghost predicate Located(evs: seq<Event>, s: RunState) {
    && Tail(evs, s.acc)
    && InOrder(s.log)
    && (forall k | 0 <= k < |s.log| :: FromBlock(evs, s.log[k]) && s.log[k].end <= |evs| - |s.acc|)
  }

  lemma FromBlockExtends(evs: seq<Event>, more: Event, e: Emission)
    requires FromBlock(evs, e)
    ensures FromBlock(evs + [more], e)
  {
    assert (evs + [more])[e.start..e.end] == evs[e.start..e.end];
  }

  lemma TailExtends(evs: seq<Event>, e: Event, acc: seq<byte>)
    requires Tail(evs, acc) && (e.late ==> acc == [])
    ensures Tail(evs + [e], acc + [e.b])
  {
    var n := |evs| - |acc|;
    assert (evs + [e])[n..] == evs[n..] + [e];
    assert Wire(evs[n..] + [e]) == Wire(evs[n..]) + [e.b];
  }

  lemma TailEmpty(evs: seq<Event>)
    ensures Tail(evs, [])
  {
    assert Wire(evs[|evs|..]) == [];
  }

  lemma StepSound(evs: seq<Event>, e: Event, acc: seq<byte>)
    requires Tail(evs, acc) && Partial(acc)
    ensures Tail(evs + [e], Step(acc, e).0)
    ensures Step(acc, e).1.Some? ==>
      FromBlock(evs + [e], Emission(|evs| - |acc|, |evs| + 1, Step(acc, e).1.value))
  {
    hide Encode, Intact, Tail;
    TailEmpty(evs);
    TailEmpty(evs + [e]);
    var kept := Fresh(acc, e);
    TailExtends(evs, e, kept);
    assert kept == [] ==> kept + [e.b] == [e.b];
    if Emit(kept, e.b).Some? {
      IntactIsEncoded(kept);
      BlockOfTail(evs + [e], kept + [e.b], Decode(kept));
    }
  }

  lemma BlockOfTail(evs: seq<Event>, acc: seq<byte>, f: Frame)
    requires Tail(evs, acc) && |f.payload| <= MAX_PAYLOAD && acc == Encode(f)
    ensures FromBlock(evs, Emission(|evs| - |acc|, |evs|, f))
  {
    hide Encode;
    assert evs[|evs| - |acc|..|evs|] == evs[|evs| - |acc|..];
  }

  lemma NothingLocated()
    ensures Located([], RunState([], []))
  {
    TailEmpty([]);
  }

  /** One more byte keeps everything in its place. */
  lemma LocatedStep(pre: seq<Event>, e: Event, s: RunState)
    requires Located(pre, s) && Partial(s.acc)
    ensures Located(pre + [e], Extend(s, |pre|, e))
  {
    hide Step, Tail, FromBlock;
    StepSound(pre, e, s.acc);
    forall k | 0 <= k < |s.log|
      ensures FromBlock(pre + [e], s.log[k])
    {
      FromBlockExtends(pre, e, s.log[k]);
    }
    KeptBound(s.acc, e);
  }

  /** Every emitted frame is exactly the encoding of a contiguous block of the stream whose
      bytes arrived in time, and the blocks of different frames are disjoint and in order. */
  lemma {:induction false} ParserSound(evs: seq<Event>)
    ensures Located(evs, Run([], evs))
  {
    hide Located, Extend;
    if evs == [] {
      NothingLocated();
    } else {
      var n := |evs| - 1;
      ParserSound(evs[..n]);
      LocatedStep(evs[..n], evs[n], Run([], evs[..n]));
      assert evs == evs[..n] + [evs[n]];
    }
  }

  lemma KeptBound(acc: seq<byte>, e: Event)
    requires Partial(acc)
    ensures |Step(acc, e).0| <= |acc| + 1
    ensures Step(acc, e).1.Some? ==> Step(acc, e).0 == []
  {
  }
}
