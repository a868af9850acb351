/** The stable-recognition gate of the K230 controller: when a stream of camera frames unlocks. */
module AccessGate {
  import opened Machine
  import opened Wrappers
  import C = FrameCodec
  import U = UnlockLink

  const HEAVY_MODEL_INTERVAL: int := 3
  const REQUIRED_CONSECUTIVE: nat := 10
  const MAX_TOLERANCE_FAIL: nat := 3
  const DOOR_OPEN_COOLDOWN: int := 5

  datatype Status = Idle | Stabilizing

  /** What a camera frame turned out to be.  `now` is the clock read by the evaluation, and `done`
      the clock read after the acknowledgement wait, should the frame unlock. */
  datatype Camera =
    | DetectorError
    | NoFace
    | TooManyFaces
    | ModelsMissing
    | Faces(authorised: bool, now: int, done: int)

  datatype Gate = Gate(frameCount: nat, lastHeavy: int, success: nat, fail: nat, needLeave: bool,
                       lastUnlock: int, status: Status)

  const INITIAL := Gate(0, -1, 0, 0, false, 0, Idle)

  predicate Heavy(g: Gate) {
    g.frameCount - g.lastHeavy >= HEAVY_MODEL_INTERVAL
  }

  /** The counters and whether the door is unlocked, for one evaluation. */
  function Count(success: nat, fail: nat, authorised: bool): (nat, nat, bool) {
    if authorised then
      if success + 1 >= REQUIRED_CONSECUTIVE then (0, 0, true) else (success + 1, 0, false)
    else if fail + 1 >= MAX_TOLERANCE_FAIL then (0, 0, false)
    else (success, fail + 1, false)
  }

  function UpdateStatus(g: Gate, f: Camera): (r: (Gate, bool))
    requires f.Faces?
  {
    if g.needLeave then
      (g.(needLeave := !(f.now - g.lastUnlock > DOOR_OPEN_COOLDOWN)), false)
    else
      var (s, e, unlock) := Count(g.success, g.fail, f.authorised);
      var status :=
        if unlock then Idle
        else if f.authorised then Stabilizing
        else if g.fail + 1 >= MAX_TOLERANCE_FAIL then Idle
        else g.status;
      (g.(success := s, fail := e, needLeave := unlock, status := status,
          lastUnlock := if unlock then f.done else g.lastUnlock), unlock)
  }

  /** One frame: the gate afterwards, and whether this frame unlocked. */
  function Next(g: Gate, f: Camera): (Gate, bool) {
    var g' := g.(frameCount := g.frameCount + 1);
    match f
    case NoFace => (g'.(status := Idle, needLeave := false), false)
    case Faces(_, _, _) =>
      if Heavy(g') then
        UpdateStatus(g'.(lastHeavy := g'.frameCount), f)
      else (g', false)
    case _ => (g', false)
  }

  /** What an unlock sends and how its wait goes: the user, and what the port holds at each poll. */
  datatype Exchange = Exchange(userId: int, confidence: int, start: int, polls: seq<U.Poll>)

  const ACK_TIMEOUT: int := 500

  /** Either one request goes out and takes the next sequence number, or nothing happens. */
  predicate Asks(asked: bool, before: byte, after: byte, wire: seq<byte>, x: Exchange) {
    if asked then
      wire == C.Encode(U.UnlockRequest(before, x.userId, x.confidence)) && after == before + 1
    else wire == [] && after == before
  }

  lemma NotAsked(sn: byte, x: Exchange)
    ensures Asks(false, sn, sn, [], x)
  {
  }

  class AccessController {
    /** Absent when the controller runs without a serial line. */
    const uart: U.K230Link?
    var frameCount: nat
    var lastHeavyFrame: int
    var consecutiveSuccess: nat
    var consecutiveFail: nat
    var needLeave: bool
    var lastUnlockTime: int
    var status: Status

    function View(): Gate
      reads this
    {
      Gate(frameCount, lastHeavyFrame, consecutiveSuccess, consecutiveFail, needLeave, lastUnlockTime, status)
    }

    function Line(): set<object> {
      if uart == null then {} else {uart, uart.parser, uart.parser.buf}
    }

    ghost predicate Valid()
      reads Line()
    {
      uart == null || uart.Valid()
    }

    /** The next sequence number; 0 without a line. */
    function Sn(): byte
      reads Line()
    {
      if uart == null then 0 else uart.sn
    }

    constructor (uart: U.K230Link?)
      requires uart == null || uart.Valid()
      ensures Valid() && View() == INITIAL && this.uart == uart
    {
      this.uart := uart;
      frameCount, lastHeavyFrame, consecutiveSuccess, consecutiveFail := 0, -1, 0, 0;
      needLeave, lastUnlockTime, status := false, 0, Idle;
    }

    /** One camera frame.  A request goes out exactly when the frame unlocks, and takes one sequence
        number. */
    method Process(f: Camera, x: Exchange) returns (unlocked: bool, wire: seq<byte>)
      requires Valid()
      modifies this, Line()
      ensures Valid() && (View(), unlocked) == Next(old(View()), f)
      ensures Asks(uart != null && unlocked, old(Sn()), Sn(), wire, x)
    {
      hide Asks;
      frameCount := frameCount + 1;
      unlocked, wire := false, [];
      NotAsked(Sn(), x);
      match f {
        case DetectorError =>
        case NoFace =>
          status := Idle;
          needLeave := false;
        case TooManyFaces =>
        case ModelsMissing =>
        case Faces(authorised, now, done) =>
          if frameCount - lastHeavyFrame >= HEAVY_MODEL_INTERVAL {
            lastHeavyFrame := frameCount;
            unlocked, wire := Evaluate(authorised, now, done, x);
          }
      }
    }

    method Evaluate(authorised: bool, now: int, done: int, x: Exchange) returns (unlocked: bool, wire: seq<byte>)
      requires Valid()
      modifies this, Line()
      ensures Valid() && (View(), unlocked) == UpdateStatus(old(View()), Faces(authorised, now, done))
      ensures Asks(uart != null && unlocked, old(Sn()), Sn(), wire, x)
    {
      hide Asks;
      unlocked, wire := false, [];
      NotAsked(Sn(), x);
      if needLeave {
        if now - lastUnlockTime > DOOR_OPEN_COOLDOWN {
          needLeave := false;
        }
        return;
      }
      if authorised {
        consecutiveFail := 0;
        consecutiveSuccess := consecutiveSuccess + 1;
        status := Stabilizing;
        if consecutiveSuccess >= REQUIRED_CONSECUTIVE {
          var acked;
          wire, acked := DoUnlock(x, done);
          unlocked := true;
          consecutiveSuccess := 0;
          consecutiveFail := 0;
        }
      } else {
        consecutiveFail := consecutiveFail + 1;
        if consecutiveFail >= MAX_TOLERANCE_FAIL {
          consecutiveSuccess := 0;
          consecutiveFail := 0;
          needLeave := false;
          status := Idle;
        }
      }
    }

    /** Sends the request and waits for its acknowledgement; the gate closes the same way whatever the
        answer, and without a line. */
    method DoUnlock(x: Exchange, done: int) returns (wire: seq<byte>, acked: bool)
      requires Valid()
      modifies this, Line()
      ensures Valid()
      ensures View() == old(View()).(needLeave := true, lastUnlock := done, status := Idle, success := 0, fail := 0)
      ensures Asks(uart != null, old(Sn()), Sn(), wire, x)
      ensures uart == null ==> !acked
      ensures uart != null ==>
        && uart.parser.Acc() == []
        && acked == (U.Verdict(old(uart.parser.Acc()), old(uart.parser.lastByteTick),
                               U.Delivered(x.polls, x.start, ACK_TIMEOUT, uart.parser.period),
                               uart.parser.period, old(uart.sn)) == Some(true))
    {
      hide C.Encode, U.Verdict, U.Delivered;
      wire, acked := [], false;
      if uart != null {
        var sent;
        sent, wire := uart.SendFaceUnlockReq(x.userId, x.confidence);
        acked := uart.WaitAck(sent.value, x.start, ACK_TIMEOUT, x.polls);
      }
      needLeave := true;
      lastUnlockTime := done;
      status := Idle;
      consecutiveSuccess := 0;
      consecutiveFail := 0;
    }
  }

  // ----- Traces and their evaluations -----

  /** One run of the heavy models: its frame number, the clocks the frame brings, whether an authorised
      face was found, whether the cooldown swallowed it, whether a no-face frame came since the
      previous one, whether it unlocked, and the counters, cooldown flag and unlock time it left. */
  datatype Eval = Eval(frame: nat, now: int, done: int, authorised: bool, gated: bool, cleared: bool, unlocked: bool,
                       success: nat, fail: nat, leave: bool, since: int)

  datatype History = History(gate: Gate, log: seq<Eval>, cleared: bool)

  function Run(trace: seq<Camera>): History {
    if trace == [] then History(INITIAL, [], false)
    else Extend(Run(trace[..|trace| - 1]), trace[|trace| - 1])
  }

  predicate Evaluates(g: Gate, f: Camera) {
    f.Faces? && g.frameCount + 1 - g.lastHeavy >= HEAVY_MODEL_INTERVAL
  }

  function Extend(h: History, f: Camera): History {
    var (g', unlocked) := Next(h.gate, f);
    if Evaluates(h.gate, f) then
      var e := Eval(g'.frameCount, f.now, f.done, f.authorised, h.gate.needLeave, h.cleared, unlocked,
                    g'.success, g'.fail, g'.needLeave, g'.lastUnlock);
      History(g', h.log + [e], false)
    else
      History(g', h.log, h.cleared || f.NoFace?)
  }

  /** How each evaluation follows from the one before it. */
  predicate Follows(log: seq<Eval>, m: nat)
    requires m < |log|
  {
    var e := log[m];
    var (s, f) := if m == 0 then (0, 0) else (log[m - 1].success, log[m - 1].fail);
    && (m > 0 ==> e.frame >= log[m - 1].frame + 3)
    && (e.unlocked ==> e.since == e.done)
    && (e.gated <==> m > 0 && log[m - 1].leave && !e.cleared)
    && (if e.gated then
          s == 0 && f == 0 && !e.unlocked && (e.success, e.fail) == (0, 0)
          && e.since == log[m - 1].since && e.leave == !(e.now - e.since > DOOR_OPEN_COOLDOWN)
        else
          (e.success, e.fail, e.unlocked) == Count(s, f, e.authorised) && e.leave == e.unlocked)
  }

  predicate Chain(log: seq<Eval>) {
    forall m | 0 <= m < |log| :: Follows(log, m)
  }

  /** The gate agrees with the last evaluation. */
  predicate InStep(h: History) {
    var n := |h.log|;
    && (h.gate.success, h.gate.fail) == (if n == 0 then (0, 0) else (h.log[n - 1].success, h.log[n - 1].fail))
    && h.gate.needLeave == (n > 0 && h.log[n - 1].leave && !h.cleared)
    && (n > 0 ==> h.gate.lastHeavy == h.log[n - 1].frame)
    && (h.gate.needLeave ==> h.gate.success == 0 && h.gate.fail == 0 && h.gate.lastUnlock == h.log[n - 1].since)
  }

  lemma ChainExtends(log: seq<Eval>, e: Eval)
    requires Chain(log) && Follows(log + [e], |log|)
    ensures Chain(log + [e])
  {
    forall m | 0 <= m < |log|
      ensures Follows(log + [e], m)
    {
      assert Follows(log, m);
    }
  }

  lemma {:induction false} TraceChain(trace: seq<Camera>)
    ensures Chain(Run(trace).log) && InStep(Run(trace))
  {
    if trace != [] {
      var n := |trace| - 1;
      TraceChain(trace[..n]);
      var h, f := Run(trace[..n]), trace[n];
      if Evaluates(h.gate, f) {
        var e := Extend(h, f).log[|h.log|];
        assert Extend(h, f).log == h.log + [e];
        ChainExtends(h.log, e);
      }
    }
  }

  // ----- The log, told from the trace -----

  /** Every frame counts, whatever it shows; and each entry of the log is a frame of the trace, at its
      place, with what that frame brings. */
  lemma {:induction false} LogTold(trace: seq<Camera>)
    ensures Run(trace).gate.frameCount == |trace|
    ensures forall k | 0 <= k < |Run(trace).log| :: EntryTold(trace, Run(trace).log[k])
    ensures Run(trace).gate.lastHeavy == LastFrame(Run(trace).log)
  {
    if trace != [] {
      var n := |trace| - 1;
      LogTold(trace[..n]);
      var log := Run(trace[..n]).log;
      forall k | 0 <= k < |log|
        ensures EntryTold(trace, log[k])
      {
        assert EntryTold(trace[..n], log[k]);
      }
    }
  }

  predicate EntryTold(trace: seq<Camera>, e: Eval) {
    1 <= e.frame <= |trace| && trace[e.frame - 1] == Faces(e.authorised, e.now, e.done)
  }

  /** The frame of the last evaluation, or -1. */
  function LastFrame(log: seq<Eval>): int {
    if log == [] then -1 else log[|log| - 1].frame
  }

  /** Some frame after number `from` up to number `to` shows no face. */
  predicate FaceLost(trace: seq<Camera>, from: int, to: nat) {
    exists q: nat :: from < q <= to && NoFaceAt(trace, q)
  }

  predicate NoFaceAt(trace: seq<Camera>, q: nat) {
    1 <= q <= |trace| && trace[q - 1].NoFace?
  }

  predicate ClearedAt(trace: seq<Camera>, log: seq<Eval>, k: nat)
    requires k < |log|
  {
    log[k].cleared <==> FaceLost(trace, LastFrame(log[..k]), log[k].frame)
  }

  /** `cleared` says that a frame without a face came since the evaluation before. */
  lemma {:induction false} ClearedTold(trace: seq<Camera>)
    ensures var log := Run(trace).log;
      && (forall k | 0 <= k < |log| :: ClearedAt(trace, log, k))
      && (Run(trace).cleared <==> FaceLost(trace, LastFrame(log), |trace|))
  {
    hide Next;
    LogTold(trace);
    if trace != [] {
      var n := |trace| - 1;
      ClearedTold(trace[..n]);
      LogTold(trace[..n]);
      var h, h' := Run(trace[..n]), Run(trace);
      var log, log' := h.log, h'.log;
      forall k | 0 <= k < |log|
        ensures ClearedAt(trace, log', k)
      {
        assert EntryTold(trace[..n], log[k]) && ClearedAt(trace[..n], log, k);
        assert log'[..k] == log[..k];
        SameFrames(trace, n, LastFrame(log[..k]), log[k].frame);
      }
      OneMoreFrame(trace, LastFrame(log));
      if Evaluates(h.gate, trace[n]) {
        assert log'[..|log|] == log;
        NoFrames(trace);
      }
    }
  }

  lemma SameFrames(trace: seq<Camera>, n: nat, from: int, to: nat)
    requires to <= n <= |trace|
    ensures FaceLost(trace, from, to) <==> FaceLost(trace[..n], from, to)
  {
    forall q: nat | q <= n
      ensures NoFaceAt(trace, q) <==> NoFaceAt(trace[..n], q)
    {
    }
  }

  lemma OneMoreFrame(trace: seq<Camera>, from: int)
    requires trace != [] && from < |trace|
    ensures FaceLost(trace, from, |trace|) <==>
      FaceLost(trace[..|trace| - 1], from, |trace| - 1) || trace[|trace| - 1].NoFace?
  {
    var n := |trace| - 1;
    SameFrames(trace, n, from, n);
    if trace[n].NoFace? {
      assert NoFaceAt(trace, |trace|);
    }
  }

  lemma NoFrames(trace: seq<Camera>)
    ensures !FaceLost(trace, |trace|, |trace|)
  {
  }

  /** Which frames are evaluated: those with faces to recognise that come at least three frames after
      the last one evaluated; the first can be the second frame. */
  lemma {:induction false} EvaluatedIff(trace: seq<Camera>, q: nat)
    requires 1 <= q <= |trace|
    ensures Evaluated(Run(trace).log, q) <==> trace[q - 1].Faces? && q >= 2 && Due(Run(trace).log, q)
  {
    hide Run, Evaluated, Due;
    var n := |trace| - 1;
    LogTold(trace[..n]);
    LogGrows(trace);
    var h := Run(trace[..n]);
    EntriesBelow(trace[..n]);
    if q <= n {
      EvaluatedIff(trace[..n], q);
      LaterEntry(h.log, Run(trace).log, q);
    } else {
      InOrder(trace[..n]);
      NewEntry(h.log, Run(trace).log, q);
    }
  }

  predicate Evaluated(log: seq<Eval>, q: nat) {
    exists k :: 0 <= k < |log| && log[k].frame == q
  }

  /** No evaluation came within the two frames before. */
  predicate Due(log: seq<Eval>, q: nat) {
    forall k | 0 <= k < |log| && log[k].frame < q :: log[k].frame + 3 <= q
  }

  lemma EntriesBelow(trace: seq<Camera>)
    ensures forall k | 0 <= k < |Run(trace).log| :: Run(trace).log[k].frame <= |trace|
  {
    hide Run;
    LogTold(trace);
    var log := Run(trace).log;
    forall k | 0 <= k < |log|
      ensures log[k].frame <= |trace|
    {
      assert EntryTold(trace, log[k]);
    }
  }

  lemma LaterEntry(log: seq<Eval>, log': seq<Eval>, q: nat)
    requires log <= log' && |log'| <= |log| + 1 && (|log'| > |log| ==> log'[|log|].frame > q)
    ensures Evaluated(log', q) <==> Evaluated(log, q)
    ensures Due(log', q) <==> Due(log, q)
  {
    if Evaluated(log, q) {
      var k :| 0 <= k < |log| && log[k].frame == q;
      assert log'[k].frame == q;
    }
    if Due(log', q) {
      forall k | 0 <= k < |log| && log[k].frame < q
        ensures log[k].frame + 3 <= q
      {
        assert log'[k].frame < q;
      }
    }
  }

  lemma NewEntry(log: seq<Eval>, log': seq<Eval>, q: nat)
    requires log <= log' && |log'| <= |log| + 1 && (|log'| > |log| ==> log'[|log|].frame == q)
    requires forall k | 0 <= k < |log| :: log[k].frame < q
    requires forall i, k | 0 <= i < k < |log| :: log[i].frame < log[k].frame
    ensures Evaluated(log', q) <==> |log'| > |log|
    ensures Due(log', q) <==> log == [] || LastFrame(log) + 3 <= q
  {
    forall k | 0 <= k < |log|
      ensures log'[k] == log[k]
    {
    }
  }

  lemma LogGrows(trace: seq<Camera>)
    requires trace != []
    ensures var h, f := Run(trace[..|trace| - 1]), trace[|trace| - 1];
      && h.log <= Run(trace).log
      && |Run(trace).log| == |h.log| + (if Evaluates(h.gate, f) then 1 else 0)
      && (Evaluates(h.gate, f) ==> Run(trace).log[|h.log|].frame == h.gate.frameCount + 1)
  {
  }

  /** Frame numbers increase along the log. */
  lemma InOrder(trace: seq<Camera>)
    ensures var log := Run(trace).log;
      forall i, k | 0 <= i < k < |log| :: log[i].frame < log[k].frame
  {
    hide Run;
    TraceChain(trace);
    var log := Run(trace).log;
    forall i, k | 0 <= i < k < |log|
      ensures log[i].frame < log[k].frame
    {
      FramesApart(log, i, k);
    }
  }

  /** A face has been in every frame since the last authorised evaluation. */
  predicate InSight(log: seq<Eval>) {
    log != [] && (log[|log| - 1].authorised || (!log[|log| - 1].cleared && InSight(log[..|log| - 1])))
  }

  lemma InSightGrows(log: seq<Eval>, e: Eval)
    ensures InSight(log + [e]) <==> e.authorised || (!e.cleared && InSight(log))
  {
    assert (log + [e])[..|log|] == log;
  }

  predicate StatusOk(h: History) {
    h.gate.status == Stabilizing <==> h.gate.success > 0 && !h.cleared && InSight(h.log)
  }

  lemma StatusStep(h: History, f: Camera)
    requires StatusOk(h) && (h.gate.needLeave ==> h.gate.success == 0)
    ensures StatusOk(Extend(h, f))
  {
    hide InSight;
    var h' := Extend(h, f);
    if Evaluates(h.gate, f) {
      var e := h'.log[|h.log|];
      InSightGrows(h.log, e);
      assert h'.log == h.log + [e];
    }
  }

  /** What the display shows: stabilising exactly while successes are counted and the face has not
      been lost since the last of them. */
  lemma {:induction false} StatusTold(trace: seq<Camera>)
    ensures var h := Run(trace);
      h.gate.status == Stabilizing <==> h.gate.success > 0 && !h.cleared && InSight(h.log)
  {
    hide Extend, InSight, Chain;
    if trace != [] {
      var n := |trace| - 1;
      StatusTold(trace[..n]);
      TraceChain(trace[..n]);
      StatusStep(Run(trace[..n]), trace[n]);
    }
  }

  // ----- What an unlock means -----

  function Authorised(log: seq<Eval>): nat {
    if log == [] then 0 else Authorised(log[..|log| - 1]) + if log[|log| - 1].authorised then 1 else 0
  }

  predicate NoThreeMisses(log: seq<Eval>) {
    forall i | 0 <= i < |log| - 2 :: log[i].authorised || log[i + 1].authorised || log[i + 2].authorised
  }

  /** Evaluations `a..k` form an unbroken attempt. */
  predicate Attempt(log: seq<Eval>, a: nat, k: nat) {
    && a <= k < |log|
    && log[a].authorised
    && NoThreeMisses(log[a..k + 1])
    && (forall i | a <= i <= k :: !log[i].gated)
    && (forall i | a <= i < k :: !log[i].unlocked)
  }

  /** The attempt in progress after evaluation `m`, measured by its counters. */
  predicate Live(log: seq<Eval>, a: nat, m: nat) {
    && Attempt(log, a, m) && !log[m].unlocked
    && Authorised(log[a..m + 1]) == log[m].success < REQUIRED_CONSECUTIVE
    && log[m].fail <= 2 && log[m].fail <= m - a
    && (forall i | m - log[m].fail < i <= m :: !log[i].authorised)
    && log[m - log[m].fail].authorised
    && m + 1 - a <= 3 * log[m].success - 2 + log[m].fail
  }

  lemma AttemptGrows(log: seq<Eval>, a: nat, m: nat)
    requires Attempt(log, a, m) && !log[m].unlocked
    requires m + 1 < |log| && !log[m + 1].gated
    requires log[m + 1].authorised || log[m].authorised || (m > a && log[m - 1].authorised)
    ensures Attempt(log, a, m + 1)
    ensures Authorised(log[a..m + 2]) == Authorised(log[a..m + 1]) + if log[m + 1].authorised then 1 else 0
  {
    var w, w' := log[a..m + 1], log[a..m + 2];
    assert w'[..|w|] == w;
    forall i | 0 <= i < |w'| - 2
      ensures w'[i].authorised || w'[i + 1].authorised || w'[i + 2].authorised
    {
      if i < |w| - 2 {
        assert w[i].authorised || w[i + 1].authorised || w[i + 2].authorised;
      }
    }
  }

  lemma AttemptStarts(log: seq<Eval>, m: nat)
    requires m < |log| && log[m].authorised && !log[m].gated
    ensures Attempt(log, m, m) && Authorised(log[m..m + 1]) == 1
  {
    assert log[m..m + 1] == [log[m]];
    assert Authorised([log[m]]) == Authorised([log[m]][..0]) + 1;
  }

  lemma LiveStarts(log: seq<Eval>, m: nat)
    requires m < |log| && Follows(log, m) && log[m].success > 0
    requires m == 0 || log[m - 1].success == 0
    ensures Live(log, m, m)
  {
    hide NoThreeMisses, Authorised, Attempt;
    AttemptStarts(log, m);
  }

  lemma LiveGrows(log: seq<Eval>, a: nat, m: nat)
    requires m + 1 < |log| && Follows(log, m + 1) && log[m + 1].success > 0
    requires log[m].success > 0 && Live(log, a, m)
    ensures Live(log, a, m + 1)
  {
    hide NoThreeMisses, Authorised, Attempt;
    AttemptGrows(log, a, m);
  }

  /** Whenever successes are counted, they are those of one unbroken attempt. */
  lemma {:induction false} CountersMeanAttempt(log: seq<Eval>, m: nat) returns (a: nat)
    requires Chain(log) && m < |log| && log[m].success > 0
    ensures Live(log, a, m)
  {
    hide Live, Follows;
    assert Follows(log, m);
    if m == 0 || log[m - 1].success == 0 {
      a := m;
      LiveStarts(log, m);
    } else {
      a := CountersMeanAttempt(log, m - 1);
      LiveGrows(log, a, m - 1);
    }
  }

  /** The other way: along an unbroken attempt every authorised evaluation is counted. */
  lemma {:induction false} AttemptIsCounted(log: seq<Eval>, a: nat, m: nat)
    requires Chain(log) && Attempt(log, a, m) && !log[m].unlocked
    ensures log[m].success >= Authorised(log[a..m + 1])
    ensures log[m].fail <= 2 && log[m].fail <= m - a
    ensures forall i | m - log[m].fail < i <= m :: !log[i].authorised
    decreases m
  {
    hide NoThreeMisses, Authorised;
    assert Follows(log, m);
    if m == a {
      AttemptStarts(log, m);
    } else {
      AttemptShrinks(log, a, m);
      AttemptIsCounted(log, a, m - 1);
      OneMore(log, a, m);
      LastThree(log, a, m);
    }
  }

  lemma OneMore(log: seq<Eval>, a: nat, m: nat)
    requires a < m < |log|
    ensures Authorised(log[a..m + 1]) == Authorised(log[a..m]) + if log[m].authorised then 1 else 0
  {
    assert log[a..m + 1][..m - a] == log[a..m];
  }

  lemma LastThree(log: seq<Eval>, a: nat, m: nat)
    requires a <= m < |log| && NoThreeMisses(log[a..m + 1])
    ensures m >= a + 2 ==> log[m - 2].authorised || log[m - 1].authorised || log[m].authorised
  {
    var w := log[a..m + 1];
    assert m >= a + 2 ==> w[m - a - 2].authorised || w[m - a - 1].authorised || w[m - a].authorised;
  }

  lemma AttemptShrinks(log: seq<Eval>, a: nat, m: nat)
    requires Attempt(log, a, m) && a < m
    ensures Attempt(log, a, m - 1)
  {
    var w, w' := log[a..m + 1], log[a..m];
    forall i | 0 <= i < |w'| - 2
      ensures w'[i].authorised || w'[i + 1].authorised || w'[i + 2].authorised
    {
      assert w[i].authorised || w[i + 1].authorised || w[i + 2].authorised;
    }
  }

  /** An attempt whose last evaluation is its tenth authorised one. */
  predicate Completes(log: seq<Eval>, a: nat, k: nat) {
    Attempt(log, a, k) && log[k].authorised && Authorised(log[a..k + 1]) == REQUIRED_CONSECUTIVE
  }

  lemma UnlockCompletes(log: seq<Eval>, k: nat) returns (a: nat)
    requires Chain(log) && k < |log| && log[k].unlocked
    ensures Completes(log, a, k) && k + 1 - a <= 28
  {
    assert Follows(log, k);
    a := CountersMeanAttempt(log, k - 1);
    AttemptGrows(log, a, k - 1);
    assert Follows(log, k - 1);
  }

  lemma CompletionUnlocks(log: seq<Eval>, a: nat, k: nat)
    requires Chain(log) && Completes(log, a, k)
    ensures log[k].unlocked
  {
    assert Follows(log, k);
    if a == k {
      AttemptStarts(log, k);
      assert false;
    }
    AttemptShrinks(log, a, k);
    AttemptIsCounted(log, a, k - 1);
    assert log[a..k + 1][..k - a] == log[a..k];
  }

  /** The same, without the machine's own cooldown flag. */
  ghost predicate Succeeds(log: seq<Eval>, a: nat, k: nat) {
    && a <= k < |log|
    && log[a].authorised && log[k].authorised && Authorised(log[a..k + 1]) == REQUIRED_CONSECUTIVE
    && NoThreeMisses(log[a..k + 1])
    && (forall i | a <= i <= k :: !Cooling(log, i))
    && (forall i | a <= i < k :: !log[i].unlocked)
  }

  lemma SucceedsIff(log: seq<Eval>, a: nat, k: nat)
    requires Chain(log)
    ensures Succeeds(log, a, k) <==> Completes(log, a, k)
  {
    hide Chain, Cooling, NoThreeMisses, Authorised;
    forall i | 0 <= i < |log|
      ensures log[i].gated <==> Cooling(log, i)
    {
      GatedIff(log, i);
    }
  }

  /** Over every trace of frames, an evaluation unlocks exactly when it is the tenth authorised one
      of an unbroken run of evaluations that starts with an authorised one, contains no three
      misses in a row, no earlier unlock and nothing in the cooldown of an earlier one; and such a
      run is at most 28 evaluations long. */
  lemma UnlockIff(trace: seq<Camera>, k: nat)
    requires k < |Run(trace).log|
    ensures var log := Run(trace).log;
      && (log[k].unlocked <==> exists a :: Succeeds(log, a, k))
      && (forall a :: Succeeds(log, a, k) ==> k + 1 - a <= 28)
  {
    hide Run, Completes, Succeeds, Chain;
    TraceChain(trace);
    var log := Run(trace).log;
    if log[k].unlocked {
      var a := UnlockCompletes(log, k);
      SucceedsIff(log, a, k);
    }
    forall a | Succeeds(log, a, k)
      ensures log[k].unlocked && k + 1 - a <= 28
    {
      SucceedsIff(log, a, k);
      CompletionUnlocks(log, a, k);
      CompletionIsShort(log, a, k);
    }
  }

  // ----- The cooldown -----

  /** Evaluation `k` falls into the cooldown of the unlock at `i`: no unlock, no frame without a face
      and no evaluation past the cooldown came between. */
  predicate CoolsFrom(log: seq<Eval>, i: nat, k: nat) {
    && i < k < |log| && log[i].unlocked && !log[k].cleared
    && forall j | i < j < k ::
         !log[j].unlocked && !log[j].cleared && log[j].now - log[i].done <= DOOR_OPEN_COOLDOWN
  }

  ghost predicate Cooling(log: seq<Eval>, k: nat) {
    exists i: nat :: CoolsFrom(log, i, k)
  }

  /** Up to the next unlock the gate holds back exactly as long as every frame since has a face and no
      evaluation finds the cooldown over. */
  lemma {:induction false} CooldownExact(log: seq<Eval>, i: nat, m: nat)
    requires Chain(log) && i <= m < |log| && log[i].unlocked
    requires forall j | i < j <= m :: !log[j].unlocked
    ensures log[m].leave <==>
      forall j | i < j <= m :: !log[j].cleared && log[j].now - log[i].done <= DOOR_OPEN_COOLDOWN
    ensures log[m].leave ==> log[m].since == log[i].done
    decreases m
  {
    assert Follows(log, m);
    if i < m {
      CooldownExact(log, i, m - 1);
    }
  }

  /** Where a cooldown comes from. */
  lemma {:induction false} LastUnlock(log: seq<Eval>, m: nat) returns (i: nat)
    requires Chain(log) && m < |log| && log[m].leave
    ensures i <= m && log[i].unlocked && forall j | i < j <= m :: !log[j].unlocked
  {
    assert Follows(log, m);
    if log[m].gated {
      i := LastUnlock(log, m - 1);
    } else {
      i := m;
    }
  }

  /** The machine's flag means just that. */
  lemma GatedIff(log: seq<Eval>, k: nat)
    requires Chain(log) && k < |log|
    ensures log[k].gated <==> Cooling(log, k)
  {
    assert Follows(log, k);
    if log[k].gated {
      var i := LastUnlock(log, k - 1);
      CooldownExact(log, i, k - 1);
      assert CoolsFrom(log, i, k);
    }
    if i: nat :| CoolsFrom(log, i, k) {
      CooldownExact(log, i, k - 1);
    }
  }

  /** Ten hits with at most two misses between neighbours span at most 28 evaluations. */
  lemma {:induction false} HitsSpan(log: seq<Eval>, a: nat, m: nat)
    requires a <= m < |log| && log[a].authorised && NoThreeMisses(log[a..m + 1])
    ensures var behind := if log[m].authorised then 3 else if log[m - 1].authorised then 2 else 1;
      m - a <= 3 * Authorised(log[a..m + 1]) - behind
    ensures Authorised(log[a..m + 1]) > 0
    decreases m
  {
    var w := log[a..m + 1];
    if m == a {
      assert w == [log[m]];
      assert Authorised(w) == Authorised(w[..0]) + 1;
    } else {
      assert w[..m - a] == log[a..m];
      forall i | 0 <= i < |log[a..m]| - 2
        ensures log[a..m][i].authorised || log[a..m][i + 1].authorised || log[a..m][i + 2].authorised
      {
        assert w[i].authorised || w[i + 1].authorised || w[i + 2].authorised;
      }
      HitsSpan(log, a, m - 1);
      if m >= a + 2 {
        assert w[m - a - 2].authorised || w[m - a - 1].authorised || w[m - a].authorised;
      }
    }
  }

  lemma CompletionIsShort(log: seq<Eval>, a: nat, k: nat)
    requires Completes(log, a, k)
    ensures k + 1 - a <= 28
  {
    HitsSpan(log, a, k);
  }

  lemma {:induction false} AuthorisedAtMost(log: seq<Eval>)
    ensures Authorised(log) <= |log|
  {
    if log != [] {
      AuthorisedAtMost(log[..|log| - 1]);
    }
  }

  lemma {:induction false} FramesApart(log: seq<Eval>, i: nat, k: nat)
    requires Chain(log) && i <= k < |log|
    ensures log[k].frame >= log[i].frame + 3 * (k - i)
    decreases k
  {
    if i < k {
      assert Follows(log, k);
      FramesApart(log, i, k - 1);
    }
  }

  /** Any two unlocks of a trace are at least thirty frames apart. */
  lemma UnlocksThirtyFramesApart(trace: seq<Camera>, i: nat, k: nat)
    requires i < k < |Run(trace).log| && Run(trace).log[i].unlocked && Run(trace).log[k].unlocked
    ensures Run(trace).log[k].frame >= Run(trace).log[i].frame + 30
  {
    hide Run;
    TraceChain(trace);
    var log := Run(trace).log;
    var a := UnlockCompletes(log, k);
    AuthorisedAtMost(log[a..k + 1]);
    FramesApart(log, i, k);
  }

  /** With a clock that does not run backwards, two successive unlocks with no no-face frame between
      them are more than five seconds apart, counted from the end of the first. */
  lemma UnlocksFiveSecondsApart(trace: seq<Camera>, i: nat, k: nat)
    requires i < k < |Run(trace).log| && Run(trace).log[i].unlocked && Run(trace).log[k].unlocked
    requires forall j | i < j <= k :: !Run(trace).log[j].cleared && (j < k ==> !Run(trace).log[j].unlocked)
    requires forall j | i < j <= k :: Run(trace).log[j].now <= Run(trace).log[k].now
    ensures Run(trace).log[k].now - Run(trace).log[i].done > DOOR_OPEN_COOLDOWN
  {
    hide Run;
    TraceChain(trace);
    var log := Run(trace).log;
    CooldownExact(log, i, k - 1);
    assert Follows(log, k);
  }

  // ----- Both bounds are attained -----

  function Recognised(n: nat): (r: seq<Camera>)
    ensures |r| == n
  {
    seq(n, _ => Faces(true, 0, 0))
  }

  /** A gate ready for a fresh attempt, one frame after its last evaluation. */
  predicate Ready(g: Gate) {
    g.success == 0 && g.fail == 0 && !g.needLeave && g.frameCount == g.lastHeavy + 1
  }

  lemma AppendFrame(t: seq<Camera>, n: nat)
    ensures Run(t + Recognised(n + 1)) == Extend(Run(t + Recognised(n)), Faces(true, 0, 0))
  {
    var r := t + Recognised(n + 1);
    assert r[..|r| - 1] == t + Recognised(n);
  }

  lemma HitStep(h: History)
    requires !h.gate.needLeave && h.gate.fail == 0
    requires h.gate.frameCount + 1 - h.gate.lastHeavy >= 3 ==> h.gate.success < REQUIRED_CONSECUTIVE - 1
    ensures var h', heavy := Extend(h, Faces(true, 0, 0)), h.gate.frameCount + 1 - h.gate.lastHeavy >= 3;
      && h.log <= h'.log && |h'.log| == |h.log| + (if heavy then 1 else 0)
      && h'.gate.frameCount == h.gate.frameCount + 1 && h'.gate.fail == 0 && !h'.gate.needLeave
      && h'.gate.lastHeavy == (if heavy then h.gate.frameCount + 1 else h.gate.lastHeavy)
      && h'.gate.success == h.gate.success + (if heavy then 1 else 0)
  {
  }

  lemma {:induction false} Climb(t: seq<Camera>, n: nat)
    requires Ready(Run(t).gate) && n <= 28
    ensures var h, h' := Run(t), Run(t + Recognised(n));
      && h.log <= h'.log && |h'.log| == |h.log| + (n + 1) / 3
      && h'.gate.frameCount == h.gate.frameCount + n
      && h'.gate.lastHeavy == h.gate.lastHeavy + 3 * ((n + 1) / 3)
      && h'.gate.success == (n + 1) / 3 && h'.gate.fail == 0 && !h'.gate.needLeave
  {
    hide Extend, Run;
    if n == 0 {
      assert t + Recognised(0) == t;
    } else {
      Climb(t, n - 1);
      AppendFrame(t, n - 1);
      HitStep(Run(t + Recognised(n - 1)));
    }
  }

  lemma TenHits(t: seq<Camera>)
    requires Ready(Run(t).gate)
    ensures var h, h' := Run(t), Run(t + Recognised(29));
      && h.log <= h'.log && h'.log != []
      && (var e := h'.log[|h'.log| - 1];
          && e.unlocked && e.now == 0 && e.done == 0 && e.frame == h.gate.frameCount + 29)
      && h'.gate.frameCount == h.gate.frameCount + 29 == h'.gate.lastHeavy
      && h'.gate.success == 0 && h'.gate.fail == 0
  {
    hide Run, Extend;
    Climb(t, 28);
    AppendFrame(t, 28);
    LastHit(Run(t + Recognised(28)));
  }

  /** The tenth success, on a frame that evaluates. */
  lemma LastHit(h: History)
    requires !h.gate.needLeave && h.gate.success == 9 && h.gate.frameCount + 1 - h.gate.lastHeavy >= 3
    ensures var h' := Extend(h, Faces(true, 0, 0));
      && |h'.log| == |h.log| + 1 && h.log <= h'.log
      && (var e := h'.log[|h.log|];
          e.unlocked && e.now == 0 && e.done == 0 && e.frame == h.gate.frameCount + 1)
      && h'.gate.frameCount == h.gate.frameCount + 1 == h'.gate.lastHeavy
      && h'.gate.success == 0 && h'.gate.fail == 0
  {
  }

  /** One no-face frame ends the cooldown at once: two unlocks can come exactly thirty frames apart
      with no time between them, so both hypotheses of the five-second bound matter. */
  lemma StepAwayAndBack()
    ensures exists trace: seq<Camera>, i: nat, k: nat ::
      (&& i < k < |Run(trace).log|
       && Run(trace).log[i].unlocked && Run(trace).log[k].unlocked
       && Run(trace).log[k].frame == Run(trace).log[i].frame + 30
       && Run(trace).log[k].now == Run(trace).log[i].done)
  {
    hide Extend;
    assert Ready(Run([]).gate);
    TenHits([]);
    var t1 := [] + Recognised(29);
    var t2 := t1 + [NoFace];
    assert t2[..|t1|] == t1;
    NoFaceReadies(Run(t1));
    TenHits(t2);
    var trace := t2 + Recognised(29);
    var log1, log2 := Run(t1).log, Run(trace).log;
    assert log2[|log1| - 1] == log1[|log1| - 1];
    assert log2[|log2| - 1].frame != log1[|log1| - 1].frame;
  }

  lemma NoFaceReadies(h: History)
    ensures Extend(h, NoFace).log == h.log
    ensures h.gate.success == 0 && h.gate.fail == 0 && h.gate.frameCount == h.gate.lastHeavy
      ==> Ready(Extend(h, NoFace).gate)
    ensures Extend(h, NoFace).gate.frameCount == h.gate.frameCount + 1
  {
  }
}
