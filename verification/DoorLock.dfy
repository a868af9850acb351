/** The door-lock thread as a machine of atomic sections, interleaved with the timer, with
    threads that post events and with observers of the door state. */
module DoorLock {
  import opened Wrappers

  datatype DoorEvent = Open | Close | Stop | Key | OpenAlarm

  datatype DoorState = Locked | Opening | Opened | Closing

  /** Where the door thread stands; it holds the event batch of its iteration. */
  datatype Pc =
    | Waiting        // blocked on the event object
    | CloseTest      // about to test the state under the mutex, with CLOSE in the batch
    | CloseRelay     // about to release the relay
    | CloseTimer     // servo moving; about to stop the timer
    | CloseDone      // about to record LOCKED
    | Repost         // about to send KEY and OPEN again
    | OpenTest       // about to test the state under the mutex, no CLOSE in the batch
    | OpenRelay      // about to energise the relay
    | OpenDone       // about to record OPEN
    | OpenTimer      // about to start or stop the timer
    | StopRelay      // left the loop; about to release the relay
    | Exited

  /** `auto` is a history variable: whether the last request that set the auto-close policy of the
      open door armed the timer. */
  datatype Door = Door(pc: Pc, batch: set<DoorEvent>, state: DoorState, relay: bool, armed: bool,
                       pending: set<DoorEvent>, auto: bool)

  const INITIAL := Door(Waiting, {}, Locked, false, false, {}, false)

  datatype Move = Post(e: DoorEvent) | Expire | Thread

  predicate Enabled(d: Door, m: Move) {
    match m
    case Post(_) => true
    case Expire => d.armed
    case Thread => d.pc != Exited && (d.pc == Waiting ==> d.pending != {})
  }

  const REQUESTS: set<DoorEvent> := {Key, Open}

  function Receive(d: Door): Door
    requires d.pc == Waiting
  {
    var pc := if Stop in d.pending then StopRelay else if Close in d.pending then CloseTest else OpenTest;
    d.(pc := pc, batch := d.pending, pending := {})
  }

  /** The next atomic section of the door thread. */
  function ThreadStep(d: Door): Door
    requires Enabled(d, Thread)
  {
    match d.pc
    case Waiting => Receive(d)
    case CloseTest => if d.state == Opened then d.(pc := CloseRelay, state := Closing) else d.(pc := Repost)
    case CloseRelay => d.(pc := CloseTimer, relay := false)
    case CloseTimer => d.(pc := CloseDone, armed := false)
    case CloseDone => d.(pc := Repost, state := Locked, auto := false)
    case Repost => d.(pc := Waiting, pending := d.pending + d.batch * REQUESTS)
    case OpenTest =>
      if d.state == Locked then d.(pc := OpenRelay, state := Opening)
      else if OpenAlarm in d.batch then d.(pc := Waiting)
      else d.(pc := Waiting, armed := true, auto := true)
    case OpenRelay => d.(pc := OpenDone, relay := true)
    case OpenDone => d.(pc := OpenTimer, state := Opened)
    case OpenTimer => d.(pc := Waiting, armed := OpenAlarm !in d.batch, auto := OpenAlarm !in d.batch)
    case StopRelay => d.(pc := Exited, relay := false)
    case Exited => d
  }

  function Next(d: Door, m: Move): Door
    requires Enabled(d, m)
  {
    match m
    case Post(e) => d.(pending := d.pending + {e})
    case Expire => d.(armed := false, pending := d.pending + {Close})
    case Thread => ThreadStep(d)
  }

  // ----- The objects the source updates in place -----

  class DoorLock {
    /** Whether start-up created the mutex and the event object; it creates both or neither, and
        without them there is no door thread. */
    const ready: bool
    var pc: Pc
    var events: set<DoorEvent>
    var doorState: DoorState
    var relayOn: bool
    var timerArmed: bool
    var pending: set<DoorEvent>
    var auto: bool

    function View(): Door
      reads this
    {
      Door(pc, events, doorState, relayOn, timerArmed, pending, auto)
    }

    constructor (ready: bool)
      ensures View() == INITIAL && this.ready == ready
    {
      this.ready := ready;
      pc, events, doorState, relayOn, timerArmed, pending, auto := Waiting, {}, Locked, false, false, {}, false;
    }

    /** The posting calls: key, open, open without auto-close, close, stop.  They report an error and
        do nothing while there is no event object. */
    method Send(e: DoorEvent) returns (ok: bool)
      modifies this
      ensures ok == ready
      ensures View() == if ready then Next(old(View()), Post(e)) else old(View())
    {
      if !ready {
        return false;
      }
      pending := pending + {e};
      ok := true;
    }

    /** The one-shot timer runs out: it is disarmed and its callback posts CLOSE. */
    method TimerCallback()
      requires ready && timerArmed
      modifies this
      ensures View() == Next(old(View()), Expire)
    {
      timerArmed := false;
      var _ := Send(Close);
    }

    /** The recorded state, or `None` for the error answer before start-up.  Between iterations it
        tells whether the relay is energised; at any other point, until the thread has left its
        loop, OPEN still means energised and LOCKED released with no timer running, and the
        passing states mean an iteration under way. */
    method GetState() returns (s: Option<DoorState>)
      requires ready ==> Inv(View())
      ensures s == if ready then Some(doorState) else None
      ensures s.Some? && pc == Waiting ==> s.value in {Opened, Locked} && (s.value == Opened <==> relayOn)
      ensures s == Some(Opened) ==> relayOn || pc == Exited
      ensures s == Some(Locked) ==> !relayOn && !timerArmed
      ensures s == Some(Opening) || s == Some(Closing) ==> pc != Waiting && pc != Exited
    {
      if !ready {
        return None;
      }
      s := Some(doorState);
    }

    /** False before start-up.  Between iterations it is the state of the relay; True means the relay
        is energised unless the thread has left its loop. */
    method IsOpen() returns (open: bool)
      requires ready ==> Inv(View())
      ensures open <==> ready && doorState == Opened
      ensures ready && pc == Waiting ==> (open <==> relayOn)
      ensures open ==> relayOn || pc == Exited
    {
      if !ready {
        return false;
      }
      open := doorState == Opened;
    }

    method RestartTimer()
      modifies this
      ensures View() == old(View()).(armed := true)
    {
      timerArmed := false;
      timerArmed := true;
    }

    /** Runs the door thread up to the end of its next atomic section. */
    method Resume()
      requires ready && Enabled(View(), Thread)
      modifies this
      ensures View() == Next(old(View()), Thread)
    {
      match pc {
        case Waiting =>
          events := pending;
          pending := {};
          if Stop in events {
            pc := StopRelay;
          } else if Close in events {
            pc := CloseTest;
          } else {
            pc := OpenTest;
          }
        case CloseTest =>
          var needClose := false;
          if doorState == Opened {
            doorState := Closing;
            needClose := true;
          }
          pc := if needClose then CloseRelay else Repost;
        case CloseRelay =>
          relayOn := false;
          pc := CloseTimer;
        case CloseTimer =>
          timerArmed := false;
          pc := CloseDone;
        case CloseDone =>
          doorState := Locked;
          auto := false;
          pc := Repost;
        case Repost =>
          pending := pending + events * {Key, Open};
          pc := Waiting;
        case OpenTest =>
          var noAuto := OpenAlarm in events;
          if doorState == Locked {
            doorState := Opening;
            pc := OpenRelay;
          } else {
            if !noAuto {
              RestartTimer();
              auto := true;
            }
            pc := Waiting;
          }
        case OpenRelay =>
          relayOn := true;
          pc := OpenDone;
        case OpenDone =>
          doorState := Opened;
          pc := OpenTimer;
        case OpenTimer =>
          var noAuto := OpenAlarm in events;
          if !noAuto {
            RestartTimer();
          } else {
            timerArmed := false;
          }
          auto := !noAuto;
          pc := Waiting;
        case StopRelay =>
          relayOn := false;
          pc := Exited;
        case Exited =>
      }
    }
  }

  // ----- Runs -----

  ghost predicate Run(ds: seq<Door>, ms: seq<Move>) {
    && |ds| == |ms| + 1
    && forall k | 0 <= k < |ms| :: Enabled(ds[k], ms[k]) && ds[k + 1] == Next(ds[k], ms[k])
  }

  /** What holds at each point of the door thread. */
  predicate Inv(d: Door) {
    && (d.state == Locked ==> !d.armed)
    && match d.pc
       case Waiting => Settled(d) && AutoKept(d)
       case CloseTest => Settled(d) && Close in d.batch
       case CloseRelay => d.state == Closing && d.relay && Close in d.batch
       case CloseTimer => d.state == Closing && !d.relay && Close in d.batch
       case CloseDone => d.state == Closing && !d.relay && !d.armed && Close in d.batch
       case Repost => d.state == Locked && !d.relay && !d.auto && Close in d.batch
       case OpenTest => Settled(d) && Close !in d.batch && AutoKept(d)
       case OpenRelay => d.state == Opening && !d.relay && !d.armed && Close !in d.batch
       case OpenDone => d.state == Opening && d.relay && !d.armed && Close !in d.batch
       case OpenTimer => d.state == Opened && d.relay && !d.armed && Close !in d.batch
       case StopRelay => Settled(d)
       case Exited => !d.relay && (d.state == Locked || d.state == Opened)
  }

  /** The door is at rest and the relay agrees with the recorded state. */
  predicate Settled(d: Door) {
    && (d.state == Locked || d.state == Opened)
    && d.relay == (d.state == Opened)
    && (d.state == Locked ==> !d.auto)
  }

  /** An open door that auto-closes has its timer armed or CLOSE on the way; one that does not
      has no armed timer. */
  predicate AutoKept(d: Door) {
    d.state == Opened ==> if d.auto then d.armed || Close in d.pending else !d.armed
  }

  lemma StepKeepsInv(d: Door, m: Move)
    requires Inv(d) && Enabled(d, m)
    ensures Inv(Next(d, m))
  {
  }

  lemma {:induction false} RunKeepsInv(ds: seq<Door>, ms: seq<Move>, k: nat)
    requires Run(ds, ms) && Inv(ds[0]) && k <= |ms|
    ensures Inv(ds[k])
  {
    if k > 0 {
      RunKeepsInv(ds, ms, k - 1);
      StepKeepsInv(ds[k - 1], ms[k - 1]);
    }
  }

  /** In every interleaving, whatever an observer reads before the thread has left its loop agrees
      with the relay: OPEN only with the relay energised, LOCKED only with it released and the
      timer unarmed, and OPENING or CLOSING only while the thread is inside an iteration. */
  lemma ObservationsAreSafe(ds: seq<Door>, ms: seq<Move>, k: nat)
    requires Run(ds, ms) && ds[0] == INITIAL && k < |ds|
    ensures var d := ds[k];
      && (d.state == Opened && d.pc != Exited ==> d.relay)
      && (d.state == Locked ==> !d.relay && !d.armed)
      && (d.state == Opening || d.state == Closing ==> d.pc != Waiting && d.pc != Exited)
  {
    RunKeepsInv(ds, ms, k);
  }

  /** Leaving the loop on STOP is the one point where the two part: afterwards the relay is
      released, and the recorded state still says OPEN exactly when it did at the STOP batch. */
  lemma StopKeepsRecordedState(ds: seq<Door>, ms: seq<Move>, i: nat, k: nat)
    requires Run(ds, ms) && ds[0] == INITIAL && i < k < |ds|
    requires ds[i].pc == Waiting && ds[i + 1].pc == StopRelay
    requires ds[k].pc == Exited
    ensures !ds[k].relay
    ensures ds[k].state == Opened <==> ds[i].relay
  {
    RunKeepsInv(ds, ms, i);
    RunKeepsInv(ds, ms, k);
    StoppedStays(ds, ms, i + 1, k);
  }

  lemma {:induction false} StoppedStays(ds: seq<Door>, ms: seq<Move>, i: nat, k: nat)
    requires Run(ds, ms) && i <= k < |ds|
    requires ds[i].pc == StopRelay || ds[i].pc == Exited
    ensures (ds[k].pc == StopRelay || ds[k].pc == Exited) && ds[k].state == ds[i].state
    decreases k
  {
    if k > i {
      StoppedStays(ds, ms, i, k - 1);
      assert ds[k] == Next(ds[k - 1], ms[k - 1]);
    }
  }

  /** STOP comes before everything else in its batch: from the batch that holds it the thread takes no
      further batch, and once it has exited the relay is off. */
  lemma StopEnds(ds: seq<Door>, ms: seq<Move>, i: nat, k: nat)
    requires Run(ds, ms) && ds[0] == INITIAL && i < k < |ds|
    requires TakesBatch(ds, ms, i) && Stop in ds[i].pending
    ensures ds[k].pc == StopRelay || ds[k].pc == Exited
    ensures ds[k].pc == Exited ==> !ds[k].relay
    ensures ds[k].state == ds[i].state
  {
    StoppedStays(ds, ms, i + 1, k);
    RunKeepsInv(ds, ms, k);
  }

  /** And it leaves its loop for no other reason. */
  lemma {:induction false} LeavesOnStop(ds: seq<Door>, ms: seq<Move>, k: nat) returns (i: nat)
    requires Run(ds, ms) && ds[0] == INITIAL && k < |ds| && (ds[k].pc == StopRelay || ds[k].pc == Exited)
    ensures i < k && TakesBatch(ds, ms, i) && Stop in ds[i].pending
    decreases k
  {
    assert k > 0;
    if ds[k - 1].pc == StopRelay || ds[k - 1].pc == Exited {
      i := LeavesOnStop(ds, ms, k - 1);
    } else {
      i := k - 1;
    }
  }

  /** The timer is one-shot: between two expiries the thread has started it again. */
  lemma {:induction false} OneShot(ds: seq<Door>, ms: seq<Move>, i: nat, k: nat) returns (j: nat)
    requires Run(ds, ms) && i < k < |ms| && ms[i] == Expire && ms[k] == Expire
    ensures i < j < k && ms[j] == Thread && !ds[j].armed && ds[j + 1].armed
    ensures Close in ds[i + 1].pending
  {
    j := Restarted(ds, ms, i + 1, k);
  }

  lemma {:induction false} Restarted(ds: seq<Door>, ms: seq<Move>, i: nat, k: nat) returns (j: nat)
    requires Run(ds, ms) && i <= k < |ds| && !ds[i].armed && ds[k].armed
    ensures i <= j < k && ms[j] == Thread && !ds[j].armed && ds[j + 1].armed
    decreases k
  {
    if ds[k - 1].armed {
      j := Restarted(ds, ms, i, k - 1);
    } else {
      j := k - 1;
    }
  }

  /** Such a run: a key press opens the door, and STOP comes while it is open. */
  lemma StopWhileOpen()
    ensures exists ds: seq<Door>, ms: seq<Move> ::
      (&& Run(ds, ms) && ds[0] == INITIAL
       && var d := ds[|ds| - 1]; d.pc == Exited && d.state == Opened && !d.relay)
  {
    var ms := [Post(Key), Thread, Thread, Thread, Thread, Thread, Post(Stop), Thread, Thread];
    var d0 := INITIAL;
    var d1 := Next(d0, Post(Key));
    assert Key in d1.pending;
    var d2 := Next(d1, Thread);
    assert d2.pc == OpenTest;
    var d3 := Next(d2, Thread);
    var d4 := Next(d3, Thread);
    var d5 := Next(d4, Thread);
    var d6 := Next(d5, Thread);
    var d7 := Next(d6, Post(Stop));
    assert Stop in d7.pending;
    var d8 := Next(d7, Thread);
    var d9 := Next(d8, Thread);
    assert Run([d0, d1, d2, d3, d4, d5, d6, d7, d8, d9], ms);
  }

  // ----- Iterations -----

  /** The thread takes a batch at step `i`. */
  predicate TakesBatch(ds: seq<Door>, ms: seq<Move>, i: nat)
    requires i < |ms| && |ds| == |ms| + 1
  {
    ds[i].pc == Waiting && ms[i] == Thread
  }

  /** The thread comes back to the loop head at step `j`. */
  predicate EndsIteration(ds: seq<Door>, ms: seq<Move>, j: nat)
    requires j < |ms| && |ds| == |ms| + 1
  {
    ds[j].pc != Waiting && ds[j + 1].pc == Waiting
  }

  /** A request that has been taken but not yet answered by an opening. */
  predicate Owed(d: Door) {
    if d.pc == Waiting then d.pending * REQUESTS != {} else d.batch * REQUESTS != {}
  }

  predicate Active(d: Door) {
    Stop !in d.pending && d.pc != StopRelay && d.pc != Exited
  }

  lemma OwedStep(d: Door, m: Move)
    requires Inv(d) && Enabled(d, m) && Owed(d) && Active(d) && Active(Next(d, m))
    ensures var d' := Next(d, m);
      if d.pc != Waiting && d'.pc == Waiting && Close !in d.batch then d'.state == Opened else Owed(d')
  {
    var d' := Next(d, m);
    if d.pc == Waiting {
      assert d.pending <= d'.pending + d'.batch;
      var e :| e in d.pending * REQUESTS;
      assert e in if d'.pc == Waiting then d'.pending * REQUESTS else d'.batch * REQUESTS;
    } else if d'.pc == Waiting && Close in d.batch {
      var e :| e in d.batch * REQUESTS;
      assert e in d'.pending * REQUESTS;
    }
  }

  lemma {:induction false} StillOwed(ds: seq<Door>, ms: seq<Move>, i: nat, j: nat)
    requires Run(ds, ms) && ds[0] == INITIAL && i < j <= |ms|
    requires forall k | 0 <= k < |ds| :: Active(ds[k])
    requires TakesBatch(ds, ms, i) && ds[i].pending * REQUESTS != {}
    requires forall k | i < k < j :: EndsIteration(ds, ms, k) ==> Close in ds[k].batch
    ensures Owed(ds[j])
    decreases j
  {
    hide Next, Inv, Owed, Active;
    if j == i + 1 {
      TakenRequest(ds[i]);
    } else {
      StillOwed(ds, ms, i, j - 1);
      RunKeepsInv(ds, ms, j - 1);
      assert Active(ds[j - 1]) && Active(ds[j]);
      OwedStep(ds[j - 1], ms[j - 1]);
      assert EndsIteration(ds, ms, j - 1) ==> Close in ds[j - 1].batch;
    }
  }

  lemma TakenRequest(d: Door)
    requires d.pc == Waiting && Enabled(d, Thread) && d.pending * REQUESTS != {}
    ensures Owed(Next(d, Thread))
  {
    assert Next(d, Thread) == Receive(d);
  }

  /** No open request is lost: in every interleaving without STOP, once a batch contains KEY or
      OPEN, the door is open at the end of the first iteration from then on whose batch has no
      CLOSE, however many CLOSE batches come between. */
  lemma OpenRequestNeverLost(ds: seq<Door>, ms: seq<Move>, i: nat, j: nat)
    requires Run(ds, ms) && ds[0] == INITIAL && i < j < |ms|
    requires forall k | 0 <= k < |ds| :: Active(ds[k])
    requires TakesBatch(ds, ms, i) && ds[i].pending * REQUESTS != {}
    requires EndsIteration(ds, ms, j) && Close !in ds[j].batch
    requires forall k | i < k < j :: EndsIteration(ds, ms, k) ==> Close in ds[k].batch
    ensures ds[j + 1].state == Opened && ds[j + 1].relay
  {
    StillOwed(ds, ms, i, j);
    RunKeepsInv(ds, ms, j);
    RunKeepsInv(ds, ms, j + 1);
    OwedStep(ds[j], ms[j]);
  }

  lemma PendingStep(d: Door, m: Move)
    requires Enabled(d, m) && !(d.pc == Waiting && m == Thread)
    ensures d.pending <= Next(d, m).pending
  {
  }

  lemma {:induction false} StillPending(ds: seq<Door>, ms: seq<Move>, p: nat, i: nat)
    requires Run(ds, ms) && p <= i <= |ms| && Open in ds[p].pending
    requires forall k | p <= k < i :: !TakesBatch(ds, ms, k)
    ensures Open in ds[i].pending
    decreases i
  {
    hide Next;
    if i > p {
      StillPending(ds, ms, p, i - 1);
      assert !TakesBatch(ds, ms, i - 1);
      PendingStep(ds[i - 1], ms[i - 1]);
    }
  }

  /** From the post: with OPEN pending at `p`, the next batch taken at `i`, and `j` the end of the
      first iteration from there on whose batch has no CLOSE, the door is open after `j`. */
  lemma PostedRequestOpens(ds: seq<Door>, ms: seq<Move>, p: nat, i: nat, j: nat)
    requires Run(ds, ms) && ds[0] == INITIAL && p <= i < j < |ms|
    requires forall k | 0 <= k < |ds| :: Active(ds[k])
    requires Open in ds[p].pending && (forall k | p <= k < i :: !TakesBatch(ds, ms, k)) && TakesBatch(ds, ms, i)
    requires EndsIteration(ds, ms, j) && Close !in ds[j].batch
    requires forall k | i < k < j :: EndsIteration(ds, ms, k) ==> Close in ds[k].batch
    ensures ds[j + 1].state == Opened && ds[j + 1].relay
  {
    hide Active, Next;
    StillPending(ds, ms, p, i);
    assert Open in ds[i].pending * REQUESTS;
    OpenRequestNeverLost(ds, ms, i, j);
  }

  lemma {:induction false} BatchHeld(ds: seq<Door>, ms: seq<Move>, i: nat, j: nat)
    requires Run(ds, ms) && i < j <= |ms|
    requires TakesBatch(ds, ms, i)
    requires forall k | i < k < j :: !EndsIteration(ds, ms, k)
    ensures ds[j].pc != Waiting && ds[j].batch == ds[i].pending
    decreases j
  {
    hide Next;
    if j == i + 1 {
      TakenBatch(ds[i]);
    } else {
      BatchHeld(ds, ms, i, j - 1);
      assert !EndsIteration(ds, ms, j - 1);
      BatchKept(ds[j - 1], ms[j - 1]);
    }
  }

  lemma TakenBatch(d: Door)
    requires d.pc == Waiting && Enabled(d, Thread)
    ensures Next(d, Thread).batch == d.pending && Next(d, Thread).pc != Waiting
  {
  }

  lemma BatchKept(d: Door, m: Move)
    requires Enabled(d, m) && d.pc != Waiting
    ensures Next(d, m).batch == d.batch
  {
  }

  /** An iteration whose batch asks for an opening of any kind ends with the door open exactly when
      the batch has no CLOSE.  A CLOSE batch sends KEY and OPEN again but not OPEN_ALARM. */
  lemma IterationOutcome(ds: seq<Door>, ms: seq<Move>, i: nat, j: nat)
    requires Run(ds, ms) && ds[0] == INITIAL && i < j < |ms|
    requires TakesBatch(ds, ms, i) && Stop !in ds[i].pending
    requires EndsIteration(ds, ms, j)
    requires forall k | i < k < j :: !EndsIteration(ds, ms, k)
    ensures ds[j + 1].state == Opened <==> Close !in ds[i].pending
    ensures ds[j + 1].pending == ds[j].pending + if Close in ds[i].pending then ds[i].pending * REQUESTS else {}
  {
    BatchHeld(ds, ms, i, j);
    RunKeepsInv(ds, ms, j);
    assert ms[j].Thread?;
  }

  /** So an alarm that comes in one batch with CLOSE is lost: the door is still locked afterwards, and
      nothing is pending. */
  lemma AlarmDropped()
    ensures exists ds: seq<Door>, ms: seq<Move> ::
      (&& Run(ds, ms) && ds[0] == INITIAL && |ms| == 5
       && ms[0] == Post(OpenAlarm) && ms[1] == Post(Close) && TakesBatch(ds, ms, 2) && EndsIteration(ds, ms, 4)
       && ds[5].state == Locked && !ds[5].relay && ds[5].pending == {})
  {
    var ms := [Post(OpenAlarm), Post(Close), Thread, Thread, Thread];
    var d0 := INITIAL;
    var d1 := Next(d0, Post(OpenAlarm));
    var d2 := Next(d1, Post(Close));
    assert Close in d2.pending && Stop !in d2.pending;
    var d3 := Next(d2, Thread);
    assert d3.pc == CloseTest && d3.batch == {OpenAlarm, Close};
    var d4 := Next(d3, Thread);
    var d5 := Next(d4, Thread);
    assert d4.batch * REQUESTS == {};
    var ds := [d0, d1, d2, d3, d4, d5];
    assert Run(ds, ms);
  }

  // ----- Auto-close and evacuation -----

  /** An iteration without CLOSE or STOP: the batch taken at `i` and the return to the loop head
      at `j`. */
  ghost predicate Iteration(ds: seq<Door>, ms: seq<Move>, i: nat, j: nat)
    requires |ds| == |ms| + 1
  {
    && i < j < |ms| && TakesBatch(ds, ms, i) && EndsIteration(ds, ms, j)
    && (forall k | i < k < j :: !EndsIteration(ds, ms, k))
    && Close !in ds[i].pending && Stop !in ds[i].pending
  }

  /** Inside an iteration without CLOSE: a locked door is being opened, an open one is left as it is. */
  predicate OnPath(d: Door, found: DoorState, batch: set<DoorEvent>) {
    && (d.pc == OpenTest || d.pc == OpenRelay || d.pc == OpenDone || d.pc == OpenTimer)
    && (d.pc == OpenTest <==> d.state == found)
    && (d.pc != OpenTest ==> found == Locked)
    && d.batch == batch
  }

  lemma PathStep(d: Door, m: Move, found: DoorState, batch: set<DoorEvent>)
    requires Inv(d) && Enabled(d, m) && OnPath(d, found, batch) && Next(d, m).pc != Waiting
    ensures OnPath(Next(d, m), found, batch)
  {
  }

  lemma PathStarts(d: Door)
    requires Inv(d) && d.pc == Waiting && Enabled(d, Thread) && Close !in d.pending && Stop !in d.pending
    ensures OnPath(Next(d, Thread), d.state, d.pending)
  {
  }

  lemma {:induction false} OpeningPath(ds: seq<Door>, ms: seq<Move>, i: nat, k: nat)
    requires Run(ds, ms) && ds[0] == INITIAL && i < k <= |ms|
    requires TakesBatch(ds, ms, i) && Close !in ds[i].pending && Stop !in ds[i].pending
    requires forall m | i < m < k :: !EndsIteration(ds, ms, m)
    ensures OnPath(ds[k], ds[i].state, ds[i].pending)
    decreases k
  {
    hide Next, Inv;
    if k == i + 1 {
      RunKeepsInv(ds, ms, i);
      PathStarts(ds[i]);
    } else {
      OpeningPath(ds, ms, i, k - 1);
      assert !EndsIteration(ds, ms, k - 1);
      RunKeepsInv(ds, ms, k - 1);
      PathStep(ds[k - 1], ms[k - 1], ds[i].state, ds[i].pending);
    }
  }

  /** What an opening request does to the timer: without an alarm it is running afterwards, whether
      the door was locked or already open; an alarm that opens the door leaves it stopped; an alarm
      on an open door leaves it as it is. */
  lemma TimerOutcome(ds: seq<Door>, ms: seq<Move>, i: nat, j: nat)
    requires Run(ds, ms) && ds[0] == INITIAL && Iteration(ds, ms, i, j)
    ensures OpenAlarm !in ds[i].pending ==> ds[j + 1].armed
    ensures OpenAlarm in ds[i].pending && ds[i].state == Locked ==> !ds[j + 1].armed
    ensures OpenAlarm in ds[i].pending && ds[i].state == Opened ==> ds[j + 1].armed == ds[j].armed
    ensures ds[i].state == Locked || ds[i].state == Opened
    ensures ds[j + 1].state == Opened
  {
    RunKeepsInv(ds, ms, i);
    RunKeepsInv(ds, ms, j);
    OpeningPath(ds, ms, i, j);
    assert ms[j].Thread?;
  }

  /** The open door since an iteration without CLOSE: between iterations it stays open, and `auto`
      keeps the policy that iteration set. */
  predicate Kept(d: Door, arms: bool) {
    match d.pc
    case Waiting => d.state == Opened && d.auto == arms
    case OpenTest => d.state == Opened && d.auto == arms
    case StopRelay => true
    case Exited => true
    case _ => Close in d.batch
  }

  lemma KeptStep(d: Door, m: Move, arms: bool)
    requires Inv(d) && Enabled(d, m) && Kept(d, arms)
    requires d.pc != Waiting && Next(d, m).pc == Waiting ==> Close !in d.batch && (arms || OpenAlarm in d.batch)
    ensures Kept(Next(d, m), arms)
  {
  }

  /** Since the iteration that ended at `j`, no iteration had CLOSE, and none asked for auto-close
      unless the policy is to have it. */
  ghost predicate Since(ds: seq<Door>, ms: seq<Move>, j: nat, k: nat, arms: bool)
    requires |ds| == |ms| + 1 && k <= |ms|
  {
    forall m | j < m < k && EndsIteration(ds, ms, m) :: Close !in ds[m].batch && (arms || OpenAlarm in ds[m].batch)
  }

  lemma {:induction false} PolicyKept(ds: seq<Door>, ms: seq<Move>, j: nat, k: nat, arms: bool)
    requires Run(ds, ms) && ds[0] == INITIAL && j < k <= |ms|
    requires ds[j + 1].pc == Waiting && ds[j + 1].state == Opened && ds[j + 1].auto == arms
    requires Since(ds, ms, j, k, arms)
    ensures Kept(ds[k], arms)
    decreases k
  {
    hide Next, Inv;
    if k > j + 1 {
      PolicyKept(ds, ms, j, k - 1, arms);
      RunKeepsInv(ds, ms, k - 1);
      assert EndsIteration(ds, ms, k - 1) ==> Close !in ds[k - 1].batch && (arms || OpenAlarm in ds[k - 1].batch);
      KeptStep(ds[k - 1], ms[k - 1], arms);
    }
  }

  /** The policy of an open door, told from the batches taken: the iteration `(i, j)` had no CLOSE,
      and either did not come from an alarm, or came from one and found the door locked; since then
      no iteration had CLOSE or changed the policy. */
  ghost predicate Policy(ds: seq<Door>, ms: seq<Move>, i: nat, j: nat, k: nat, arms: bool)
    requires |ds| == |ms| + 1
  {
    && k <= |ms| && j < k && Iteration(ds, ms, i, j)
    && arms == (OpenAlarm !in ds[i].pending) && (arms || ds[i].state == Locked)
    && Since(ds, ms, j, k, arms)
  }

  /** What the iteration that sets the policy leaves behind. */
  lemma PolicySet(ds: seq<Door>, ms: seq<Move>, i: nat, j: nat)
    requires Run(ds, ms) && ds[0] == INITIAL && Iteration(ds, ms, i, j)
    requires OpenAlarm in ds[i].pending ==> ds[i].state == Locked
    ensures ds[j + 1].state == Opened && ds[j + 1].auto == (OpenAlarm !in ds[i].pending)
  {
    RunKeepsInv(ds, ms, i);
    RunKeepsInv(ds, ms, j);
    OpeningPath(ds, ms, i, j);
    assert ms[j].Thread?;
  }

  /** At the loop head, a door whose policy, told from the batches, is to close has its timer running
      or CLOSE pending; one whose policy is to stay open has no running timer. */
  lemma AutoCloseHolds(ds: seq<Door>, ms: seq<Move>, i: nat, j: nat, k: nat, arms: bool)
    requires Run(ds, ms) && ds[0] == INITIAL && Policy(ds, ms, i, j, k, arms) && ds[k].pc == Waiting
    ensures ds[k].state == Opened
    ensures if arms then ds[k].armed || Close in ds[k].pending else !ds[k].armed
  {
    hide Since, Iteration;
    PolicySet(ds, ms, i, j) by { PolicyParts(ds, ms, i, j, k, arms); }
    PolicyParts(ds, ms, i, j, k, arms);
    PolicyKept(ds, ms, j, k, arms);
    RunKeepsInv(ds, ms, k);
  }

  lemma PolicyParts(ds: seq<Door>, ms: seq<Move>, i: nat, j: nat, k: nat, arms: bool)
    requires |ds| == |ms| + 1 && Policy(ds, ms, i, j, k, arms)
    ensures Iteration(ds, ms, i, j) && Since(ds, ms, j, k, arms) && i < j < |ms| && ds[j + 1].pc == Waiting
  {
  }

  /** Where the iteration that ends at `j` took its batch. */
  lemma {:induction false} BatchOf(ds: seq<Door>, ms: seq<Move>, j: nat) returns (i: nat)
    requires Run(ds, ms) && ds[0] == INITIAL && j <= |ms| && ds[j].pc != Waiting
    ensures i < j && TakesBatch(ds, ms, i) && forall k | i < k < j :: !EndsIteration(ds, ms, k)
    decreases j
  {
    if ds[j - 1].pc == Waiting {
      i := j - 1;
    } else {
      i := BatchOf(ds, ms, j - 1);
    }
  }

  /** Every open door at the loop head has such a policy. */
  lemma {:induction false} OpenDoorHasPolicy(ds: seq<Door>, ms: seq<Move>, k: nat)
    returns (i: nat, j: nat, arms: bool)
    requires Run(ds, ms) && ds[0] == INITIAL && k <= |ms| && ds[k].pc == Waiting && ds[k].state == Opened
    ensures Policy(ds, ms, i, j, k, arms)
    decreases k
  {
    hide Next, Iteration, Since, Policy;
    assert k > 0;
    if ds[k - 1].pc == Waiting {
      WaitingStep(ds[k - 1], ms[k - 1]);
      i, j, arms := OpenDoorHasPolicy(ds, ms, k - 1);
      PolicyQuiet(ds, ms, i, j, k - 1, arms);
    } else {
      var b := BatchOf(ds, ms, k - 1);
      EndedOpen(ds, ms, b, k - 1);
      if OpenAlarm !in ds[b].pending || ds[b].state == Locked {
        i, j, arms := b, k - 1, OpenAlarm !in ds[b].pending;
        PolicyStarts(ds, ms, i, j);
      } else {
        i, j, arms := OpenDoorHasPolicy(ds, ms, b);
        PolicyGrows(ds, ms, i, j, b, k, arms);
      }
    }
  }

  lemma WaitingStep(d: Door, m: Move)
    requires Enabled(d, m) && d.pc == Waiting && Next(d, m).pc == Waiting
    ensures Next(d, m).state == d.state
  {
  }

  lemma PolicyStarts(ds: seq<Door>, ms: seq<Move>, i: nat, j: nat)
    requires |ds| == |ms| + 1 && Iteration(ds, ms, i, j)
    requires OpenAlarm !in ds[i].pending || ds[i].state == Locked
    ensures Policy(ds, ms, i, j, j + 1, OpenAlarm !in ds[i].pending)
  {
  }

  lemma PolicyQuiet(ds: seq<Door>, ms: seq<Move>, i: nat, j: nat, k: nat, arms: bool)
    requires |ds| == |ms| + 1 && k < |ms| && Policy(ds, ms, i, j, k, arms) && !EndsIteration(ds, ms, k)
    ensures Policy(ds, ms, i, j, k + 1, arms)
  {
  }

  lemma EndedOpen(ds: seq<Door>, ms: seq<Move>, b: nat, j: nat)
    requires Run(ds, ms) && ds[0] == INITIAL && b < j < |ms| && TakesBatch(ds, ms, b) && EndsIteration(ds, ms, j)
    requires (forall k | b < k < j :: !EndsIteration(ds, ms, k)) && ds[j + 1].state == Opened
    ensures Iteration(ds, ms, b, j) && ds[j].batch == ds[b].pending && Close !in ds[j].batch
    ensures ds[b].state == Locked || ds[b].state == Opened
  {
    BatchHeld(ds, ms, b, j);
    RunKeepsInv(ds, ms, b);
    RunKeepsInv(ds, ms, j);
    assert ms[j].Thread?;
    if Stop in ds[b].pending {
      StoppedStays(ds, ms, b + 1, j + 1);
    }
  }

  lemma PolicyGrows(ds: seq<Door>, ms: seq<Move>, i: nat, j: nat, b: nat, k: nat, arms: bool)
    requires |ds| == |ms| + 1 && b < k - 1 < |ms| && Policy(ds, ms, i, j, b, arms) && TakesBatch(ds, ms, b)
    requires forall m | b < m < k - 1 :: !EndsIteration(ds, ms, m)
    requires Close !in ds[k - 1].batch && OpenAlarm in ds[k - 1].batch
    ensures Policy(ds, ms, i, j, k, arms)
  {
  }

  /** Only an alarm keeps the door open: no close, key, open or stop has been asked for since. */
  predicate Evacuating(d: Door) {
    && d.pending <= {OpenAlarm} && !d.armed
    && match d.pc
       case Waiting => d.state == Opened && d.relay && !d.auto
       case OpenTest =>
         && ((d.state == Locked && !d.relay) || (d.state == Opened && d.relay))
         && OpenAlarm in d.batch && !d.auto
       case OpenRelay => d.state == Opening && OpenAlarm in d.batch
       case OpenDone => d.state == Opening && d.relay && OpenAlarm in d.batch
       case OpenTimer => d.state == Opened && d.relay && OpenAlarm in d.batch
       case _ => false
  }

  lemma EvacuatingStep(d: Door, m: Move)
    requires Evacuating(d) && Enabled(d, m) && (m.Post? ==> m.e == OpenAlarm)
    ensures Evacuating(Next(d, m))
    ensures d.state == Opened ==> Next(d, m).state == Opened
  {
    if d.pc == Waiting && m == Thread {
      var e :| e in d.pending;
      assert e == OpenAlarm;
    }
  }

  lemma {:induction false} EvacuatingRun(ds: seq<Door>, ms: seq<Move>, i: nat, k: nat)
    requires Run(ds, ms) && i <= k < |ds| && Evacuating(ds[i])
    requires forall j | i <= j < k :: ms[j].Post? ==> ms[j].e == OpenAlarm
    ensures Evacuating(ds[k])
    decreases k
  {
    if k > i {
      EvacuatingRun(ds, ms, i, k - 1);
      EvacuatingStep(ds[k - 1], ms[k - 1]);
    }
  }

  /** A door opened from LOCKED by an alarm stays open: from the moment the batch is taken until
      someone posts CLOSE, KEY, OPEN or STOP, it is open with the relay energised and no timer
      armed at every loop head, and once open it never leaves OPEN. */
  lemma EvacuationHolds(ds: seq<Door>, ms: seq<Move>, i: nat, k: nat)
    requires Run(ds, ms) && ds[0] == INITIAL && i < k < |ds|
    requires TakesBatch(ds, ms, i) && ds[i].state == Locked
    requires OpenAlarm in ds[i].pending && Close !in ds[i].pending && Stop !in ds[i].pending
    requires forall j | i < j < k :: ms[j].Post? ==> ms[j].e == OpenAlarm
    ensures ds[k].pc == Waiting ==> ds[k].state == Opened && ds[k].relay && !ds[k].armed
    ensures forall j | i < j < k :: ds[j].state == Opened ==> ds[j + 1].state == Opened
  {
    RunKeepsInv(ds, ms, i);
    assert ds[i + 1] == Receive(ds[i]);
    assert Evacuating(ds[i + 1]);
    EvacuatingRun(ds, ms, i + 1, k);
    forall j | i < j < k && ds[j].state == Opened
      ensures ds[j + 1].state == Opened
    {
      EvacuatingRun(ds, ms, i + 1, j);
      EvacuatingStep(ds[j], ms[j]);
    }
  }
}
