/** The request line and the door thread together: a granted request opens the door. */
module RequestToDoor {
  import opened Machine
  import opened Wrappers
  import C = FrameCodec
  import S = FrameStream
  import U = UnlockLink
  import D = DoorLock

  datatype System = System(link: U.Link, door: D.Door)

  const INITIAL := System(U.INITIAL, D.INITIAL)

  datatype Action = Line(move: U.Move) | Door(step: D.Move)

  predicate Can(s: System, a: Action) {
    match a
    case Line(m) => U.Enabled(s.link, m)
    case Door(m) => D.Enabled(s.door, m)
  }

  /** The STM32 handles a request and posts OPEN for it. */
  predicate Posts(s: System, a: Action)
    requires Can(s, a)
  {
    a.Line? && a.move.Handle? && U.PostsOpen(s.link.toStm[0].frame, a.move.accepted)
  }

  function DoorStep(s: System, a: Action): Option<D.Move>
    requires Can(s, a)
  {
    if a.Door? then Some(a.step) else if Posts(s, a) then Some(D.Post(D.Open)) else None
  }

  function After(s: System, a: Action): System
    requires Can(s, a)
  {
    System(if a.Line? then U.Next(s.link, a.move) else s.link,
           if DoorStep(s, a).Some? then D.Next(s.door, DoorStep(s, a).value) else s.door)
  }

  ghost predicate Runs(ss: seq<System>, acts: seq<Action>) {
    && |ss| == |acts| + 1 && ss[0] == INITIAL
    && forall k | 0 <= k < |acts| :: Can(ss[k], acts[k]) && ss[k + 1] == After(ss[k], acts[k])
  }

  /** Until STOP is posted. */
  ghost predicate Working(ss: seq<System>) {
    forall k | 0 <= k < |ss| :: D.Active(ss[k].door)
  }

  predicate TakesBatch(ss: seq<System>, acts: seq<Action>, i: nat)
    requires i < |acts| && |ss| == |acts| + 1
  {
    ss[i].door.pc == D.Waiting && acts[i] == Door(D.Thread)
  }

  predicate EndsIteration(ss: seq<System>, acts: seq<Action>, j: nat)
    requires j < |acts| && |ss| == |acts| + 1
  {
    ss[j].door.pc != D.Waiting && ss[j + 1].door.pc == D.Waiting
  }

  // ----- The line alone and the door alone -----


  function LineMoves(acts: seq<Action>): seq<U.Move> {
    if acts == [] then []
    else
      LineMoves(acts[..|acts| - 1])
        + if acts[|acts| - 1].Line? then [acts[|acts| - 1].move] else []
  }

  lemma {:induction false} LineRuns(ss: seq<System>, acts: seq<Action>, k: nat)
    requires Runs(ss, acts) && k < |ss|
    ensures U.Reachable(ss[k].link, LineMoves(acts[..k]))
  {
    hide U.Next, U.Enabled;
    if k > 0 {
      LineRuns(ss, acts, k - 1);
      assert acts[..k][..k - 1] == acts[..k - 1];
      assert LineMoves(acts[..k]) ==
        LineMoves(acts[..k - 1]) + if acts[k - 1].Line? then [acts[k - 1].move] else [];
      assert ss[k] == After(ss[k - 1], acts[k - 1]);
      if acts[k - 1].Line? {
        U.Continues(ss[k - 1].link, LineMoves(acts[..k - 1]), acts[k - 1].move);
      } else {
        assert LineMoves(acts[..k]) == LineMoves(acts[..k - 1]);
      }
    }
  }

  /** The moves of the door among the first `k` actions, and the states they lead through. */
  ghost function DoorMoves(ss: seq<System>, acts: seq<Action>, k: nat): seq<D.Move>
    requires Runs(ss, acts) && k <= |acts|
  {
    if k == 0 then []
    else
      DoorMoves(ss, acts, k - 1)
        + match DoorStep(ss[k - 1], acts[k - 1]) case Some(m) => [m] case None => []
  }

  ghost function DoorStates(ss: seq<System>, acts: seq<Action>, k: nat): (ds: seq<D.Door>)
    requires Runs(ss, acts) && k <= |acts|
    ensures |ds| == |DoorMoves(ss, acts, k)| + 1
  {
    if k == 0 then [INITIAL.door]
    else
      DoorStates(ss, acts, k - 1)
        + if DoorStep(ss[k - 1], acts[k - 1]).Some? then [ss[k].door] else []
  }

  /** Where the run of the door is after `k` actions. */
  ghost function At(ss: seq<System>, acts: seq<Action>, k: nat): nat
    requires Runs(ss, acts) && k <= |acts|
  {
    |DoorMoves(ss, acts, k)|
  }

  lemma {:induction false} DoorRuns(ss: seq<System>, acts: seq<Action>, k: nat)
    requires Runs(ss, acts) && k <= |acts|
    ensures var ds := DoorStates(ss, acts, k);
      D.Run(ds, DoorMoves(ss, acts, k)) && ds[0] == D.INITIAL && ds[At(ss, acts, k)] == ss[k].door
  {
    hide D.Next, D.Run;
    if k == 0 {
      StartRun();
    } else {
      DoorRuns(ss, acts, k - 1);
      assert ss[k] == After(ss[k - 1], acts[k - 1]);
      var m := DoorStep(ss[k - 1], acts[k - 1]);
      if m.Some? {
        RunExtends(DoorStates(ss, acts, k - 1), DoorMoves(ss, acts, k - 1), m.value, ss[k].door);
      } else {
        assert DoorStates(ss, acts, k) == DoorStates(ss, acts, k - 1);
        assert DoorMoves(ss, acts, k) == DoorMoves(ss, acts, k - 1);
      }
    }
  }

  lemma StartRun()
    ensures D.Run([INITIAL.door], [])
  {
  }

  lemma RunExtends(ds: seq<D.Door>, ms: seq<D.Move>, m: D.Move, d: D.Door)
    requires D.Run(ds, ms) && D.Enabled(ds[|ms|], m) && d == D.Next(ds[|ms|], m)
    ensures D.Run(ds + [d], ms + [m])
  {
    hide D.Next, D.Enabled;
  }

  lemma {:induction false} DoorPrefix(ss: seq<System>, acts: seq<Action>, k: nat, n: nat)
    requires Runs(ss, acts) && k <= n <= |acts|
    ensures DoorMoves(ss, acts, k) <= DoorMoves(ss, acts, n) && DoorStates(ss, acts, k) <= DoorStates(ss, acts, n)
    ensures At(ss, acts, k) <= At(ss, acts, n)
  {
    hide D.Next;
    if k < n {
      DoorPrefix(ss, acts, k, n - 1);
      assert DoorMoves(ss, acts, n - 1) <= DoorMoves(ss, acts, n);
      assert DoorStates(ss, acts, n - 1) <= DoorStates(ss, acts, n);
    }
  }

  /** Each action is one move of the door or none. */
  lemma DoorAt(ss: seq<System>, acts: seq<Action>, k: nat)
    requires Runs(ss, acts) && k < |acts|
    ensures var n := |acts|;
      var ds, ms, q := DoorStates(ss, acts, n), DoorMoves(ss, acts, n), At(ss, acts, k);
      && q < |ds| && ds[q] == ss[k].door
      && match DoorStep(ss[k], acts[k])
         case Some(m) => q < |ms| && ms[q] == m && At(ss, acts, k + 1) == q + 1 && ds[q + 1] == ss[k + 1].door
         case None => At(ss, acts, k + 1) == q && ss[k + 1].door == ss[k].door
  {
    hide D.Next;
    DoorRuns(ss, acts, k);
    DoorRuns(ss, acts, k + 1);
    DoorPrefix(ss, acts, k, |acts|);
    DoorPrefix(ss, acts, k + 1, |acts|);
    assert ss[k + 1] == After(ss[k], acts[k]);
  }

  /** Each move of the door is one of the actions. */
  lemma {:induction false} ActionOf(ss: seq<System>, acts: seq<Action>, n: nat, q: nat) returns (k: nat)
    requires Runs(ss, acts) && n <= |acts| && q < At(ss, acts, n)
    ensures k < n && At(ss, acts, k) == q && DoorStep(ss[k], acts[k]).Some?
  {
    hide Runs;
    if q < At(ss, acts, n - 1) {
      k := ActionOf(ss, acts, n - 1, q);
    } else {
      k := n - 1;
    }
  }

  /** Between two actions lie the actions of the moves between. */
  lemma ActionBetween(ss: seq<System>, acts: seq<Action>, i: nat, j: nat, q: nat) returns (k: nat)
    requires Runs(ss, acts) && i < j <= |acts| && At(ss, acts, i) < q < At(ss, acts, j)
    ensures i < k < j && At(ss, acts, k) == q && DoorStep(ss[k], acts[k]).Some?
  {
    hide Runs, DoorMoves, DoorStates;
    k := ActionOf(ss, acts, j, q);
    if k <= i {
      DoorPrefix(ss, acts, k, i);
      assert false;
    }
  }

  /** The step at which OPEN was posted for a request. */
  lemma {:induction false} PostedWhen(ss: seq<System>, acts: seq<Action>, k: nat, id: nat) returns (p: nat)
    requires Runs(ss, acts) && k < |ss| && id in ss[k].link.posted
    ensures p < k && Posts(ss[p], acts[p]) && ss[p].link.toStm[0].id == id
    ensures D.Open in ss[p + 1].door.pending
  {
    assert k > 0;
    if id in ss[k - 1].link.posted {
      p := PostedWhen(ss, acts, k - 1, id);
    } else {
      p := k - 1;
    }
  }

  // ----- From the post to the open door -----

  /** The door thread takes its first batch after step `p` at `i`, and `j` ends the first iteration
      from there on whose batch has no CLOSE. */
  ghost predicate FirstChance(ss: seq<System>, acts: seq<Action>, p: nat, i: nat, j: nat)
    requires |ss| == |acts| + 1
  {
    && p < i < j < |acts| && TakesBatch(ss, acts, i) && EndsIteration(ss, acts, j)
    && (forall k | p < k < i :: !TakesBatch(ss, acts, k))
    && D.Close !in ss[j].door.batch
    && (forall k | i < k < j :: EndsIteration(ss, acts, k) ==> D.Close in ss[k].door.batch)
  }

  lemma TakesSame(ss: seq<System>, acts: seq<Action>, k: nat)
    requires Runs(ss, acts) && k < |acts| && DoorStep(ss[k], acts[k]).Some?
    ensures var ds, ms := DoorStates(ss, acts, |acts|), DoorMoves(ss, acts, |acts|);
      && At(ss, acts, k) < |ms|
      && (D.TakesBatch(ds, ms, At(ss, acts, k)) <==> TakesBatch(ss, acts, k))
      && (D.EndsIteration(ds, ms, At(ss, acts, k)) <==> EndsIteration(ss, acts, k))
      && ds[At(ss, acts, k)] == ss[k].door && ds[At(ss, acts, k) + 1] == ss[k + 1].door
  {
    hide D.Next;
    DoorAt(ss, acts, k);
  }

  lemma AllActive(ss: seq<System>, acts: seq<Action>)
    requires Runs(ss, acts) && Working(ss)
    ensures forall q | 0 <= q < |DoorStates(ss, acts, |acts|)| :: D.Active(DoorStates(ss, acts, |acts|)[q])
  {
    hide D.Active, D.Next, DoorStates, DoorMoves;
    var ds := DoorStates(ss, acts, |acts|);
    forall q | 0 <= q < |ds|
      ensures D.Active(ds[q])
    {
      if q < At(ss, acts, |acts|) {
        var k := ActionOf(ss, acts, |acts|, q);
        TakesSame(ss, acts, k);
        assert D.Active(ss[k].door);
      } else {
        DoorRuns(ss, acts, |acts|);
        assert D.Active(ss[|acts|].door);
      }
    }
  }

  /** OPEN posted at `p` opens the door, by what holds of the door alone. */
  lemma PostOpensDoor(ss: seq<System>, acts: seq<Action>, p: nat, i: nat, j: nat)
    requires Runs(ss, acts) && Working(ss) && FirstChance(ss, acts, p, i, j)
    requires D.Open in ss[p + 1].door.pending
    ensures ss[j + 1].door.state == D.Opened && ss[j + 1].door.relay
  {
    hide D.Next, D.Active, Working, DoorStates, DoorMoves;
    var n := |acts|;
    var ds, ms := DoorStates(ss, acts, n), DoorMoves(ss, acts, n);
    DoorRuns(ss, acts, n);
    AllActive(ss, acts);
    EndsByStep(ss, acts, j);
    TakesSame(ss, acts, i);
    TakesSame(ss, acts, j);
    var a, b, c := At(ss, acts, p + 1), At(ss, acts, i), At(ss, acts, j);
    DoorPrefix(ss, acts, p + 1, i);
    DoorPrefix(ss, acts, i + 1, j);
    DoorAt(ss, acts, p + 1);
    DoorAt(ss, acts, i);
    forall q | a <= q < b
      ensures !D.TakesBatch(ds, ms, q)
    {
      var k := ActionFrom(ss, acts, p + 1, i, q);
      TakesSame(ss, acts, k);
      assert !TakesBatch(ss, acts, k);
    }
    forall q | b < q < c
      ensures D.EndsIteration(ds, ms, q) ==> D.Close in ds[q].batch
    {
      var k := ActionBetween(ss, acts, i, j, q);
      TakesSame(ss, acts, k);
      assert EndsIteration(ss, acts, k) ==> D.Close in ss[k].door.batch;
    }
    D.PostedRequestOpens(ds, ms, a, b, c);
  }

  lemma ActionFrom(ss: seq<System>, acts: seq<Action>, i: nat, j: nat, q: nat) returns (k: nat)
    requires Runs(ss, acts) && i <= j <= |acts| && At(ss, acts, i) <= q < At(ss, acts, j)
    ensures i <= k < j && At(ss, acts, k) == q && DoorStep(ss[k], acts[k]).Some?
  {
    hide Runs, DoorMoves, DoorStates;
    k := ActionOf(ss, acts, j, q);
    if k < i {
      AtGrows(ss, acts, k);
      DoorPrefix(ss, acts, k + 1, i);
      assert false;
    }
  }

  lemma AtGrows(ss: seq<System>, acts: seq<Action>, k: nat)
    requires Runs(ss, acts) && k < |acts| && DoorStep(ss[k], acts[k]).Some?
    ensures At(ss, acts, k + 1) == At(ss, acts, k) + 1
  {
  }

  lemma EndsByStep(ss: seq<System>, acts: seq<Action>, j: nat)
    requires Runs(ss, acts) && j < |acts| && EndsIteration(ss, acts, j)
    ensures DoorStep(ss[j], acts[j]).Some?
  {
    hide D.Next;
    assert ss[j + 1] == After(ss[j], acts[j]);
  }

  /** If at some point of a run without STOP a wait is answered True, then at an earlier step `p` the
      STM32 posted OPEN for a request with that number, the latest one if its acknowledgement is at
      most 255 sends old, and the door is open, relay energised, at the end of the first iteration
      after that post whose batch has no CLOSE. */
  lemma GrantedRequestOpensDoor(ss: seq<System>, acts: seq<Action>, t: nat, items: seq<S.Item>, cut: nat, n: nat,
                                acc0: seq<byte>, last: int, read: seq<U.Stamped>, period: int, expected: byte)
    returns (p: nat)
    requires Runs(ss, acts) && Working(ss) && t < |ss| && period > 0 && C.Partial(acc0)
    requires U.Arrives(ss[t].link, items, cut, n, acc0, U.Stamp(last, read, period))
    requires U.Verdict(acc0, last, read, period, expected) == Some(true)
    ensures p < t && Posts(ss[p], acts[p]) && U.SeqNo(ss[p].link.toStm[0].id) == expected
    ensures ss[t].link.sent > 0 && expected == U.SeqNo(ss[t].link.sent - 1) ==>
      (ss[p].link.toStm[0].id == ss[t].link.sent - 1 <==> ss[t].link.sent - 1 - ss[p].link.toStm[0].id <= 255)
    ensures forall i: nat, j: nat | FirstChance(ss, acts, p, i, j) ::
      ss[j + 1].door.state == D.Opened && ss[j + 1].door.relay
  {
    hide U.Arrives, U.Verdict, U.Stamp, U.Reachable, U.SeqNo, FirstChance, Working, D.Next, U.Next;
    LineRuns(ss, acts, t);
    var k := U.AckMeansPosted(ss[t].link, LineMoves(acts[..t]), items, cut, n, acc0, last, read, period, expected);
    p := PostedWhen(ss, acts, t, ss[t].link.toK230[k].id);
    forall i: nat, j: nat | FirstChance(ss, acts, p, i, j)
      ensures j + 1 < |ss| && ss[j + 1].door.state == D.Opened && ss[j + 1].door.relay
    {
      ChanceInRange(ss, acts, p, i, j);
      PostOpensDoor(ss, acts, p, i, j);
    }
  }

  lemma ChanceInRange(ss: seq<System>, acts: seq<Action>, p: nat, i: nat, j: nat)
    requires |ss| == |acts| + 1 && FirstChance(ss, acts, p, i, j)
    ensures j < |acts|
  {
  }

  /** Such a run, from the first request to the open door. */
  lemma FirstRequestOpens(period: int) returns (ss: seq<System>, acts: seq<Action>)
    requires period > 0
    ensures Runs(ss, acts) && Working(ss) && |ss| == 8
    ensures Posts(ss[1], acts[1]) && U.CanBeGranted(ss[2].link, period, 0)
    ensures FirstChance(ss, acts, 1, 2, 6) && ss[7].door.state == D.Opened && ss[7].door.relay
  {
    hide U.CanBeGranted, U.Reachable, D.Next;
    var ask, handle := Line(U.Send(U.FACE_UNLOCK_REQ, [0, 0, 0])), Line(U.Handle(true, 0, [0, 0, 0, 0]));
    var go := Door(D.Thread);
    var s1, s2 := FirstRequest();
    var d := s2.door;
    DoorOpens();
    var s3 := System(s2.link, d.(pc := D.OpenTest, batch := {D.Open}, pending := {}));
    var s4 := System(s2.link, s3.door.(pc := D.OpenRelay, state := D.Opening));
    var s5 := System(s2.link, s4.door.(pc := D.OpenDone, relay := true));
    var s6 := System(s2.link, s5.door.(pc := D.OpenTimer, state := D.Opened));
    var s7 := System(s2.link, s6.door.(pc := D.Waiting, armed := true, auto := true));
    ss, acts := [INITIAL, s1, s2, s3, s4, s5, s6, s7], [ask, handle, go, go, go, go, go];
    LineRuns(ss, acts, 2);
    assert U.Grants(s2.link, 0, 0);
    U.GrantedIff(s2.link, LineMoves(acts[..2]), period, 0);
  }

  const ASKED: D.Door := D.INITIAL.(pending := {D.Open})

  lemma FirstRequest() returns (s1: System, s2: System)
    ensures var ask, handle := Line(U.Send(U.FACE_UNLOCK_REQ, [0, 0, 0])), Line(U.Handle(true, 0, [0, 0, 0, 0]));
      && Can(INITIAL, ask) && s1 == After(INITIAL, ask)
      && Can(s1, handle) && s2 == After(s1, handle) && Posts(s1, handle)
    ensures s1.door == INITIAL.door && s2.door == ASKED && U.Grants(s2.link, 0, 0)
  {
    s1 := After(INITIAL, Line(U.Send(U.FACE_UNLOCK_REQ, [0, 0, 0])));
    assert U.SeqNo(0) == 0;
    assert s1.link.toStm == [U.Tagged(0, C.Frame(U.FACE_UNLOCK_REQ, 0, [0, 0, 0]))];
    s2 := After(s1, Line(U.Handle(true, 0, [0, 0, 0, 0])));
  }

  lemma DoorOpens()
    ensures var d3 := ASKED.(pc := D.OpenTest, batch := {D.Open}, pending := {});
      var d4 := d3.(pc := D.OpenRelay, state := D.Opening);
      var d5 := d4.(pc := D.OpenDone, relay := true);
      var d6 := d5.(pc := D.OpenTimer, state := D.Opened);
      && D.Enabled(ASKED, D.Thread) && D.Next(ASKED, D.Thread) == d3
      && D.Next(d3, D.Thread) == d4 && D.Next(d4, D.Thread) == d5 && D.Next(d5, D.Thread) == d6
      && D.Next(d6, D.Thread) == d6.(pc := D.Waiting, armed := true, auto := true)
  {
  }
}
