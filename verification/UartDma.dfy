/** How the two serial drivers count the bytes a circular DMA receive has stored.

    The hardware counter runs down from the buffer size and reloads at zero; it shows only the
    position inside the buffer.  `landed` is the number of bytes received since the start and
    `reported` the number at the last report: the drivers keep only its position in the buffer. */
module UartDma {
  import opened Machine
  import opened Division

  /** The DMA counter when `landed` bytes have arrived in a buffer of `b`. */
  function Counter(b: nat, landed: nat): (c: nat)
    requires b > 0
    ensures 0 < c <= b
  {
    b - landed % b
  }

  datatype Irq = Idle | Half | Complete

  /** The length reported by the newer driver, told from the true totals. */
  function Report2(b: nat, irq: Irq, reported: nat, landed: nat): nat
    requires b > 0 && reported <= landed
  {
    var from, to := reported % b, landed % b;
    match irq
    case Idle => (landed - reported) % b
    case Half => if from < to then (landed - reported) % b else 0
    case Complete =>
      if to < from then (landed - reported) % b else if to == from then b else 0
  }

  function Sub32(x: nat, y: nat): nat
    requires x < WORD && y < WORD
  {
    if y <= x then x - y else WORD + x - y
  }

  /** The length reported by the older driver, whose DMA handler does not tell half from complete. */
  function Report1(b: nat, irq: Irq, reported: nat, landed: nat): nat
    requires 0 < b < WORD && reported <= landed
  {
    if irq != Idle && landed % b == 0 then b - reported % b else Sub32(landed % b, reported % b)
  }

  class Driver2 {
    const bufsz: nat
    var remainingCnt: nat

    constructor (b: nat)
      requires b > 0
      ensures bufsz == b && remainingCnt == Counter(b, 0)
    {
      bufsz := b;
      remainingCnt := b;
    }

    /** A nonzero report moves the mark to the counter; otherwise the mark stays. */
    method DmaRecvIsr(irq: Irq, counter: nat, ghost reported: nat, ghost landed: nat) returns (recvLen: nat)
      requires bufsz > 0 && reported <= landed
      requires remainingCnt == Counter(bufsz, reported) && counter == Counter(bufsz, landed)
      modifies this
      ensures recvLen == Report2(bufsz, irq, reported, landed)
      ensures remainingCnt == Counter(bufsz, if recvLen == 0 then reported else landed)
    {
      SpanModulo(bufsz, reported, landed);
      recvLen := 0;
      match irq {
        case Idle =>
          if counter <= remainingCnt {
            recvLen := remainingCnt - counter;
          } else {
            recvLen := bufsz + remainingCnt - counter;
          }
        case Half =>
          if counter < remainingCnt {
            recvLen := remainingCnt - counter;
          }
        case Complete =>
          if counter >= remainingCnt {
            recvLen := bufsz + remainingCnt - counter;
          }
      }
      if recvLen != 0 {
        remainingCnt := counter;
      }
    }
  }

  class Driver1 {
    const bufsz: nat
    var lastIndex: nat

    constructor (b: nat)
      requires b > 0
      ensures bufsz == b && lastIndex == 0
    {
      bufsz := b;
      lastIndex := 0;
    }

    /** The IDLE branch of the UART interrupt. */
    method UartIsr(counter: nat, ghost reported: nat, ghost landed: nat) returns (recvLen: nat)
      requires 0 < bufsz < WORD && reported <= landed
      requires lastIndex == reported % bufsz && counter == Counter(bufsz, landed)
      modifies this
      ensures recvLen == Report1(bufsz, Idle, reported, landed) && lastIndex == landed % bufsz
    {
      var index := bufsz - counter;
      recvLen := Sub32(index, lastIndex);
      lastIndex := index;
    }

    /** The DMA interrupt, for half and complete alike. */
    method DmaIsr(counter: nat, irq: Irq, ghost reported: nat, ghost landed: nat) returns (recvLen: nat)
      requires 0 < bufsz < WORD && reported <= landed && irq != Idle
      requires lastIndex == reported % bufsz && counter == Counter(bufsz, landed)
      modifies this
      ensures recvLen == Report1(bufsz, irq, reported, landed) && lastIndex == landed % bufsz
    {
      var index := bufsz - counter;
      if index == 0 {
        recvLen := bufsz - lastIndex;
      } else {
        recvLen := Sub32(index, lastIndex);
      }
      lastIndex := index;
    }
  }

  // ----- When a report is right -----

  /** What the newer driver reports is nothing, or exactly what arrived since the last report,
      unless more than a buffer arrived, or a completion is served with nothing outstanding. */
  lemma Report2Right(b: nat, irq: Irq, reported: nat, landed: nat)
    requires b > 0 && reported <= landed <= reported + b
    ensures Report2(b, irq, reported, landed) in {0, landed - reported}
      <==> !(irq == Complete && landed == reported)
  {
    SpanModulo(b, reported, landed);
  }

  /** With less than a buffer outstanding: an idle report is always complete; a half report unless
      the span passes the end of the buffer; a completion report only if it does. */
  lemma Report2Complete(b: nat, irq: Irq, reported: nat, landed: nat)
    requires b > 0 && reported <= landed < reported + b
    ensures Report2(b, irq, reported, landed) == landed - reported
      <==> match irq
           case Idle => true
           case Half => landed == reported || landed / b == reported / b
           case Complete => landed / b > reported / b
  {
    SpanModulo(b, reported, landed);
  }

  /** The older driver is right only while the span stays in one lap of the buffer, or ends exactly
      at its end and a DMA interrupt, not the idle interrupt, reports it. */
  lemma Report1Right(b: nat, irq: Irq, reported: nat, landed: nat)
    requires 0 < b < WORD && reported <= landed <= reported + b
    ensures Report1(b, irq, reported, landed) == landed - reported <==>
      if irq != Idle && landed % b == 0 then landed > reported
      else landed / b == reported / b
  {
    SpanModulo(b, reported, landed);
  }

  lemma SpanModulo(b: nat, reported: nat, landed: nat)
    requires b > 0 && reported <= landed
    ensures var from, to := reported % b, landed % b;
      (landed - reported) % b == if from <= to then to - from else b + to - from
    ensures landed < reported + b ==>
      && (landed - reported) % b == landed - reported
      && (landed / b == reported / b <==> reported % b <= landed % b)
      && landed / b >= reported / b
    ensures landed == reported + b ==> landed % b == reported % b && landed / b > reported / b
  {
    var from, to := reported % b, landed % b;
    var lapsFrom, lapsTo := reported / b, landed / b;
    assert reported == lapsFrom * b + from;
    assert landed == lapsTo * b + to;
    if from <= to {
      Distribute(lapsTo, lapsFrom, b);
      Divided(b, landed - reported, lapsTo - lapsFrom, to - from);
    } else {
      Distribute(lapsTo, lapsFrom + 1, b);
      Distribute(lapsFrom, -1, b);
      Divided(b, landed - reported, lapsTo - lapsFrom - 1, b + to - from);
    }
    if landed < reported + b {
      Divided(b, landed - reported, 0, landed - reported);
    } else if landed == reported + b {
      Divided(b, landed - reported, 1, 0);
    }
  }

  // ----- Whole runs -----

  datatype Event = Land | Serve(irq: Irq)

  function Landed(events: seq<Event>): (n: nat)
    ensures n <= |events|
  {
    if events == [] then 0
    else Landed(events[..|events| - 1]) + if events[|events| - 1] == Land then 1 else 0
  }

  /** Total at the last nonzero report of the newer driver. */
  function Mark(b: nat, events: seq<Event>): (m: nat)
    requires b > 0
    ensures m <= Landed(events)
  {
    if events == [] then 0
    else
      var before := events[..|events| - 1];
      match events[|events| - 1]
      case Land => Mark(b, before)
      case Serve(irq) =>
        if Report2(b, irq, Mark(b, before), Landed(before)) == 0 then Mark(b, before) else Landed(before)
  }

  /** The lengths reported by the newer driver. */
  function Reports2(b: nat, events: seq<Event>): seq<nat>
    requires b > 0
  {
    if events == [] then []
    else
      var before := events[..|events| - 1];
      match events[|events| - 1]
      case Land => Reports2(b, before)
      case Serve(irq) => Reports2(b, before) + [Report2(b, irq, Mark(b, before), Landed(before))]
  }

  /** Total at the last interrupt: the older driver moves its mark at every one. */
  function LastServed(events: seq<Event>): (m: nat)
    ensures m <= Landed(events)
  {
    if events == [] then 0
    else
      var before := events[..|events| - 1];
      match events[|events| - 1]
      case Land => LastServed(before)
      case Serve(_) => Landed(before)
  }

  function Reports1(b: nat, events: seq<Event>): seq<nat>
    requires 0 < b < WORD
  {
    if events == [] then []
    else
      var before := events[..|events| - 1];
      match events[|events| - 1]
      case Land => Reports1(b, before)
      case Serve(irq) => Reports1(b, before) + [Report1(b, irq, LastServed(before), Landed(before))]
  }

  function Sum(s: seq<nat>): nat {
    if s == [] then 0 else Sum(s[..|s| - 1]) + s[|s| - 1]
  }

  /** Both drivers served by the same interrupts. */
  method Replay(b: nat, events: seq<Event>) returns (reports1: seq<nat>, reports2: seq<nat>)
    requires 0 < b < WORD
    ensures reports1 == Reports1(b, events) && reports2 == Reports2(b, events)
  {
    hide Report1, Report2, Counter;
    var d1 := new Driver1(b);
    var d2 := new Driver2(b);
    reports1, reports2 := [], [];
    var landed: nat, counter := 0, b;
    CounterSteps(b, 0);
    for i := 0 to |events|
      invariant reports1 == Reports1(b, events[..i]) && reports2 == Reports2(b, events[..i])
      invariant landed == Landed(events[..i]) && counter == Counter(b, landed)
      invariant d1.bufsz == d2.bufsz == b
      invariant d1.lastIndex == LastServed(events[..i]) % b
      invariant d2.remainingCnt == Counter(b, Mark(b, events[..i]))
    {
      ghost var mark, last := Mark(b, events[..i]), LastServed(events[..i]);
      assert events[..i + 1][..i] == events[..i];
      match events[i] {
        case Land =>
          CounterSteps(b, landed);
          landed := landed + 1;
          counter := if counter == 1 then b else counter - 1;
        case Serve(irq) =>
          var n1;
          if irq == Idle {
            n1 := d1.UartIsr(counter, last, landed);
          } else {
            n1 := d1.DmaIsr(counter, irq, last, landed);
          }
          var n2 := d2.DmaRecvIsr(irq, counter, mark, landed);
          reports1, reports2 := reports1 + [n1], reports2 + [n2];
      }
    }
    assert events[..|events|] == events;
  }

  /** The counter runs down and reloads. */
  lemma CounterSteps(b: nat, landed: nat)
    requires b > 0
    ensures Counter(b, 0) == b
    ensures Counter(b, landed + 1) == if Counter(b, landed) == 1 then b else Counter(b, landed) - 1
    ensures (landed + 1) % b == if landed % b == b - 1 then 0 else landed % b + 1
  {
    var q, r := landed / b, landed % b;
    assert landed == q * b + r;
    Divided(b, 0, 0, 0);
    if r == b - 1 {
      Distribute(q, -1, b);
      Divided(b, landed + 1, q + 1, 0);
    } else {
      Divided(b, landed + 1, q, r + 1);
    }
  }

  /** No interrupt is served with more than a buffer outstanding. */
  predicate Served(b: nat, events: seq<Event>)
    requires b > 0
  {
    forall i | 0 <= i < |events| && events[i].Serve? :: Landed(events[..i]) - Mark(b, events[..i]) <= b
  }

  /** How many completions are served with nothing outstanding. */
  function EmptyCompletions(b: nat, events: seq<Event>): nat
    requires b > 0
  {
    if events == [] then 0
    else
      var before := events[..|events| - 1];
      EmptyCompletions(b, before)
        + if events[|events| - 1] == Serve(Complete) && Landed(before) == Mark(b, before) then 1 else 0
  }

  function Buffers(b: nat, n: nat): nat {
    if n == 0 then 0 else Buffers(b, n - 1) + b
  }

  lemma {:induction false} BuffersIs(b: nat, n: nat)
    ensures Buffers(b, n) == n * b
  {
    if n > 0 {
      BuffersIs(b, n - 1);
      Distribute(n, 1, b);
    }
  }

  /** The account after a run: bytes before the mark, and a buffer for each empty completion. */
  predicate Accounted(b: nat, events: seq<Event>)
    requires b > 0
  {
    Sum(Reports2(b, events)) == Mark(b, events) + Buffers(b, EmptyCompletions(b, events))
  }

  /** One more interrupt keeps the account. */
  lemma ServeAccounted(b: nat, before: seq<Event>, irq: Irq)
    requires b > 0 && Landed(before) - Mark(b, before) <= b && Accounted(b, before)
    ensures Accounted(b, before + [Serve(irq)])
    ensures irq == Idle && Landed(before) - Mark(b, before) < b ==>
      Mark(b, before + [Serve(irq)]) == Landed(before + [Serve(irq)])
  {
    hide Report2, Reports2, Mark, Landed, Sum;
    var mark, landed := Mark(b, before), Landed(before);
    ServedOnce(b, before, irq);
    Report2Right(b, irq, mark, landed);
    if landed < mark + b {
      Report2Complete(b, irq, mark, landed);
    }
    WholeBuffer(b, landed);
    EmptyGrows(b, before, Serve(irq));
  }

  lemma EmptyGrows(b: nat, before: seq<Event>, e: Event)
    requires b > 0
    ensures EmptyCompletions(b, before + [e]) ==
      EmptyCompletions(b, before) + if e == Serve(Complete) && Landed(before) == Mark(b, before) then 1 else 0
  {
    assert (before + [e])[..|before|] == before;
  }

  lemma LandAccounted(b: nat, before: seq<Event>)
    requires b > 0 && Accounted(b, before)
    ensures Accounted(b, before + [Land])
  {
    EmptyGrows(b, before, Land);
    assert (before + [Land])[..|before|] == before;
  }

  lemma ServedBefore(b: nat, events: seq<Event>)
    requires b > 0 && events != [] && Served(b, events)
    ensures Served(b, events[..|events| - 1])
  {
    var before := events[..|events| - 1];
    forall i | 0 <= i < |before| && before[i].Serve?
      ensures Landed(before[..i]) - Mark(b, before[..i]) <= b
    {
      assert before[..i] == events[..i] && events[i].Serve?;
    }
  }

  lemma {:induction false} RunAccounted(b: nat, events: seq<Event>)
    requires b > 0 && Served(b, events)
    ensures Accounted(b, events)
  {
    hide Accounted, Served;
    if events == [] {
      NothingAccounted(b);
    } else {
      var n := |events| - 1;
      var before := events[..n];
      ServedBefore(b, events);
      RunAccounted(b, before);
      assert events == before + [events[n]];
      if events[n] == Land {
        LandAccounted(b, before);
      } else {
        ServedLast(b, events);
        ServeAccounted(b, before, events[n].irq);
      }
    }
  }

  lemma NothingAccounted(b: nat)
    requires b > 0
    ensures Accounted(b, [])
  {
  }

  lemma ServedLast(b: nat, events: seq<Event>)
    requires b > 0 && events != [] && Served(b, events) && events[|events| - 1].Serve?
    ensures Landed(events[..|events| - 1]) - Mark(b, events[..|events| - 1]) <= b
  {
  }

  /** Whatever the order of the interrupts, the reports add up to the bytes before the mark and one
      buffer for each empty completion: every byte up to the mark is reported exactly once if and
      only if there is none. */
  lemma BytesConserved(b: nat, events: seq<Event>)
    requires b > 0 && Served(b, events)
    ensures Sum(Reports2(b, events)) == Mark(b, events) + EmptyCompletions(b, events) * b
    ensures Sum(Reports2(b, events)) == Mark(b, events) <==> EmptyCompletions(b, events) == 0
  {
    hide Served;
    RunAccounted(b, events);
    var n := EmptyCompletions(b, events);
    BuffersIs(b, n);
    if n > 0 {
      Scale(1, n, b);
    }
  }

  /** An idle interrupt with less than a buffer outstanding brings the mark up to the last byte. */
  lemma IdleReportsAll(b: nat, before: seq<Event>)
    requires b > 0 && Served(b, before) && Landed(before) - Mark(b, before) < b
    ensures Mark(b, before + [Serve(Idle)]) == Landed(before)
    ensures Sum(Reports2(b, before + [Serve(Idle)])) == Landed(before) + EmptyCompletions(b, before) * b
  {
    hide Served;
    RunAccounted(b, before);
    ServeAccounted(b, before, Idle);
    EmptyGrows(b, before, Serve(Idle));
    BuffersIs(b, EmptyCompletions(b, before));
    assert (before + [Serve(Idle)])[..|before|] == before;
  }

  /** When the idle interrupt that reports the last bytes of the buffer is served first, the
      completion then announces a whole buffer of bytes that never came. */
  lemma PhantomBuffer(b: nat, events: seq<Event>)
    requires b > 0 && Mark(b, events) < Landed(events) < Mark(b, events) + b && Landed(events) % b == 0
    ensures Sum(Reports2(b, events + [Serve(Idle), Serve(Complete)]))
      == Sum(Reports2(b, events)) + (Landed(events) - Mark(b, events)) + b
  {
    hide Report2, Mark, Reports2;
    var mark, landed := Mark(b, events), Landed(events);
    var idled := events + [Serve(Idle)];
    assert events + [Serve(Idle), Serve(Complete)] == idled + [Serve(Complete)];
    ServedOnce(b, events, Idle);
    ServedOnce(b, idled, Complete);
    Report2Complete(b, Idle, mark, landed);
    WholeBuffer(b, landed);
  }

  /** Such a run, with a buffer of two: two bytes come, and four are reported. */
  method PhantomRun() returns (reports1: seq<nat>, reports2: seq<nat>)
    ensures reports2 == [1, 1, 2]
    ensures Landed([Land, Serve(Idle), Land, Serve(Idle), Serve(Complete)]) == 2
  {
    var events := [Land, Serve(Idle), Land, Serve(Idle), Serve(Complete)];
    PhantomSteps();
    reports1, reports2 := Replay(2, events);
  }

  lemma PhantomSteps()
    ensures var events := [Land, Serve(Idle), Land, Serve(Idle), Serve(Complete)];
      Reports2(2, events) == [1, 1, 2] && Landed(events) == 2
  {
    var events := [Land, Serve(Idle), Land, Serve(Idle), Serve(Complete)];
    var e1, e2, e3, e4 := events[..1], events[..2], events[..3], events[..4];
    assert e4 == events[..|events| - 1] && e3 == e4[..|e4| - 1] && e2 == e3[..|e3| - 1] && e1 == e2[..|e2| - 1];
    assert e1[..0] == [];
    assert Landed(e1) == 1 && Mark(2, e1) == 0 && Reports2(2, e1) == [];
    assert Landed(e2) == 1 && Mark(2, e2) == 1 && Reports2(2, e2) == [1];
    assert Landed(e3) == 2 && Mark(2, e3) == 1 && Reports2(2, e3) == [1];
    assert Landed(e4) == 2 && Mark(2, e4) == 2 && Reports2(2, e4) == [1, 1];
  }

  lemma ServedOnce(b: nat, events: seq<Event>, irq: Irq)
    requires b > 0
    ensures var n := Report2(b, irq, Mark(b, events), Landed(events));
      && Landed(events + [Serve(irq)]) == Landed(events)
      && Mark(b, events + [Serve(irq)]) == (if n == 0 then Mark(b, events) else Landed(events))
      && Sum(Reports2(b, events + [Serve(irq)])) == Sum(Reports2(b, events)) + n
  {
    hide Report2;
    assert (events + [Serve(irq)])[..|events|] == events;
    var r, n := Reports2(b, events), Report2(b, irq, Mark(b, events), Landed(events));
    assert (r + [n])[..|r|] == r;
  }

  lemma WholeBuffer(b: nat, landed: nat)
    requires b > 0
    ensures Report2(b, Complete, landed, landed) == b
  {
  }

  /** The completion interrupt is served as soon as the buffer is full, before the next byte and
      before any other interrupt, and only then; half interrupts are not served there. */
  predicate Prompt(b: nat, events: seq<Event>)
    requires b > 0
  {
    forall i | 0 <= i < |events| :: PromptAt(b, events, i)
  }

  predicate PromptAt(b: nat, events: seq<Event>, i: nat)
    requires b > 0 && i < |events|
  {
    var landed := Landed(events[..i]);
    var full := i > 0 && events[i - 1] == Land && landed % b == 0;
    && (full <==> events[i] == Serve(Complete))
    && (events[i] == Serve(Half) ==> landed % b != 0)
  }

  /** The buffer has just been filled. */
  predicate Full(b: nat, events: seq<Event>)
    requires b > 0
  {
    events != [] && events[|events| - 1] == Land && Landed(events) % b == 0
  }

  predicate Agreed(b: nat, events: seq<Event>)
    requires 0 < b < WORD
  {
    && Reports1(b, events) == Reports2(b, events)
    && Mark(b, events) == LastServed(events) == Sum(Reports2(b, events))
    && Landed(events) <= Mark(b, events) + b
    && (Landed(events) / b == Mark(b, events) / b || Full(b, events))
    && (events != [] && events[|events| - 1] == Land ==> Mark(b, events) < Landed(events))
  }

  lemma AgreedLand(b: nat, before: seq<Event>)
    requires 0 < b < WORD && Agreed(b, before) && !Full(b, before)
    ensures Agreed(b, before + [Land])
  {
    hide Report1, Report2;
    assert (before + [Land])[..|before|] == before;
    StaysInLap(b, Mark(b, before), Landed(before));
  }

  lemma AgreedServe(b: nat, before: seq<Event>, irq: Irq)
    requires 0 < b < WORD && Agreed(b, before) && (Full(b, before) <==> irq == Complete)
    requires irq == Half ==> Landed(before) % b != 0
    ensures Agreed(b, before + [Serve(irq)])
  {
    hide Report1, Report2, Sum, Reports1, Reports2, Mark, Landed, LastServed;
    var mark, landed := Mark(b, before), Landed(before);
    ReportsGrow(b, before, irq);
    ServedOnce(b, before, irq);
    EqualReports(b, irq, mark, landed);
  }

  /** Both drivers report what came since. */
  lemma EqualReports(b: nat, irq: Irq, mark: nat, landed: nat)
    requires 0 < b < WORD && mark <= landed <= mark + b
    requires irq == Complete ==> landed % b == 0 && mark < landed
    requires irq != Complete ==> landed / b == mark / b
    requires irq == Half ==> landed % b != 0
    ensures Report1(b, irq, mark, landed) == Report2(b, irq, mark, landed) == landed - mark
  {
    hide Report1, Report2;
    Report1Right(b, irq, mark, landed);
    PromptReport2(b, irq, mark, landed);
  }

  lemma ReportsGrow(b: nat, before: seq<Event>, irq: Irq)
    requires 0 < b < WORD
    ensures var events := before + [Serve(irq)];
      && LastServed(events) == Landed(before)
      && Reports1(b, events) == Reports1(b, before) + [Report1(b, irq, LastServed(before), Landed(before))]
      && Reports2(b, events) == Reports2(b, before) + [Report2(b, irq, Mark(b, before), Landed(before))]
  {
    hide Report1, Report2;
    assert (before + [Serve(irq)])[..|before|] == before;
  }

  lemma NothingAgreed(b: nat)
    requires 0 < b < WORD
    ensures Agreed(b, [])
  {
  }

  lemma PromptBefore(b: nat, events: seq<Event>)
    requires b > 0 && events != [] && Prompt(b, events)
    ensures Prompt(b, events[..|events| - 1])
  {
    var before := events[..|events| - 1];
    forall i | 0 <= i < |before|
      ensures PromptAt(b, before, i)
    {
      assert PromptAt(b, events, i);
      assert before[..i] == events[..i];
    }
  }

  lemma {:induction false} RunAgrees(b: nat, events: seq<Event>)
    requires 0 < b < WORD && Prompt(b, events)
    ensures Agreed(b, events)
  {
    hide Agreed, Landed;
    if events == [] {
      NothingAgreed(b);
    } else {
      var n := |events| - 1;
      PromptBefore(b, events);
      RunAgrees(b, events[..n]);
      assert PromptAt(b, events, n);
      assert events == events[..n] + [events[n]];
      match events[n] {
        case Land => AgreedLand(b, events[..n]);
        case Serve(irq) => AgreedServe(b, events[..n], irq);
      }
    }
  }

  /** Under prompt service the two drivers report the same lengths, each exactly the bytes since
      the interrupt before, and every byte once. */
  lemma DriversAgree(b: nat, events: seq<Event>)
    requires 0 < b < WORD && Prompt(b, events)
    ensures Reports1(b, events) == Reports2(b, events)
    ensures Mark(b, events) == LastServed(events) == Sum(Reports2(b, events))
    ensures Landed(events) <= Mark(b, events) + b
  {
    RunAgrees(b, events);
  }

  /** One more byte in the same lap stays in it or fills the buffer. */
  lemma StaysInLap(b: nat, mark: nat, landed: nat)
    requires b > 0 && mark <= landed && landed / b == mark / b
    ensures landed < mark + b
    ensures (landed + 1) % b == 0 || (landed + 1) / b == mark / b
  {
    var q, r := landed / b, landed % b;
    assert landed == q * b + r;
    assert mark == q * b + mark % b;
    if r == b - 1 {
      Distribute(q, -1, b);
      Divided(b, landed + 1, q + 1, 0);
    } else {
      Divided(b, landed + 1, q, r + 1);
    }
  }

  lemma PromptReport2(b: nat, irq: Irq, mark: nat, landed: nat)
    requires 0 < b && mark <= landed <= mark + b
    requires irq == Complete ==> landed % b == 0 && mark < landed
    requires irq != Complete ==> landed / b == mark / b
    ensures Report2(b, irq, mark, landed) == landed - mark
  {
    SpanModulo(b, mark, landed);
  }
}
