/** The microsecond busy wait, which polls a timer that counts down and reloads. */
module BusyWait {
  import opened Machine
  import opened Division

  /** The timer is 24 bits wide. */
  const MAX_RELOAD: nat := 0xFF_FFFF

  /** The timer at cycle `t`: it shows `start` at cycle 0 and its period is `reload + 1`. */
  function Value(reload: nat, start: nat, t: nat): (v: nat)
    ensures v <= reload
  {
    (start - t) % (reload + 1)
  }

  /** How often it has gone from zero to `reload` by then. */
  function Reloads(reload: nat, start: nat, t: nat): nat
    requires start <= reload
  {
    (t + reload - start) / (reload + 1)
  }

  /** The 32-bit product of the source; a tick of the kernel is 1 ms. */
  function Wanted(us: nat, reload: nat): nat {
    us * reload % WORD / 1000
  }

  /** What the loop adds for one poll. */
  function Delta(reload: nat, told: nat, tnow: nat): nat
    requires told <= reload && tnow <= reload
  {
    if tnow == told then 0 else if tnow < told then told - tnow else reload - tnow + told
  }

  predicate Ordered(times: seq<nat>) {
    forall i, j | 0 <= i < j < |times| :: times[i] <= times[j]
  }

  /** The cycle of the last poll. */
  function Latest(times: seq<nat>): nat {
    if times == [] then 0 else times[|times| - 1]
  }

  function Counted(reload: nat, start: nat, times: seq<nat>): nat {
    if times == [] then 0
    else
      var before := times[..|times| - 1];
      Counted(reload, start, before)
        + Delta(reload, Value(reload, start, Latest(before)), Value(reload, start, Latest(times)))
  }

  /** Every poll comes less than a period after the one before. */
  predicate Frequent(reload: nat, times: seq<nat>) {
    forall i | 0 <= i < |times| :: times[i] - Latest(times[..i]) <= reload
  }

  /** The timer has lost a cycle for each that passed and gained a period for each reload. */
  lemma ValueCounts(reload: nat, start: nat, t: nat)
    requires start <= reload
    ensures Value(reload, start, t) == start - t + Reloads(reload, start, t) * (reload + 1)
  {
    var p := reload + 1;
    var q, r := (t + reload - start) / p, (t + reload - start) % p;
    assert t + reload - start == q * p + r;
    Distribute(0, q, p);
    Divided(p, start - t, -q, reload - r);
  }

  /** One poll adds at most the cycles passed less the reloads among them, and exactly that when it
      comes within a period. */
  lemma PollCounts(reload: nat, start: nat, t: nat, u: nat)
    requires start <= reload && reload >= 1 && t <= u
    ensures Reloads(reload, start, t) <= Reloads(reload, start, u)
    ensures var added := Delta(reload, Value(reload, start, t), Value(reload, start, u));
      var due := u - t - (Reloads(reload, start, u) - Reloads(reload, start, t));
      added <= due && (added == due <==> u - t <= reload)
  {
    hide Value, Reloads;
    ValueCounts(reload, start, t);
    ValueCounts(reload, start, u);
    var n := Reloads(reload, start, u) - Reloads(reload, start, t);
    var p := reload + 1;
    Distribute(Reloads(reload, start, u), Reloads(reload, start, t), p);
    assert Value(reload, start, u) == Value(reload, start, t) - (u - t) + n * p;
    Passed(reload, u - t, n, Value(reload, start, t), Value(reload, start, u));
  }

  lemma Passed(reload: nat, e: nat, n: int, told: nat, tnow: nat)
    requires reload >= 1 && told <= reload && tnow <= reload
    requires tnow == told - e + n * (reload + 1)
    ensures n >= 0 && Delta(reload, told, tnow) <= e - n
    ensures Delta(reload, told, tnow) == e - n <==> e <= reload
  {
    Product(n, reload);
    if n < 0 {
      assert false;
    }
  }

  lemma Product(n: int, reload: nat)
    ensures n * (reload + 1) == n * reload + n
    ensures n <= -1 ==> n * reload + reload <= 0
    ensures n == 0 ==> n * reload == 0
    ensures n == 1 ==> n * reload == reload
    ensures n >= 2 ==> n * reload >= 2 * reload
  {
    if n <= -1 {
      Distribute(n, -1, reload);
      Scale(0, -1 - n, reload);
    } else if n >= 2 {
      Scale(2, n, reload);
    }
  }

  /** However the polls fall, the count is at most the cycles passed less the reloads; it is that
      number exactly when no poll comes a period or more after the one before. */
  lemma {:induction false} CountIsSafe(reload: nat, start: nat, times: seq<nat>)
    requires start <= reload && reload >= 1 && Ordered(times)
    ensures Counted(reload, start, times) + Reloads(reload, start, Latest(times)) <= Latest(times)
    ensures Counted(reload, start, times) + Reloads(reload, start, Latest(times)) == Latest(times)
      <==> Frequent(reload, times)
  {
    hide Value, Delta;
    if times == [] {
      Divided(reload + 1, reload - start, 0, reload - start);
    } else {
      var k := |times| - 1;
      var before := times[..k];
      CountIsSafe(reload, start, before);
      PollCounts(reload, start, Latest(before), Latest(times));
      FrequentStep(reload, times);
    }
  }

  lemma FrequentStep(reload: nat, times: seq<nat>)
    requires times != []
    ensures var k := |times| - 1;
      Frequent(reload, times) <==> Frequent(reload, times[..k]) && times[k] - Latest(times[..k]) <= reload
  {
    var before := times[..|times| - 1];
    forall i | 0 <= i < |before|
      ensures before[..i] == times[..i] && before[i] == times[i]
    {
    }
    if Frequent(reload, before) && times[|before|] - Latest(before) <= reload {
      forall i | 0 <= i < |times|
        ensures times[i] - Latest(times[..i]) <= reload
      {
        if i < |before| {
          assert before[i] - Latest(before[..i]) <= reload;
        }
      }
    }
    if Frequent(reload, times) {
      forall i | 0 <= i < |before|
        ensures before[i] - Latest(before[..i]) <= reload
      {
        assert times[i] - Latest(times[..i]) <= reload;
      }
    }
  }

  /** Two cycles, in thousandths of a cycle, and a little for reload values below 1000. */
  function Slack(reload: nat): nat
    requires reload >= 1
  {
    2000 + 999 / reload
  }

  /** A count that reaches the wanted number means that less than two cycles are missing from the
      time asked for, in thousandths of a cycle: the reloads make up for the period being one longer
      than the reload value. */
  lemma LessThanTwoCyclesEarly(us: nat, reload: nat, start: nat, t: nat, counted: nat)
    requires start <= reload && reload >= 1 && us * reload < WORD
    requires Wanted(us, reload) <= counted && counted + Reloads(reload, start, t) <= t
    ensures us * (reload + 1) < 1000 * t + Slack(reload)
  {
    hide Reloads, Wanted;
    var q, r := t / (reload + 1), t % (reload + 1);
    assert t == q * (reload + 1) + r;
    EveryPeriodReloads(reload, start, t);
    WantedNearly(us, reload);
    Parts(us, reload);
    Parts(q, reload);
    Shortfall(us, reload, q, r);
  }

  lemma Parts(x: nat, reload: nat)
    ensures x * (reload + 1) == x * reload + x
  {
  }

  lemma WantedNearly(us: nat, reload: nat)
    requires us * reload < WORD
    ensures us * reload <= 1000 * Wanted(us, reload) + 999
  {
  }

  lemma EveryPeriodReloads(reload: nat, start: nat, t: nat)
    requires start <= reload
    ensures t / (reload + 1) <= Reloads(reload, start, t)
  {
    var p := reload + 1;
    var q, n := t / p, (t + reload - start) / p;
    assert q * p <= t < n * p + p;
    if n < q {
      Scale(n + 1, q, p);
      Distribute(n, -1, p);
      assert false;
    }
  }

  lemma Shortfall(us: nat, reload: nat, q: nat, r: nat)
    requires us * reload <= 1000 * (q * reload + r) + 999 && r <= reload && reload >= 1
    ensures us <= 1000 * q + 1000 + 999 / reload
  {
    var e := 999 / reload;
    if us >= 1000 * q + 1001 + e {
      Scale(1000 * q + 1001 + e, us, reload);
      Distribute(1000 * q, -1001 - e, reload);
      Quotient(999, reload);
      Distribute(1001, -e, reload);
      assert false;
    }
  }

  // ----- When the loop stops -----

  /** The test of the loop succeeds at poll `i`. */
  predicate Suffices(us: nat, reload: nat, start: nat, times: seq<nat>, i: nat)
    requires i < |times|
  {
    && Value(reload, start, times[i]) != Value(reload, start, Latest(times[..i]))
    && Counted(reload, start, times[..i + 1]) >= Wanted(us, reload)
  }

  /** The loop returns at poll `i`: the first that suffices. */
  predicate StopsAt(us: nat, reload: nat, start: nat, times: seq<nat>, i: nat) {
    && i < |times| && Suffices(us, reload, start, times, i)
    && forall j | 0 <= j < i :: !Suffices(us, reload, start, times, j)
  }

  /** Polls at the given cycles (counted from the first reading) until the count reaches the wanted
      number.  The count does not overflow, and the loop stops at the first poll that suffices. */
  method Delay(us: nat, reload: nat, start: nat, times: seq<nat>) returns (done: bool, polls: nat)
    requires us < WORD && 1 <= reload <= MAX_RELOAD && start <= reload && Ordered(times)
    ensures done ==> polls > 0 && StopsAt(us, reload, start, times, polls - 1)
    ensures !done ==> forall i | 0 <= i < |times| :: !Suffices(us, reload, start, times, i)
  {
    hide Value, Ordered, Wanted, Counted, Latest, Delta, Suffices;
    var tcnt: nat, told := 0, start;
    var ticks := us * reload % WORD / 1000;
    TicksSmall(us, reload);
    StartValue(reload, start);
    for i := 0 to |times|
      invariant tcnt == Counted(reload, start, times[..i])
      invariant told == Value(reload, start, Latest(times[..i]))
      invariant tcnt < ticks || tcnt == 0
      invariant forall j | 0 <= j < i :: !Suffices(us, reload, start, times, j)
    {
      var tnow := Value(reload, start, times[i]);
      CountStep(us, reload, start, times, i);
      NoOverflow(reload, told, tnow, tcnt);
      if tnow != told {
        if tnow < told {
          tcnt := (tcnt + (told - tnow)) % WORD;
        } else {
          tcnt := (tcnt + (reload - tnow + told)) % WORD;
        }
        told := tnow;
        if tcnt >= ticks {
          return true, i + 1;
        }
      }
    }
    done, polls := false, |times|;
  }

  lemma TicksSmall(us: nat, reload: nat)
    ensures us * reload % WORD / 1000 == Wanted(us, reload) < 4_294_968
  {
  }

  lemma StartValue(reload: nat, start: nat)
    requires start <= reload
    ensures Value(reload, start, Latest([])) == start && Counted(reload, start, []) == 0
  {
  }

  lemma CountStep(us: nat, reload: nat, start: nat, times: seq<nat>, i: nat)
    requires i < |times|
    ensures Latest(times[..i + 1]) == times[i]
    ensures var told, tnow := Value(reload, start, Latest(times[..i])), Value(reload, start, times[i]);
      var count := Counted(reload, start, times[..i]) + Delta(reload, told, tnow);
      && Counted(reload, start, times[..i + 1]) == count
      && (Suffices(us, reload, start, times, i) <==> tnow != told && count >= Wanted(us, reload))
  {
    hide Value, Delta, Wanted;
    assert times[..i + 1][..i] == times[..i];
  }

  lemma NoOverflow(reload: nat, told: nat, tnow: nat, tcnt: nat)
    requires told <= reload && tnow <= reload <= MAX_RELOAD && tcnt < 4_294_968
    ensures tcnt + Delta(reload, told, tnow) < WORD
    ensures (tcnt + Delta(reload, told, tnow)) % WORD == tcnt + Delta(reload, told, tnow)
    ensures Delta(reload, told, tnow)
      == if tnow == told then 0 else if tnow < told then told - tnow else reload - tnow + told
  {
  }

  /** What a sufficient count means. */
  lemma NeverEarly(us: nat, reload: nat, start: nat, times: seq<nat>, i: nat)
    requires 1 <= reload && start <= reload && Ordered(times) && i < |times|
    requires Counted(reload, start, times[..i + 1]) >= Wanted(us, reload)
    ensures times[i] >= Wanted(us, reload) + Reloads(reload, start, times[i])
    ensures us * reload < WORD ==> us * (reload + 1) < 1000 * times[i] + Slack(reload)
  {
    hide Reloads, Wanted, Counted, Slack;
    CountIsSafe(reload, start, times[..i + 1]);
    if us * reload < WORD {
      LessThanTwoCyclesEarly(us, reload, start, times[i], Counted(reload, start, times[..i + 1]));
    }
  }

  /** Polled often enough, the loop does stop: at the latest when as many cycles as wanted, and one
      for each reload, have passed. */
  lemma {:induction false} FrequentPollsEnd(us: nat, reload: nat, start: nat, times: seq<nat>) returns (i: nat)
    requires 1 <= reload && start <= reload && Ordered(times) && Frequent(reload, times)
    requires Latest(times) > Reloads(reload, start, Latest(times))
    requires Latest(times) >= Wanted(us, reload) + Reloads(reload, start, Latest(times))
    ensures StopsAt(us, reload, start, times, i)
  {
    hide Value, Reloads, Wanted, Counted, Delta, Suffices;
    CountIsSafe(reload, start, times);
    assert times[..|times|] == times;
    i := CountStops(us, reload, start, times, |times|);
  }

  lemma {:induction false} CountStops(us: nat, reload: nat, start: nat, times: seq<nat>, n: nat) returns (i: nat)
    requires n <= |times|
    requires Counted(reload, start, times[..n]) > 0 && Counted(reload, start, times[..n]) >= Wanted(us, reload)
    ensures StopsAt(us, reload, start, times, i)
  {
    hide Value, Wanted, Counted, Delta, Suffices, Latest;
    NothingCounted(reload, start, times);
    if n == 0 {
      assert false;
    } else if j :| 0 <= j < n - 1 && Suffices(us, reload, start, times, j) {
      i := FirstSuffices(us, reload, start, times, j);
    } else {
      CountStep(us, reload, start, times, n - 1);
      SameAddsNothing(reload, Value(reload, start, times[n - 1]));
      if Suffices(us, reload, start, times, n - 1) {
        i := n - 1;
      } else {
        i := CountStops(us, reload, start, times, n - 1);
      }
    }
  }

  lemma NothingCounted(reload: nat, start: nat, times: seq<nat>)
    ensures Counted(reload, start, times[..0]) == 0
  {
  }

  lemma SameAddsNothing(reload: nat, v: nat)
    requires v <= reload
    ensures Delta(reload, v, v) == 0
  {
  }

  lemma {:induction false} FirstSuffices(us: nat, reload: nat, start: nat, times: seq<nat>, j: nat) returns (i: nat)
    requires j < |times| && Suffices(us, reload, start, times, j)
    ensures StopsAt(us, reload, start, times, i)
  {
    hide Suffices;
    if k: nat :| k < j && Suffices(us, reload, start, times, k) {
      i := FirstSuffices(us, reload, start, times, k);
    } else {
      i := j;
    }
  }

  // ----- Waits whose product wraps -----

  /** The wrapped product asks for at least 2^32 thousandths less than was meant. */
  lemma WantedWraps(us: nat, reload: nat)
    requires us * reload >= WORD
    ensures 1000 * Wanted(us, reload) + WORD <= us * reload
  {
    Wrapped(us * reload);
  }

  lemma Wrapped(x: nat)
    requires x >= WORD
    ensures 1000 * (x % WORD / 1000) + WORD <= x
  {
  }

  /** The cycle at which a count of `n` is reached when every cycle is polled from a full timer. */
  function ReachedAt(n: nat, reload: nat): nat
    requires n > 0 && reload > 0
  {
    n + (n - 1) / reload
  }

  /** One poll at every cycle. */
  function EveryCycle(n: nat): (times: seq<nat>)
    ensures |times| == n
  {
    seq(n, i => i + 1)
  }

  lemma EveryCycleCounts(reload: nat, m: nat, n: nat)
    requires reload >= 1 && n <= m
    ensures Ordered(EveryCycle(m)) && Latest(EveryCycle(m)[..n]) == n
    ensures Counted(reload, reload, EveryCycle(m)[..n]) == n - n / (reload + 1)
  {
    hide Counted, Value;
    var times := EveryCycle(m)[..n];
    forall i | 0 <= i < |times|
      ensures times[i] - Latest(times[..i]) <= reload
    {
      CyclesBefore(m, n, i);
    }
    CyclesBefore(m, n, n);
    assert times[..n] == times;
    CountIsSafe(reload, reload, times);
  }

  lemma CyclesBefore(m: nat, n: nat, i: nat)
    requires i <= n <= m
    ensures Latest(EveryCycle(m)[..n][..i]) == i && (i < n ==> EveryCycle(m)[..n][i] == i + 1)
  {
    var times := EveryCycle(m)[..n];
    if i > 0 {
      assert times[..i][i - 1] == times[i - 1];
      assert times[i - 1] == EveryCycle(m)[i - 1];
    }
  }

  /** Before that cycle the count is lower. */
  lemma ReachedFirst(n: nat, reload: nat, t: nat)
    requires n > 0 && reload > 0 && t <= ReachedAt(n, reload)
    ensures t - t / (reload + 1) <= n
    ensures t - t / (reload + 1) == n <==> t == ReachedAt(n, reload)
  {
    var p := reload + 1;
    var q, r := (n - 1) / reload, (n - 1) % reload;
    assert n - 1 == q * reload + r;
    var full := ReachedAt(n, reload);
    assert full == q * p + (r + 1) by {
      assert q * p == q * reload + q;
    }
    Divided(p, full, q, r + 1);
    var q', r' := t / p, t % p;
    assert t == q' * p + r';
    QuotientMonotone(t, full, p);
    if q' < q {
      Scale(q' + 1, q, reload);
      Distribute(q', -1, reload);
      assert q' * p == q' * reload + q';
    }
  }

  lemma ReachedSoon(n: nat, reload: nat)
    requires n > 0 && reload > 0
    ensures ReachedAt(n, reload) * reload <= n * (reload + 1)
  {
    var q := (n - 1) / reload;
    Quotient(n - 1, reload);
    Distribute(n, -q, reload);
    assert n * (reload + 1) == n * reload + n;
  }

  lemma FarTooEarly(us: nat, reload: nat, w: nat, t: nat)
    requires reload > 0 && 1000 * w + WORD <= us * reload && t * reload <= (w + 1) * (reload + 1)
    ensures us * (reload + 1) >= 1000 * t + WORD - 1000
  {
    var p := reload + 1;
    Scale(1000 * w + WORD, us * reload, p);
    Swap(us, reload, p);
    assert (1000 * w + WORD) * p == 1000 * ((w + 1) * p) + (WORD - 1000) * p by {
      Distribute(1000 * (w + 1), -(WORD - 1000), p);
    }
    Scale(reload, p, WORD - 1000);
    if us * p < 1000 * t + WORD - 1000 {
      Scale(us * p + 1, 1000 * t + WORD - 1000, reload);
      Distribute(us * p, -1, reload);
      Distribute(1000 * t, -(WORD - 1000), reload);
      assert false;
    }
  }

  lemma Swap(a: nat, b: nat, c: nat)
    ensures a * b * c == a * c * b
  {
  }

  /** When the product wraps, a full timer polled at every cycle stops the wait at least 2^32 - 1000
      thousandths of a cycle, about 4.29 million cycles, too early. */
  lemma EarlySchedule(us: nat, reload: nat) returns (times: seq<nat>)
    requires 1 <= reload && us * reload >= WORD
    ensures times == EveryCycle(ReachedAt(if Wanted(us, reload) == 0 then 1 else Wanted(us, reload), reload))
    ensures times != [] && Ordered(times) && StopsAt(us, reload, reload, times, |times| - 1)
    ensures times[|times| - 1] == |times|
    ensures us * (reload + 1) >= 1000 * |times| + WORD - 1000
  {
    hide Counted, Value, Wanted, Latest, Delta, ReachedAt, Ordered;
    var w := Wanted(us, reload);
    var n := if w == 0 then 1 else w;
    var t := ReachedAt(n, reload);
    ReachedIsLater(n, reload);
    times := EveryCycle(t);
    forall j: nat | j < t
      ensures Suffices(us, reload, reload, times, j) <==> j == t - 1
    {
      EveryCycleCounts(reload, t, j);
      EveryCycleCounts(reload, t, j + 1);
      ReachedFirst(n, reload, j);
      ReachedFirst(n, reload, j + 1);
      CountStep(us, reload, reload, times, j);
      SameAddsNothing(reload, Value(reload, reload, times[j]));
    }
    EveryCycleCounts(reload, t, t);
    WantedWraps(us, reload);
    ReachedSoon(n, reload);
    Scale(n, w + 1, reload + 1);
    FarTooEarly(us, reload, w, t);
  }

  lemma ReachedIsLater(n: nat, reload: nat)
    requires n > 0 && reload > 0
    ensures ReachedAt(n, reload) >= n && (n == 1 ==> ReachedAt(n, reload) == 1)
  {
  }

  /** On every schedule the wait is at most two cycles (and a little, for short periods) too short,
      exactly when the product fits 32 bits. */
  lemma NeverEarlyIff(us: nat, reload: nat)
    requires 1 <= reload
    ensures us * reload < WORD <==>
      forall start: nat, times: seq<nat>, i: nat |
        start <= reload && Ordered(times) && StopsAt(us, reload, start, times, i) ::
        us * (reload + 1) < 1000 * times[i] + Slack(reload)
  {
    hide Counted, Wanted, Ordered;
    if us * reload < WORD {
      forall start: nat, times: seq<nat>, i: nat |
        start <= reload && Ordered(times) && StopsAt(us, reload, start, times, i)
        ensures us * (reload + 1) < 1000 * times[i] + Slack(reload)
      {
        NeverEarly(us, reload, start, times, i);
      }
    } else {
      var times := EarlySchedule(us, reload);
      var i := |times| - 1;
      assert us * (reload + 1) >= 1000 * times[i] + Slack(reload) by {
        Shrink(reload);
      }
    }
  }

  lemma Shrink(reload: nat)
    requires reload >= 1
    ensures Slack(reload) <= 2999
  {
  }

  /** Such a run: every wait whose product wraps can come back that early. */
  method WaitTooShort(us: nat, reload: nat) returns (cycles: nat)
    requires us < WORD && 1 <= reload <= MAX_RELOAD && us * reload >= WORD
    ensures us * (reload + 1) >= 1000 * cycles + WORD - 1000
    ensures Wanted(us, reload) > 0 ==> cycles == ReachedAt(Wanted(us, reload), reload)
  {
    hide Suffices, Wanted, ReachedAt, Ordered;
    ghost var schedule := EarlySchedule(us, reload);
    var n := us * reload % WORD / 1000;
    TicksSmall(us, reload);
    var times := EveryCycle(ReachedAt(if n == 0 then 1 else n, reload));
    var done, polls := Delay(us, reload, reload, times);
    cycles := times[polls - 1];
  }

  /** With the timer at 168 MHz, a wait of 25566 microseconds returns after 95 cycles instead of
      4 295 088. */
  method LongWaitWraps() returns (cycles: nat)
    ensures cycles == 95
  {
    LongWait();
    cycles := WaitTooShort(25566, 167_999);
  }

  lemma LongWait()
    ensures 25566 * 167_999 >= WORD && Wanted(25566, 167_999) == 95 && ReachedAt(95, 167_999) == 95
    ensures 25566 * 168_000 / 1000 == 4_295_088
  {
    assert 25566 * 167_999 % WORD == 95_138;
  }
}
