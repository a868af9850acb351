/** Setting the period and pulse of a PWM timer, and reading them back.  Times are in nanoseconds,
    the timer clock in megahertz; the source computes in 32-bit and 64-bit unsigned integers. */
module PwmTimer {
  import opened Machine
  import opened Division

  const MAX_PERIOD: nat := 65535
  const MIN_PERIOD: nat := 3
  const MIN_PULSE: nat := 2
  const MAX_CLOCK: nat := 168

  datatype Registers = Registers(psc: nat, arr: nat, ccr: nat)

  /** Timer clocks in a time. */
  function Ticks(ns: nat, clk: nat): nat {
    ns * clk / 1000
  }

  /** The divisor of the timer clock. */
  function Divisor(ticks: nat): (d: nat)
    ensures d >= 1
  {
    ticks / MAX_PERIOD + 1
  }

  function Clamp(x: nat, low: nat, high: nat): nat {
    if x < low then low else if x > high then high else x
  }

  /** The registers for a request, computed without any bound on integers. */
  function Programmed(period: nat, pulse: nat, clk: nat): Registers {
    var d := Divisor(Ticks(period, clk));
    var count := Ticks(period, clk) / d;
    var reload := if count < MIN_PERIOD then MIN_PERIOD else count;
    Registers(d - 1, reload - 1, Clamp(pulse * clk / d / 1000, MIN_PULSE, reload) - 1)
  }

  /** The time a count takes, in the 32-bit product the driver computes. */
  function Time(count: nat, psc: nat, clk: nat): nat
    requires clk > 0
  {
    count * (psc + 1) * 1000 % WORD / clk
  }

  class Timer {
    var psc: nat
    var arr: nat
    var ccr: nat

    function Regs(): Registers
      reads this
    {
      Registers(psc, arr, ccr)
    }

    constructor ()
    {
      psc, arr, ccr := 0, 0, 0;
    }

    /** No conversion to 32 bits loses anything. */
    method Set(period: nat, pulse: nat, clk: nat)
      requires period < WORD && pulse < WORD && 1 <= clk <= MAX_CLOCK
      modifies this
      ensures Regs() == Programmed(period, pulse, clk)
    {
      hide Ticks, Divisor, Clamp;
      SmallTicks(period, clk);
      var count := period * clk / 1000 % WORD;
      var d := count / MAX_PERIOD + 1;
      DivisorIs(count);
      count := count / d;
      psc := d - 1;
      if count < MIN_PERIOD {
        count := MIN_PERIOD;
      }
      arr := count - 1;
      PulseNotTruncated(pulse, clk, d);
      var width := pulse * clk / d / 1000 % WORD;
      ClampIs(width, MIN_PULSE, count);
      if width < MIN_PULSE {
        width := MIN_PULSE;
      } else if width > count {
        width := count;
      }
      ccr := width - 1;
    }

    method Get(clk: nat) returns (period: nat, pulse: nat)
      requires 1 <= clk
      ensures period == Time(arr + 1, psc, clk) && pulse == Time(ccr + 1, psc, clk)
    {
      hide Time;
      TimeIs(arr + 1, psc, clk);
      TimeIs(ccr + 1, psc, clk);
      period := (arr + 1) * (psc + 1) * 1000 % WORD / clk;
      pulse := (ccr + 1) * (psc + 1) * 1000 % WORD / clk;
    }

    /** What a caller reads back after setting a period of at least three timer clocks. */
    method SetThenGet(period: nat, pulse: nat, clk: nat) returns (gotPeriod: nat, gotPulse: nat)
      requires period < WORD && pulse < WORD && 1 <= clk <= MAX_CLOCK
      modifies this
      ensures (ccr + 1) * (psc + 1) * 1000 / WORD == (arr + 1) * (psc + 1) * 1000 / WORD ==> gotPulse <= gotPeriod
      ensures period * clk < WORD ==> gotPulse <= gotPeriod
      ensures period * clk >= 3000 ==>
        (Close(period, gotPeriod, psc + 1, clk) <==> (arr + 1) * (psc + 1) * 1000 < WORD)
      ensures 3000 <= period * clk < WORD ==> Close(period, gotPeriod, psc + 1, clk)
      ensures period * clk < 3000 ==> gotPeriod == 3000 / clk >= period
    {
      hide Programmed, Time, Close;
      Set(period, pulse, clk);
      gotPeriod, gotPulse := Get(clk);
      PeriodBack(period, pulse, clk);
      PulseWithinPeriod(period, pulse, clk);
      if period * clk < WORD {
        ShortProducts(period, pulse, clk);
      }
    }
  }

  // ----- Widths -----

  lemma NoTruncation(ns: nat, clk: nat)
    requires ns < WORD && clk <= MAX_CLOCK
    ensures Ticks(ns, clk) < 721_600_000
  {
    Scale(clk, MAX_CLOCK, ns);
  }

  lemma SmallTicks(ns: nat, clk: nat)
    requires ns < WORD && clk <= MAX_CLOCK
    ensures ns * clk / 1000 % WORD == Ticks(ns, clk)
  {
    NoTruncation(ns, clk);
  }

  lemma DivisorIs(ticks: nat)
    ensures ticks / MAX_PERIOD + 1 == Divisor(ticks)
  {
  }

  lemma ClampIs(x: nat, low: nat, high: nat)
    ensures Clamp(x, low, high) == if x < low then low else if x > high then high else x
  {
  }

  lemma Shrinks(x: nat, d: nat)
    requires d >= 1
    ensures x / d <= x
  {
    Quotient(x, d);
    Scale(1, d, x / d);
  }

  lemma PulseNotTruncated(pulse: nat, clk: nat, d: nat)
    requires pulse < WORD && clk <= MAX_CLOCK && d >= 1
    ensures pulse * clk / d / 1000 % WORD == pulse * clk / d / 1000
  {
    Scale(clk, MAX_CLOCK, pulse);
    Shrinks(pulse * clk, d);
  }

  /** The divisor is the least that brings the count below the largest period. */
  lemma DivisorIsLeast(ticks: nat, d: nat)
    requires d >= 1
    ensures Divisor(ticks) <= d <==> ticks < MAX_PERIOD * d
  {
  }

  lemma CountFits(ticks: nat)
    ensures ticks / Divisor(ticks) < MAX_PERIOD
    ensures ticks / Divisor(ticks) < MIN_PERIOD <==> ticks < MIN_PERIOD
  {
    var d := Divisor(ticks);
    DivisorIsLeast(ticks, d);
    Quotient(ticks, d);
    if ticks / d >= MAX_PERIOD {
      Scale(MAX_PERIOD, ticks / d, d);
    }
    if ticks < MAX_PERIOD {
      assert d == 1;
    } else if ticks / d < MIN_PERIOD {
      Scale(ticks / d, 2, d);
      assert false;
    }
  }

  /** Prescaler and reload fit their 16-bit registers, and the compare value never passes the
      reload, for every 32-bit request and every clock up to 168 MHz. */
  lemma RegistersFit(period: nat, pulse: nat, clk: nat)
    requires period < WORD && 1 <= clk <= MAX_CLOCK
    ensures var r := Programmed(period, pulse, clk);
      && r.psc < 65536
      && 2 <= r.arr < 65536
      && 1 <= r.ccr <= r.arr
  {
    NoTruncation(period, clk);
    CountFits(Ticks(period, clk));
  }

  // ----- Set, then get -----

  /** At most the request, and short of it by less than one divided clock and one nanosecond. */
  predicate Close(want: nat, got: nat, d: nat, clk: nat) {
    got <= want && (want - got) * clk < 1000 * d + clk
  }

  /** A count of divided clocks that is right to less than one is read back close. */
  lemma TimeClose(want: nat, count: nat, d: nat, clk: nat)
    requires clk >= 1 && d >= 1
    requires count * d * 1000 <= want * clk < count * d * 1000 + 1000 * d
    requires count * d * 1000 < WORD
    ensures Close(want, Time(count, d - 1, clk), d, clk)
  {
    hide Time;
    var product := count * d * 1000;
    TimeUnwrapped(count, d - 1, clk);
    Quotient(product, clk);
    Difference(want, product / clk, clk, product, 1000 * d);
  }

  lemma Difference(want: nat, got: nat, clk: nat, product: nat, slack: nat)
    requires got * clk <= product < got * clk + clk
    requires product <= want * clk < product + slack
    ensures got <= want && (want - got) * clk < slack + clk
  {
    if got > want {
      Scale(want + 1, got, clk);
      assert false;
    }
    assert (want - got) * clk == want * clk - got * clk;
  }

  /** When the product wraps, at least 2^32 is lost: more than the closeness allows. */
  lemma TimeWraps(want: nat, count: nat, d: nat, clk: nat)
    requires 1 <= clk <= MAX_CLOCK && 1 <= d <= 65536
    requires WORD <= count * d * 1000 <= want * clk
    ensures !Close(want, Time(count, d - 1, clk), d, clk)
  {
    var product := count * d * 1000;
    var got := product % WORD / clk;
    Quotient(product % WORD, clk);
    assert product % WORD <= product - WORD;
    if got <= want {
      assert (want - got) * clk == want * clk - got * clk;
    }
  }

  lemma CountIsClose(period: nat, clk: nat)
    ensures var d := Divisor(Ticks(period, clk));
      var count := Ticks(period, clk) / d;
      count * d * 1000 <= period * clk < count * d * 1000 + 1000 * d
  {
    var ticks := Ticks(period, clk);
    Quotient(ticks, Divisor(ticks));
    Quotient(period * clk, 1000);
  }

  /** The period read back is close to a request of at least three timer clocks exactly when the
      32-bit product does not wrap, in particular whenever the request is below 2^32 when multiplied
      by the clock; a shorter request is read back as three clocks. */
  lemma PeriodBack(period: nat, pulse: nat, clk: nat)
    requires period < WORD && 1 <= clk <= MAX_CLOCK
    ensures var r := Programmed(period, pulse, clk);
      var got := Time(r.arr + 1, r.psc, clk);
      var product := (r.arr + 1) * (r.psc + 1) * 1000;
      && (period * clk >= 3000 ==>
            && (Close(period, got, r.psc + 1, clk) <==> product < WORD)
            && product <= period * clk)
      && (period * clk < 3000 ==> got == 3000 / clk >= period)
  {
    hide Time, Programmed;
    if period * clk >= 3000 {
      LongPeriod(period, pulse, clk);
      var r := Programmed(period, pulse, clk);
      if (r.arr + 1) * (r.psc + 1) * 1000 < WORD {
        TimeClose(period, r.arr + 1, r.psc + 1, clk);
      } else {
        TimeWraps(period, r.arr + 1, r.psc + 1, clk);
      }
    } else {
      ShortPeriod(period, pulse, clk);
      TimeUnwrapped(3, 0, clk);
      Quotient(3000, clk);
      if 3000 / clk < period {
        Scale(3000 / clk + 1, period, clk);
        assert false;
      }
    }
  }

  lemma LongPeriod(period: nat, pulse: nat, clk: nat)
    requires period < WORD && 1 <= clk <= MAX_CLOCK && period * clk >= 3000
    ensures var r := Programmed(period, pulse, clk);
      var product := (r.arr + 1) * (r.psc + 1) * 1000;
      r.psc < 65536 && product <= period * clk < product + 1000 * (r.psc + 1)
  {
    RegistersFit(period, pulse, clk);
    CountFits(Ticks(period, clk));
    CountIsClose(period, clk);
  }

  lemma ShortPeriod(period: nat, pulse: nat, clk: nat)
    requires period * clk < 3000
    ensures Programmed(period, pulse, clk).psc == 0 && Programmed(period, pulse, clk).arr == 2
  {
    CountFits(Ticks(period, clk));
  }

  /** A pulse that meets neither bound is read back close exactly when its product does not wrap. */
  lemma PulseBack(period: nat, pulse: nat, clk: nat)
    requires period < WORD && pulse < WORD && 1 <= clk <= MAX_CLOCK
    requires var r := Programmed(period, pulse, clk);
      MIN_PULSE <= pulse * clk / (r.psc + 1) / 1000 <= r.arr + 1
    ensures var r := Programmed(period, pulse, clk);
      Close(pulse, Time(r.ccr + 1, r.psc, clk), r.psc + 1, clk) <==> (r.ccr + 1) * (r.psc + 1) * 1000 < WORD
  {
    hide Time, Close;
    var r := Programmed(period, pulse, clk);
    var d := r.psc + 1;
    RegistersFit(period, pulse, clk);
    Quotient(pulse * clk, d);
    Quotient(pulse * clk / d, 1000);
    Nested(pulse * clk, d, pulse * clk / d, r.ccr + 1);
    if (r.ccr + 1) * d * 1000 < WORD {
      TimeClose(pulse, r.ccr + 1, d, clk);
    } else {
      TimeWraps(pulse, r.ccr + 1, d, clk);
    }
  }

  /** The compare value counts the whole divided clocks of the pulse, no fewer than two and no more
      than the period has. */
  lemma CompareIs(period: nat, pulse: nat, clk: nat, n: nat)
    requires period < WORD && 1 <= clk <= MAX_CLOCK
    ensures var r := Programmed(period, pulse, clk);
      n <= r.ccr + 1 <==> n <= 2 || (n <= r.arr + 1 && n * (r.psc + 1) * 1000 <= pulse * clk)
  {
    hide Programmed, Clamp;
    var r := Programmed(period, pulse, clk);
    var width := pulse * clk / (r.psc + 1) / 1000;
    RegistersFit(period, pulse, clk);
    WholeClocks(pulse * clk, r.psc + 1, n);
    ClampedAt(width, MIN_PULSE, r.arr + 1, n);
    CompareClamped(period, pulse, clk);
  }

  lemma CompareClamped(period: nat, pulse: nat, clk: nat)
    ensures var r := Programmed(period, pulse, clk);
      r.ccr + 1 == Clamp(pulse * clk / (r.psc + 1) / 1000, MIN_PULSE, r.arr + 1)
  {
  }

  lemma WholeClocks(x: nat, d: nat, n: nat)
    requires d > 0
    ensures n <= x / d / 1000 <==> n * d * 1000 <= x
  {
    var width := x / d / 1000;
    if n * d * 1000 <= x {
      Undivided(x, d, n);
    } else if n <= width {
      Quotient(x, d);
      Quotient(x / d, 1000);
      Nested(x, d, x / d, width);
      Scale(n, width, d);
      assert false;
    }
  }

  lemma ClampedAt(x: nat, low: nat, high: nat, n: nat)
    requires low <= high
    ensures n <= Clamp(x, low, high) <==> n <= low || (n <= high && n <= x)
  {
  }

  /** A pulse as long as the period, or longer, gives full duty; nothing shorter than the period by a
      divided clock and more does. */
  lemma FullDuty(period: nat, pulse: nat, clk: nat)
    requires period < WORD && 1 <= clk <= MAX_CLOCK && period * clk >= 3000
    ensures var r := Programmed(period, pulse, clk);
      && (pulse >= period ==> r.ccr == r.arr)
      && (r.ccr == r.arr ==> pulse * clk + 1000 * (r.psc + 1) > period * clk)
  {
    var r := Programmed(period, pulse, clk);
    var d := r.psc + 1;
    var ticks := Ticks(period, clk);
    CountFits(ticks);
    CountIsClose(period, clk);
    assert r.arr + 1 == ticks / d;
    if pulse >= period {
      Scale(period, pulse, clk);
      Undivided(pulse * clk, d, r.arr + 1);
    }
    if r.ccr == r.arr {
      Quotient(pulse * clk, d);
      Quotient(pulse * clk / d, 1000);
      Nested(pulse * clk, d, pulse * clk / d, pulse * clk / d / 1000);
      Scale(r.arr + 1, pulse * clk / d / 1000, d);
    }
  }

  lemma Undivided(x: nat, d: nat, n: nat)
    requires d > 0 && n * d * 1000 <= x
    ensures n <= x / d / 1000
  {
    Quotient(x, d);
    Reorder(n, d);
    if x / d < n * 1000 {
      Scale(x / d + 1, n * 1000, d);
      Distribute(x / d, -1, d);
      assert false;
    }
    AtLeastThousands(x / d, n);
  }

  lemma Reorder(n: nat, d: nat)
    ensures n * 1000 * d == n * d * 1000
  {
  }

  lemma AtLeastThousands(y: nat, n: nat)
    requires n * 1000 <= y
    ensures n <= y / 1000
  {
  }

  lemma Nested(x: nat, d: nat, y: nat, z: nat)
    requires y * d <= x < y * d + d && z * 1000 <= y < z * 1000 + 1000
    ensures z * d * 1000 <= x < z * d * 1000 + 1000 * d
  {
    Scale(z * 1000, y, d);
    Scale(y + 1, z * 1000 + 1000, d);
  }

  /** Read back, a pulse is no longer than its period when both products wrap equally often, which
      they do whenever the period's does not wrap. */
  lemma PulseWithinPeriod(period: nat, pulse: nat, clk: nat)
    requires period < WORD && 1 <= clk <= MAX_CLOCK
    ensures var r := Programmed(period, pulse, clk);
      (r.ccr + 1) * (r.psc + 1) * 1000 / WORD == (r.arr + 1) * (r.psc + 1) * 1000 / WORD ==>
        Time(r.ccr + 1, r.psc, clk) <= Time(r.arr + 1, r.psc, clk)
  {
    hide Programmed, Time;
    var r := Programmed(period, pulse, clk);
    RegistersFit(period, pulse, clk);
    if (r.ccr + 1) * (r.psc + 1) * 1000 / WORD == (r.arr + 1) * (r.psc + 1) * 1000 / WORD {
      TimeMonotone(r.ccr + 1, r.arr + 1, r.psc, clk);
    }
  }

  lemma TimeMonotone(x: nat, y: nat, psc: nat, clk: nat)
    requires x <= y && clk > 0
    requires x * (psc + 1) * 1000 / WORD == y * (psc + 1) * 1000 / WORD
    ensures Time(x, psc, clk) <= Time(y, psc, clk)
  {
    Scale(x, y, psc + 1);
    SameWraps(x * (psc + 1) * 1000, y * (psc + 1) * 1000);
    QuotientMonotone(x * (psc + 1) * 1000 % WORD, y * (psc + 1) * 1000 % WORD, clk);
  }

  lemma SameWraps(a: nat, b: nat)
    requires a <= b && a / WORD == b / WORD
    ensures a % WORD <= b % WORD
  {
  }

  /** Below 2^32 neither product wraps. */
  lemma ShortProducts(period: nat, pulse: nat, clk: nat)
    requires period < WORD && 1 <= clk <= MAX_CLOCK && period * clk < WORD
    ensures var r := Programmed(period, pulse, clk);
      (r.ccr + 1) * (r.psc + 1) * 1000 <= (r.arr + 1) * (r.psc + 1) * 1000 < WORD
  {
    hide Programmed;
    RegistersFit(period, pulse, clk);
    var r := Programmed(period, pulse, clk);
    Scale(r.ccr + 1, r.arr + 1, r.psc + 1);
    if period * clk >= 3000 {
      LongPeriod(period, pulse, clk);
    } else {
      ShortPeriod(period, pulse, clk);
    }
  }

  /** It is longer exactly when the wraps that the period's product has and the pulse's has not take
      away more than the difference of the two, to the nanosecond that is cut off. */
  lemma PulseLongerIff(period: nat, pulse: nat, clk: nat)
    requires period < WORD && 1 <= clk <= MAX_CLOCK
    ensures var r := Programmed(period, pulse, clk);
      var x, y := (r.ccr + 1) * (r.psc + 1) * 1000, (r.arr + 1) * (r.psc + 1) * 1000;
      Time(r.ccr + 1, r.psc, clk) > Time(r.arr + 1, r.psc, clk) <==>
        (y / WORD - x / WORD) * WORD + y % WORD % clk >= y - x + clk
  {
    hide Programmed, Time;
    var r := Programmed(period, pulse, clk);
    TimeIs(r.ccr + 1, r.psc, clk);
    TimeIs(r.arr + 1, r.psc, clk);
    LongerQuotient((r.ccr + 1) * (r.psc + 1) * 1000, (r.arr + 1) * (r.psc + 1) * 1000, clk);
  }

  lemma LongerQuotient(x: nat, y: nat, d: nat)
    requires d > 0
    ensures x % WORD / d > y % WORD / d <==> (y / WORD - x / WORD) * WORD + y % WORD % d >= y - x + d
  {
    var u, v := x % WORD, y % WORD;
    var q := v / d;
    assert v == q * d + v % d;
    Quotient(u, d);
    if u / d > q {
      Scale(q + 1, u / d, d);
      Distribute(q, -1, d);
    } else {
      Scale(u / d + 1, q + 1, d);
      Distribute(q, -1, d);
      Distribute(u / d, -1, d);
    }
    assert x == x / WORD * WORD + u && y == y / WORD * WORD + v;
    Distribute(y / WORD, x / WORD, WORD);
  }

  /** With unequal wraps it can be longer: a 26 ms period with a 13 ms pulse at 168 MHz is read back
      as 0.43 ms with a 13 ms pulse. */
  lemma PulseBeyondPeriod()
    ensures var r := Programmed(26_000_000, 13_000_000, 168);
      Time(r.arr + 1, r.psc, 168) == 434_706 && Time(r.ccr + 1, r.psc, 168) == 12_999_994
  {
    assert Ticks(26_000_000, 168) == 4_368_000;
    assert Divisor(4_368_000) == 67;
    assert 4_368_000 / 67 == 65194;
    assert 13_000_000 * 168 / 67 == 32_597_014;
    assert 65194 * 67 * 1000 == 4_367_998_000 && 32597 * 67 * 1000 == 2_183_999_000;
    assert 4_367_998_000 % WORD == 73_030_704 && 2_183_999_000 % WORD == 2_183_999_000;
  }

  lemma TimeIs(count: nat, psc: nat, clk: nat)
    requires clk > 0
    ensures Time(count, psc, clk) == count * (psc + 1) * 1000 % WORD / clk
  {
  }

  lemma TimeUnwrapped(count: nat, psc: nat, clk: nat)
    requires clk > 0 && count * (psc + 1) * 1000 < WORD
    ensures Time(count, psc, clk) == count * (psc + 1) * 1000 / clk
  {
    Unwrapped(count * (psc + 1) * 1000);
  }

  lemma Unwrapped(x: nat)
    requires x < WORD
    ensures x % WORD == x
  {
  }

  /** A 50 ms period at 168 MHz is read back as about 24 ms. */
  lemma FiftyMilliseconds()
    ensures var r := Programmed(50_000_000, 0, 168);
      Time(r.arr + 1, r.psc, 168) == 24_434_504
  {
    assert Ticks(50_000_000, 168) == 8_400_000;
    assert Divisor(8_400_000) == 129;
    assert 8_400_000 / 129 == 65116;
    assert 65116 * 129 * 1000 == 8_399_964_000;
    assert 8_399_964_000 % WORD == 4_104_996_704;
  }
}
