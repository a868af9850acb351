/** The smoothing windows and leaky counters behind the fatigue verdicts of the K230 controller:
    one fed by facial geometry on every call, one by an emotion model that may be unsure. */
module FatigueFilter {

  const HISTORY_SIZE: nat := 6

  datatype Verdict = Normal | Uncertain | Fatigue | Illness | Unknown

  function Sum(s: seq<real>): real {
    if s == [] then 0.0 else Sum(s[..|s| - 1]) + s[|s| - 1]
  }

  function Mean(s: seq<real>): real
    requires s != []
  {
    Sum(s) / (|s| as real)
  }

  lemma {:induction false} SumJoins(s: seq<real>, t: seq<real>)
    ensures Sum(s + t) == Sum(s) + Sum(t)
  {
    if t == [] {
      assert s + t == s;
    } else {
      SumJoins(s, t[..|t| - 1]);
      assert (s + t)[..|s + t| - 1] == s + t[..|t| - 1];
    }
  }

  lemma {:induction false} SumBetween(s: seq<real>, low: real, high: real)
    requires forall i | 0 <= i < |s| :: low <= s[i] <= high
    ensures low * (|s| as real) <= Sum(s) <= high * (|s| as real)
  {
    if s != [] {
      SumBetween(s[..|s| - 1], low, high);
    }
  }

  lemma Share(total: real, n: real)
    requires n > 0.0
    ensures total / n * n == total
  {
  }

  lemma LessShare(low: real, mean: real, high: real, n: real)
    requires n > 0.0 && low * n <= mean * n <= high * n
    ensures low <= mean <= high
  {
    Less(mean, low, n);
    Less(high, mean, n);
  }

  lemma Less(a: real, b: real, n: real)
    requires n > 0.0
    ensures a < b ==> a * n < b * n
  {
    if a < b {
      assert (b - a) * n > 0.0;
    }
  }

  /** The mean of one score is that score, and scores joined have the mean of their means, each
      weighing as much as it has scores. */
  lemma MeanJoins(x: real, s: seq<real>, t: seq<real>)
    requires s != [] && t != []
    ensures Mean([x]) == x
    ensures Mean(s + t) * (|s| as real + |t| as real) == Mean(s) * (|s| as real) + Mean(t) * (|t| as real)
  {
    hide Sum;
    SumJoins(s, t);
    Share(Sum(s), |s| as real);
    Share(Sum(t), |t| as real);
    Share(Sum(s + t), |s + t| as real);
    SumOne(x);
  }

  lemma SumOne(x: real)
    ensures Sum([x]) == x
  {
  }

  /** The mean lies between any bounds of the scores. */
  lemma MeanBetween(s: seq<real>, low: real, high: real)
    requires s != [] && forall i | 0 <= i < |s| :: low <= s[i] <= high
    ensures low <= Mean(s) <= high
  {
    hide Sum;
    SumBetween(s, low, high);
    Share(Sum(s), |s| as real);
    LessShare(low, Mean(s), high, |s| as real);
  }

  /** The window after one more score: appended, and the oldest dropped past the size. */
  function Push(h: seq<real>, x: real): (r: seq<real>)
    requires |h| <= HISTORY_SIZE
    ensures 1 <= |r| <= HISTORY_SIZE
  {
    if |h + [x]| > HISTORY_SIZE then (h + [x])[1..] else h + [x]
  }

  function Leak(c: nat, up: bool): nat {
    if up then c + 1 else if c > 0 then c - 1 else 0
  }

  datatype Filter = Filter(history: seq<real>, count: nat)

  const INITIAL := Filter([], 0)

  /** The thresholds of one analyser. */
  datatype Limits = Limits(fatigue: real, severe: real, required: nat)

  const GEOMETRY := Limits(0.25, 0.50, 3)
  const EMOTION := Limits(0.15, 0.30, 2)

  /** What one call is given: a score, or nothing to score.  `Unscored` drains the counter for the
      emotion model (low confidence) and leaves the geometry filter alone (eyes closed); `Missing`
      (no landmarks, or the model failed) leaves both alone. */
  datatype Reading = Score(x: real) | Unscored | Missing

  predicate Bounded(f: Filter) {
    |f.history| <= HISTORY_SIZE
  }

  function Scored(f: Filter, x: real, limits: Limits): (r: (Filter, Verdict))
    requires Bounded(f)
    ensures Bounded(r.0) && r.0.history != []
  {
    var h := Push(f.history, x);
    var m := Mean(h);
    var c := Leak(f.count, m >= limits.fatigue);
    (Filter(h, c),
     if c < limits.required then Normal
     else if m >= limits.severe then Illness
     else if m >= limits.fatigue then Fatigue
     else Normal)
  }

  function Geometry(f: Filter, r: Reading): (Filter, Verdict)
    requires Bounded(f)
  {
    match r
    case Missing => (f, Normal)
    case Unscored => (f, Uncertain)
    case Score(x) => Scored(f, x, GEOMETRY)
  }

  function Emotion(f: Filter, r: Reading): (Filter, Verdict)
    requires Bounded(f)
  {
    match r
    case Missing => (f, Unknown)
    case Unscored => (f.(count := Leak(f.count, false)), Normal)
    case Score(x) => Scored(f, x, EMOTION)
  }

  method SumOf(h: seq<real>) returns (total: real)
    ensures total == Sum(h)
  {
    total := 0.0;
    for i := 0 to |h|
      invariant total == Sum(h[..i])
    {
      assert h[..i + 1][..i] == h[..i];
      total := total + h[i];
    }
    assert h[..|h|] == h;
  }

  class FatigueAnalyzer {
    var history: seq<real>
    var consecutive: nat

    function View(): Filter
      reads this
    {
      Filter(history, consecutive)
    }

    constructor ()
      ensures View() == INITIAL
    {
      history, consecutive := [], 0;
    }

    /** `eyesOpen` is the minimum eye opening test; the score is the weighted droop less penalty. */
    method Analyze(landmarks: bool, eyesOpen: bool, base: real, penalty: real) returns (v: Verdict)
      requires Bounded(View())
      modifies this
      ensures Bounded(View())
      ensures (View(), v) == Geometry(old(View()),
        if !landmarks then Missing
        else if !eyesOpen then Unscored
        else Score(if base - penalty > 0.0 then base - penalty else 0.0))
    {
      if !landmarks {
        return Normal;
      }
      if !eyesOpen {
        return Uncertain;
      }
      var score := if base - penalty > 0.0 then base - penalty else 0.0;
      history := history + [score];
      if |history| > HISTORY_SIZE {
        history := history[1..];
      }
      var total := SumOf(history);
      var smoothed := total / (|history| as real);
      if smoothed >= GEOMETRY.fatigue {
        consecutive := consecutive + 1;
      } else {
        consecutive := if consecutive > 0 then consecutive - 1 else 0;
      }
      if consecutive >= GEOMETRY.required {
        if smoothed >= GEOMETRY.severe {
          return Illness;
        } else if smoothed >= GEOMETRY.fatigue {
          return Fatigue;
        }
      }
      v := Normal;
    }
  }

  class EmotionAnalyzer {
    var history: seq<real>
    var consecutive: nat

    function View(): Filter
      reads this
    {
      Filter(history, consecutive)
    }

    constructor ()
      ensures View() == INITIAL
    {
      history, consecutive := [], 0;
    }

    /** `failed` is the caught exception, raised before anything is recorded. */
    method Postprocess(failed: bool, confident: bool, score: real) returns (v: Verdict)
      requires Bounded(View())
      modifies this
      ensures Bounded(View())
      ensures var r := if failed then Missing else if confident then Score(score) else Unscored;
        (View(), v) == Emotion(old(View()), r)
    {
      if failed {
        return Unknown;
      }
      if !confident {
        consecutive := if consecutive > 0 then consecutive - 1 else 0;
        return Normal;
      }
      history := history + [score];
      if |history| > HISTORY_SIZE {
        history := history[1..];
      }
      var total := SumOf(history);
      var smoothed := total / (|history| as real);
      if smoothed >= EMOTION.fatigue {
        consecutive := consecutive + 1;
      } else {
        consecutive := if consecutive > 0 then consecutive - 1 else 0;
      }
      if smoothed >= EMOTION.severe && consecutive >= EMOTION.required {
        v := Illness;
      } else if smoothed >= EMOTION.fatigue && consecutive >= EMOTION.required {
        v := Fatigue;
      } else {
        v := Normal;
      }
    }
  }

  // ----- Whole traces -----

  /** Which analyser a trace runs through. */
  datatype Kind = Geometric | Emotional

  function LimitsOf(k: Kind): Limits {
    if k.Geometric? then GEOMETRY else EMOTION
  }

  function Step(k: Kind, f: Filter, r: Reading): (Filter, Verdict)
    requires Bounded(f)
  {
    if k.Geometric? then Geometry(f, r) else Emotion(f, r)
  }

  function Run(k: Kind, trace: seq<Reading>): (f: Filter)
    ensures Bounded(f)
  {
    if trace == [] then INITIAL else Step(k, Run(k, trace[..|trace| - 1]), trace[|trace| - 1]).0
  }

  /** The verdict given on the last reading of a trace. */
  function Answer(k: Kind, trace: seq<Reading>): Verdict
    requires trace != []
  {
    Step(k, Run(k, trace[..|trace| - 1]), trace[|trace| - 1]).1
  }

  function Scores(trace: seq<Reading>): seq<real> {
    if trace == [] then []
    else Scores(trace[..|trace| - 1]) + match trace[|trace| - 1] case Score(x) => [x] case _ => []
  }

  function Last(s: seq<real>, n: nat): seq<real> {
    if |s| <= n then s else s[|s| - n..]
  }

  lemma LastGrows(s: seq<real>, x: real)
    ensures |Last(s, HISTORY_SIZE)| <= HISTORY_SIZE
    ensures Last(s + [x], HISTORY_SIZE) == Push(Last(s, HISTORY_SIZE), x)
  {
    if |s| > HISTORY_SIZE {
      assert (s + [x])[|s| + 1 - HISTORY_SIZE..] == (s[|s| - HISTORY_SIZE..] + [x])[1..];
    }
  }

  /** The window always holds exactly the last scores, at most six. */
  lemma {:induction false} WindowIsLastScores(k: Kind, trace: seq<Reading>)
    ensures Run(k, trace).history == Last(Scores(trace), HISTORY_SIZE)
  {
    hide Mean;
    if trace != [] {
      var n := |trace| - 1;
      WindowIsLastScores(k, trace[..n]);
      if trace[n].Score? {
        LastGrows(Scores(trace[..n]), trace[n].x);
      }
    }
  }

  /** Whether the smoothed score after the reading at `i` reaches the fatigue threshold. */
  predicate Tired(k: Kind, trace: seq<Reading>, i: nat)
    requires i < |trace|
  {
    && trace[i].Score?
    && Scores(trace[..i + 1]) != []
    && Mean(Last(Scores(trace[..i + 1]), HISTORY_SIZE)) >= LimitsOf(k).fatigue
  }

  /** How much reading `i` weighs: up when tired, down otherwise; missing readings weigh nothing, and
      the geometry filter also ignores those it could not score. */
  function Weight(k: Kind, trace: seq<Reading>, i: nat): int
    requires i < |trace|
  {
    if trace[i].Missing? || (k.Geometric? && trace[i].Unscored?) then 0 else if Tired(k, trace, i) then 1 else -1
  }

  /** Ups minus downs over the readings from `a` on. */
  function Surplus(k: Kind, trace: seq<Reading>, a: nat): int
    requires a <= |trace|
    decreases |trace| - a
  {
    if a == |trace| then 0 else Weight(k, trace, a) + Surplus(k, trace, a + 1)
  }

  lemma WeightOfPrefix(k: Kind, trace: seq<Reading>, n: nat, i: nat)
    requires i < n <= |trace|
    ensures Weight(k, trace[..n], i) == Weight(k, trace, i)
  {
    assert trace[..n][..i + 1] == trace[..i + 1];
  }

  lemma {:induction false} SurplusGrows(k: Kind, trace: seq<Reading>, a: nat)
    requires a < |trace|
    ensures Surplus(k, trace, a) == Surplus(k, trace[..|trace| - 1], a) + Weight(k, trace, |trace| - 1)
    decreases |trace| - a
  {
    hide Weight;
    var n := |trace| - 1;
    if a < n {
      SurplusGrows(k, trace, a + 1);
      WeightOfPrefix(k, trace, n, a);
    } else {
      assert Surplus(k, trace, n + 1) == 0;
    }
  }

  lemma CountStep(k: Kind, trace: seq<Reading>)
    requires trace != []
    ensures var n := |trace| - 1;
      var c, w := Run(k, trace[..n]).count as int, Weight(k, trace, n);
      Run(k, trace).count as int == if c + w > 0 then c + w else 0
  {
    hide Mean, Last, Push;
    var n := |trace| - 1;
    WindowIsLastScores(k, trace);
    assert trace[..n + 1] == trace;
  }

  /** The counter is the largest surplus over all suffixes of the trace: it is at least every
      suffix's ups minus downs, and some suffix attains it. */
  lemma {:induction false} CounterIsMaxSurplus(k: Kind, trace: seq<Reading>) returns (a: nat)
    ensures a <= |trace| && Run(k, trace).count as int == Surplus(k, trace, a)
    ensures forall b: nat | b <= |trace| :: Surplus(k, trace, b) <= Run(k, trace).count as int
  {
    hide Weight, Run;
    if trace == [] {
      a := 0;
      EmptyRun(k);
    } else {
      var n := |trace| - 1;
      var a0 := CounterIsMaxSurplus(k, trace[..n]);
      CountStep(k, trace);
      SurplusAll(k, trace);
      var s := Surplus(k, trace[..n], a0) + Weight(k, trace, n);
      a := if s > 0 then a0 else n + 1;
    }
  }

  lemma EmptyRun(k: Kind)
    ensures Run(k, []) == INITIAL
  {
  }

  lemma SurplusAll(k: Kind, trace: seq<Reading>)
    requires trace != []
    ensures forall b: nat | b < |trace| ::
      Surplus(k, trace, b) == Surplus(k, trace[..|trace| - 1], b) + Weight(k, trace, |trace| - 1)
    ensures Surplus(k, trace, |trace|) == 0
  {
    forall b: nat | b < |trace|
      ensures Surplus(k, trace, b) == Surplus(k, trace[..|trace| - 1], b) + Weight(k, trace, |trace| - 1)
    {
      SurplusGrows(k, trace, b);
    }
  }

  /** A verdict of fatigue or illness is given exactly when the last reading is tired and some
      suffix of the trace has the required surplus; illness, when moreover the mean of the last
      scores is severe. */
  lemma VerdictIff(k: Kind, trace: seq<Reading>)
    requires trace != []
    ensures Answer(k, trace) == Fatigue || Answer(k, trace) == Illness <==>
      Tired(k, trace, |trace| - 1) && exists b: nat :: b <= |trace| && Surplus(k, trace, b) >= LimitsOf(k).required
    ensures Answer(k, trace) == Illness <==>
      && Tired(k, trace, |trace| - 1)
      && Mean(Last(Scores(trace), HISTORY_SIZE)) >= LimitsOf(k).severe
      && exists b: nat :: b <= |trace| && Surplus(k, trace, b) >= LimitsOf(k).required
  {
    hide Mean, Last, Push, Surplus;
    var n := |trace| - 1;
    assert trace[..n + 1] == trace;
    WindowIsLastScores(k, trace);
    var a := CounterIsMaxSurplus(k, trace);
  }

  /** What is answered otherwise: to a reading without a score each analyser has its own answer, and
      to one with a score it is `Normal`. */
  lemma OtherAnswers(k: Kind, trace: seq<Reading>)
    requires trace != []
    ensures var r := trace[|trace| - 1];
      && (Answer(k, trace) == Uncertain <==> k.Geometric? && r.Unscored?)
      && (Answer(k, trace) == Unknown <==> k.Emotional? && r.Missing?)
      && (r.Missing? && k.Geometric? ==> Answer(k, trace) == Normal)
      && (r.Unscored? && k.Emotional? ==> Answer(k, trace) == Normal)
  {
    hide Mean, Push;
  }

  lemma {:induction false} AllScores(trace: seq<Reading>)
    requires forall i | 0 <= i < |trace| :: trace[i].Score?
    ensures |Scores(trace)| == |trace|
    ensures forall i | 0 <= i < |trace| :: Scores(trace)[i] == trace[i].x
  {
    if trace != [] {
      AllScores(trace[..|trace| - 1]);
    }
  }

  /** Every score from the start on is between two bounds, and so is every smoothed one. */
  lemma SteadyMean(trace: seq<Reading>, low: real, high: real)
    requires trace != [] && forall j | 0 <= j < |trace| :: trace[j].Score? && low <= trace[j].x <= high
    ensures Scores(trace) != [] && low <= Mean(Last(Scores(trace), HISTORY_SIZE)) <= high
  {
    hide Mean, Scores;
    AllScores(trace);
    MeanBetween(Last(Scores(trace), HISTORY_SIZE), low, high);
  }

  lemma {:induction false} SteadySurplus(k: Kind, trace: seq<Reading>, a: nat, up: bool)
    requires a <= |trace|
    requires forall i | 0 <= i < |trace| :: Weight(k, trace, i) == if up then 1 else -1
    ensures Surplus(k, trace, a) == if up then |trace| - a else a - |trace|
    decreases |trace| - a
  {
    hide Weight;
    if a < |trace| {
      SteadySurplus(k, trace, a + 1, up);
    }
  }

  /** An analyser given severe scores from the start answers `Illness` from the third on where they
      come from the geometry and from the second on where they come from the emotion model, and
      `Normal` before; given scores all below the threshold it always answers `Normal`. */
  lemma SteadyAnswers(k: Kind, trace: seq<Reading>, low: real, high: real)
    requires trace != [] && forall i | 0 <= i < |trace| :: trace[i].Score? && low <= trace[i].x <= high
    ensures low >= (if k.Geometric? then 0.50 else 0.30) ==>
      Answer(k, trace) == if |trace| >= (if k.Geometric? then 3 else 2) then Illness else Normal
    ensures high < (if k.Geometric? then 0.25 else 0.15) ==> Answer(k, trace) == Normal
    ensures low >= (if k.Geometric? then 0.25 else 0.15) && high < (if k.Geometric? then 0.50 else 0.30) ==>
      Answer(k, trace) == if |trace| >= (if k.Geometric? then 3 else 2) then Fatigue else Normal
  {
    hide Mean, Last, Scores, Run, Answer, Tired;
    ScoredAnswer(k, trace);
    SteadyMean(trace, low, high);
    if low >= LimitsOf(k).fatigue {
      SteadyUp(k, trace, low, high);
      var a := CounterIsMaxSurplus(k, trace);
      assert Surplus(k, trace, 0) == |trace|;
    }
  }

  lemma SteadyUp(k: Kind, trace: seq<Reading>, low: real, high: real)
    requires forall i | 0 <= i < |trace| :: trace[i].Score? && low <= trace[i].x <= high
    requires low >= LimitsOf(k).fatigue
    ensures forall b: nat | b <= |trace| :: Surplus(k, trace, b) == |trace| - b
  {
    hide Mean, Last, Scores;
    forall i | 0 <= i < |trace|
      ensures Tired(k, trace, i)
    {
      SteadyMean(trace[..i + 1], low, high);
    }
    forall b: nat | b <= |trace|
      ensures Surplus(k, trace, b) == |trace| - b
    {
      SteadySurplus(k, trace, b, true);
    }
  }

  lemma ScoredAnswer(k: Kind, trace: seq<Reading>)
    requires trace != [] && trace[|trace| - 1].Score?
    ensures Scores(trace) != []
    ensures var m := Mean(Last(Scores(trace), HISTORY_SIZE));
      Answer(k, trace) ==
        if Run(k, trace).count < LimitsOf(k).required || m < LimitsOf(k).fatigue then Normal
        else if m >= LimitsOf(k).severe then Illness
        else Fatigue
  {
    hide Mean, Last, Push;
    WindowIsLastScores(k, trace);
  }
}
