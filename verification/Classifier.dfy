/** The session classifier of `telemetry/classifier.py`, over real numbers: its evidence sums, its label
    and what pacing does to them. */
module Classifier {
  import opened Text

  // Sums over intervals

  function Sum(xs: seq<real>): real {
    if xs == [] then 0.0 else xs[0] + Sum(xs[1..])
  }

  function SquaredDeviations(xs: seq<real>, mean: real): real {
    if xs == [] then 0.0 else (xs[0] - mean) * (xs[0] - mean) + SquaredDeviations(xs[1..], mean)
  }

  function Mean(xs: seq<real>): Option<real> {
    if xs == [] then None else Some(Sum(xs) / |xs| as real)
  }

  /** The square of `_std`, which divides by n - 1. */
  function Variance(xs: seq<real>, mean: real): real {
    if |xs| < 2 then 0.0 else SquaredDeviations(xs, mean) / (|xs| - 1) as real
  }

  /** The gaps between consecutive times. */
  function Intervals(times: seq<real>): (r: seq<real>)
    ensures |r| == if times == [] then 0 else |times| - 1
  {
    if |times| < 2 then [] else [times[1] - times[0]] + Intervals(times[1..])
  }

  function InsertTime(t: real, times: seq<real>): seq<real> {
    if times == [] || t <= times[0] then [t] + times else [times[0]] + InsertTime(t, times[1..])
  }

  function Sorted(times: seq<real>): seq<real> {
    if times == [] then [] else InsertTime(times[0], Sorted(times[1..]))
  }

  /** What the classifier looks at: how many commands, the time stamps they carry in any order, and its
      other findings. A command without a time stamp counts but has no time. */
  datatype Session = Session(commands: nat, stamps: seq<real>, ssh: bool, pty: bool,
                             scanner: bool, library: bool, botScript: bool)

  datatype Label = Automated | HumanLike | SemiInteractive | Unknown

  const FAST := 0.5
  const HUMAN := 2.0
  const REGULAR := 0.25
  const IRREGULAR := 0.70

  /** The square of the deviation at which the coefficient of variation is `limit`. */
  function Threshold(limit: real, mean: real): real {
    limit * limit * (mean * mean)
  }

  /** `cv < limit` and `cv > limit` for a non-negative limit, free of square roots. The coefficient
      exists only for a positive mean. */
  predicate VariesLess(xs: seq<real>, limit: real) {
    var m := Mean(xs);
    m.Some? && m.value > 0.0 && Variance(xs, m.value) < Threshold(limit, m.value)
  }

  predicate VariesMore(xs: seq<real>, limit: real) {
    var m := Mean(xs);
    m.Some? && m.value > 0.0 && Variance(xs, m.value) > Threshold(limit, m.value)
  }

  /** What the evidence rules see of the timing. */
  datatype Pace = Pace(mean: Option<real>, regular: bool, irregular: bool)

  function PaceOf(xs: seq<real>): Pace {
    Pace(Mean(xs), VariesLess(xs, REGULAR), VariesMore(xs, IRREGULAR))
  }

  function SessionPace(s: Session): Pace {
    PaceOf(Intervals(Sorted(s.stamps)))
  }

  function Capped(x: real): real {
    if x > 1.0 then 1.0 else x
  }

  function AutoEvidence(s: Session): real {
    var pace := SessionPace(s);
    var timed := s.commands >= 3 && pace.mean.Some?;
    Capped(
      (if s.library then 0.35 else 0.0)
      + (if s.ssh && !s.pty then 0.25 else 0.0)
      + (if timed && pace.mean.value < FAST then 0.25 else 0.0)
      + (if timed && s.commands >= 4 && pace.regular then 0.20 else 0.0)
      + (if s.botScript then 0.20 else 0.0))
  }

  function HumanEvidence(s: Session): real {
    var pace := SessionPace(s);
    var timed := s.commands >= 3 && pace.mean.Some?;
    Capped(
      (if s.ssh && s.pty then 0.30 else 0.0)
      + (if timed && pace.mean.value > HUMAN then 0.30 else 0.0)
      + (if timed && !(s.commands >= 4 && pace.regular) && pace.irregular then 0.25 else 0.0))
  }

  function LabelOf(s: Session): Label {
    var auto, human := AutoEvidence(s), HumanEvidence(s);
    if s.scanner then Automated
    else if s.commands == 0 then (if s.library then Automated else Unknown)
    else if auto >= 0.55 && auto >= human then Automated
    else if human >= 0.40 && human > auto then HumanLike
    else if auto > 0.0 || human > 0.0 then SemiInteractive
    else Unknown
  }

  /** Before rounding. */
  function Confidence(s: Session): real {
    if s.scanner then 0.9
    else if s.commands == 0 then (if s.library then 0.6 else 0.15)
    else if LabelOf(s) == Unknown then 0.15
    else
      var auto, human := AutoEvidence(s), HumanEvidence(s);
      var margin := if auto > human then auto - human else human - auto;
      var data := if s.commands >= 5 then 1.0 else s.commands as real / 5.0;
      var c := 0.2 + 0.45 * margin + 0.2 * data + (if s.library then 0.1 else 0.0);
      if c > 1.0 then 1.0 else c
  }

  // The accumulating loop, as written

  /** The evidence sums in the order the source adds them up. */
  method Accumulate(s: Session) returns (auto: real, human: real)
    ensures auto == AutoEvidence(s) && human == HumanEvidence(s)
  {
    hide PaceOf, Intervals, Sorted;
    auto, human := 0.0, 0.0;
    var pace := SessionPace(s);
    if s.library {
      auto := auto + 0.35;
    }
    if s.ssh {
      if s.pty {
        human := human + 0.30;
      } else {
        auto := auto + 0.25;
      }
    }
    if s.commands >= 3 && pace.mean.Some? {
      if pace.mean.value < FAST {
        auto := auto + 0.25;
      } else if pace.mean.value > HUMAN {
        human := human + 0.30;
      }
      if s.commands >= 4 && pace.regular {
        auto := auto + 0.20;
      } else if pace.irregular {
        human := human + 0.25;
      }
    }
    if s.botScript {
      auto := auto + 0.20;
    }
    auto := if auto > 1.0 then 1.0 else auto;
    human := if human > 1.0 then 1.0 else human;
  }

  /** The label and the confidence, assigned as the branches say. */
  method Classify(s: Session) returns (verdict: Label, confidence: real)
    ensures verdict == LabelOf(s) && confidence == Confidence(s)
  {
    hide SessionPace, AutoEvidence, HumanEvidence;
    var auto, human := Accumulate(s);
    confidence := 0.15;
    if s.scanner {
      verdict := Automated;
      confidence := 0.9;
    } else if s.commands == 0 {
      verdict := if s.library then Automated else Unknown;
      confidence := if s.library then 0.6 else 0.15;
    } else if auto >= 0.55 && auto >= human {
      verdict := Automated;
    } else if human >= 0.40 && human > auto {
      verdict := HumanLike;
    } else if auto > 0.0 || human > 0.0 {
      verdict := SemiInteractive;
    } else {
      verdict := Unknown;
    }
    if verdict != Unknown && !s.scanner && s.commands != 0 {
      var margin := if auto > human then auto - human else human - auto;
      var data := if s.commands as real / 5.0 < 1.0 then s.commands as real / 5.0 else 1.0;
      confidence := 0.2 + 0.45 * margin + 0.2 * data + (if s.library then 0.1 else 0.0);
      confidence := if confidence > 1.0 then 1.0 else confidence;
    }
  }

  // Scaling sums

  function Product(k: real, x: real): real {
    k * x
  }

  function ScaleAll(xs: seq<real>, c: real): (r: seq<real>)
    ensures |r| == |xs|
  {
    if xs == [] then [] else [Product(c, xs[0])] + ScaleAll(xs[1..], c)
  }

  function ShiftAll(xs: seq<real>, d: real): (r: seq<real>)
    ensures |r| == |xs|
  {
    if xs == [] then [] else [xs[0] + d] + ShiftAll(xs[1..], d)
  }

  lemma ScaleOfCons(x: real, xs: seq<real>, c: real)
    ensures ScaleAll([x] + xs, c) == [Product(c, x)] + ScaleAll(xs, c)
  {
    assert ([x] + xs)[1..] == xs;
  }

  lemma Distributes(c: real, a: real, b: real)
    ensures Product(c, a) - Product(c, b) == Product(c, a - b)
    ensures Product(c, a) + Product(c, b) == Product(c, a + b)
  {
  }

  lemma SquareOfProduct(c: real, x: real)
    ensures Product(c, x) * Product(c, x) == Product(Product(c, c), x * x)
  {
    assert (c * x) * (c * x) == c * (x * (c * x));
  }

  lemma QuotientScales(k: real, a: real, n: real)
    requires n != 0.0
    ensures Product(k, a) / n == Product(k, a / n)
  {
    var q := a / n;
    assert a == q * n;
    assert k * a == (k * q) * n;
  }

  lemma PositiveFactor(k: real, a: real, b: real)
    requires k > 0.0
    ensures Product(k, a) < Product(k, b) <==> a < b
  {
    if a < b { assert k * (b - a) > 0.0; }
    if b <= a { assert k * (a - b) >= 0.0; }
  }

  lemma SignOfProduct(c: real, m: real)
    requires c > 0.0
    ensures Product(c, m) > 0.0 <==> m > 0.0
    ensures Product(c, c) > 0.0
  {
    PositiveFactor(c, 0.0, m);
    PositiveFactor(c, 0.0, c);
  }

  lemma ThresholdScales(limit: real, m: real, c: real)
    ensures Threshold(limit, Product(c, m)) == Product(Product(c, c), Threshold(limit, m))
  {
    SquareOfProduct(c, m);
    var k, l, q := c * c, limit * limit, m * m;
    assert l * (k * q) == k * (l * q);
  }

  lemma {:induction false} IntervalsScale(times: seq<real>, c: real)
    ensures Intervals(ScaleAll(times, c)) == ScaleAll(Intervals(times), c)
  {
    if |times| >= 2 {
      hide Product;
      IntervalsScale(times[1..], c);
      assert ScaleAll(times, c)[1..] == ScaleAll(times[1..], c);
      assert ScaleAll(times, c)[1] == ScaleAll(times[1..], c)[0] == Product(c, times[1]);
      Distributes(c, times[1], times[0]);
      assert Intervals(times)[1..] == Intervals(times[1..]);
    } else {
      assert Intervals(times) == [] == ScaleAll([], c);
    }
  }

  lemma {:induction false} IntervalsShift(times: seq<real>, d: real)
    ensures Intervals(ShiftAll(times, d)) == Intervals(times)
  {
    if |times| >= 2 {
      IntervalsShift(times[1..], d);
      assert ShiftAll(times, d)[1..] == ShiftAll(times[1..], d);
    }
  }

  lemma {:induction false} SumScales(xs: seq<real>, c: real)
    ensures Sum(ScaleAll(xs, c)) == Product(c, Sum(xs))
  {
    if xs != [] {
      hide Product;
      SumScales(xs[1..], c);
      assert ScaleAll(xs, c)[1..] == ScaleAll(xs[1..], c);
      Distributes(c, xs[0], Sum(xs[1..]));
    }
  }

  lemma {:induction false} DeviationsScale(xs: seq<real>, mean: real, c: real)
    ensures SquaredDeviations(ScaleAll(xs, c), Product(c, mean)) == Product(Product(c, c), SquaredDeviations(xs, mean))
  {
    if xs != [] {
      hide Product;
      DeviationsScale(xs[1..], mean, c);
      assert ScaleAll(xs, c)[1..] == ScaleAll(xs[1..], c);
      var d := xs[0] - mean;
      Distributes(c, xs[0], mean);
      SquareOfProduct(c, d);
      Distributes(Product(c, c), d * d, SquaredDeviations(xs[1..], mean));
    }
  }

  lemma MeanScales(xs: seq<real>, c: real)
    ensures Mean(ScaleAll(xs, c)) == (if xs == [] then None else Some(Product(c, Mean(xs).value)))
  {
    if xs == [] {
      assert ScaleAll(xs, c) == [];
    } else {
      hide ScaleAll, Sum, Product;
      SumScales(xs, c);
      QuotientScales(c, Sum(xs), |xs| as real);
    }
  }

  lemma VarianceScales(xs: seq<real>, m: real, c: real)
    ensures Variance(ScaleAll(xs, c), Product(c, m)) == Product(Product(c, c), Variance(xs, m))
  {
    if |xs| >= 2 {
      hide ScaleAll, SquaredDeviations, Product;
      DeviationsScale(xs, m, c);
      QuotientScales(Product(c, c), SquaredDeviations(xs, m), (|xs| - 1) as real);
    }
  }

  /** The coefficient of variation does not notice the speed. */
  lemma VariationIgnoresSpeed(xs: seq<real>, c: real, limit: real)
    requires c > 0.0
    ensures VariesLess(ScaleAll(xs, c), limit) <==> VariesLess(xs, limit)
    ensures VariesMore(ScaleAll(xs, c), limit) <==> VariesMore(xs, limit)
  {
    hide Mean, Variance, ScaleAll, Product, Threshold;
    MeanScales(xs, c);
    MeanOfSome(xs);
    if xs != [] {
      var m := Mean(xs).value;
      VarianceScales(xs, m, c);
      ThresholdScales(limit, m, c);
      SignOfProduct(c, m);
      PositiveFactor(Product(c, c), Variance(xs, m), Threshold(limit, m));
      PositiveFactor(Product(c, c), Threshold(limit, m), Variance(xs, m));
    }
  }

  lemma MeanOfSome(xs: seq<real>)
    ensures Mean(xs).Some? <==> xs != []
  {
  }

  // Order does not change with the speed

  ghost predicate Ordered(times: seq<real>) {
    forall i, j | 0 <= i < j < |times| :: times[i] <= times[j]
  }

  lemma {:induction false} InsertKeepsOrder(t: real, times: seq<real>)
    requires Ordered(times)
    ensures Ordered(InsertTime(t, times))
    ensures multiset(InsertTime(t, times)) == multiset(times) + multiset{t}
  {
    if times == [] || t <= times[0] {
      assert InsertTime(t, times) == [t] + times;
    } else {
      var rest := InsertTime(t, times[1..]);
      InsertKeepsOrder(t, times[1..]);
      assert times == [times[0]] + times[1..];
      assert InsertTime(t, times) == [times[0]] + rest;
      InsertedAbove(t, times, rest);
    }
  }

  lemma InsertedAbove(t: real, times: seq<real>, rest: seq<real>)
    requires times != [] && Ordered(times) && t > times[0] && Ordered(rest)
    requires multiset(rest) == multiset(times[1..]) + multiset{t}
    ensures Ordered([times[0]] + rest)
  {
    forall i | 0 <= i < |rest| ensures times[0] <= rest[i] {
      assert rest[i] in multiset(rest);
      assert rest[i] == t || rest[i] in multiset(times[1..]);
      assert rest[i] == t || rest[i] in times[1..];
    }
  }

  /** The list that the intervals are taken from is the stamps in ascending order. */
  lemma {:induction false} SortedIsOrdered(times: seq<real>)
    ensures Ordered(Sorted(times)) && multiset(Sorted(times)) == multiset(times)
  {
    if times != [] {
      SortedIsOrdered(times[1..]);
      InsertKeepsOrder(times[0], Sorted(times[1..]));
      assert times == [times[0]] + times[1..];
    }
  }

  lemma {:induction false} GapsAreNonNegative(times: seq<real>)
    requires Ordered(times)
    ensures forall i | 0 <= i < |Intervals(times)| :: Intervals(times)[i] >= 0.0
  {
    if |times| >= 2 {
      GapsAreNonNegative(times[1..]);
    }
  }

  lemma {:induction false} InsertScales(t: real, times: seq<real>, c: real)
    requires c > 0.0
    ensures InsertTime(Product(c, t), ScaleAll(times, c)) == ScaleAll(InsertTime(t, times), c)
  {
    hide Product;
    ScaleOfCons(t, times, c);
    if times == [] {
      assert [t] + times == [t];
    } else {
      var rest := times[1..];
      assert times == [times[0]] + rest;
      assert ScaleAll(times, c) == [Product(c, times[0])] + ScaleAll(rest, c);
      PositiveFactor(c, times[0], t);
      if t > times[0] {
        InsertScales(t, rest, c);
        ScaleOfCons(times[0], InsertTime(t, rest), c);
      }
    }
  }

  lemma {:induction false} SortedScales(times: seq<real>, c: real)
    requires c > 0.0
    ensures Sorted(ScaleAll(times, c)) == ScaleAll(Sorted(times), c)
  {
    if times != [] {
      hide InsertTime, Product;
      SortedScales(times[1..], c);
      assert ScaleAll(times, c) == [Product(c, times[0])] + ScaleAll(times[1..], c);
      assert ScaleAll(times, c)[1..] == ScaleAll(times[1..], c);
      InsertScales(times[0], Sorted(times[1..]), c);
    }
  }

  lemma {:induction false} InsertShifts(t: real, times: seq<real>, d: real)
    ensures InsertTime(t + d, ShiftAll(times, d)) == ShiftAll(InsertTime(t, times), d)
  {
    if times != [] {
      assert ShiftAll(times, d)[1..] == ShiftAll(times[1..], d);
      if t > times[0] {
        InsertShifts(t, times[1..], d);
      }
    }
  }

  lemma {:induction false} SortedShifts(times: seq<real>, d: real)
    ensures Sorted(ShiftAll(times, d)) == ShiftAll(Sorted(times), d)
  {
    if times != [] {
      SortedShifts(times[1..], d);
      assert ShiftAll(times, d)[1..] == ShiftAll(times[1..], d);
      InsertShifts(times[0], Sorted(times[1..]), d);
    }
  }

  lemma {:induction false} SumIsNonNegative(xs: seq<real>)
    requires forall i | 0 <= i < |xs| :: xs[i] >= 0.0
    ensures Sum(xs) >= 0.0
  {
    if xs != [] {
      SumIsNonNegative(xs[1..]);
    }
  }

  lemma ProductShrinks(c: real, m: real)
    requires 0.0 < c <= 1.0 && m >= 0.0
    ensures Product(c, m) <= m
  {
    assert (1.0 - c) * m >= 0.0;
  }

  // Playing a session back at another speed

  function AtSpeed(s: Session, c: real): Session {
    s.(stamps := ScaleAll(s.stamps, c))
  }

  /** `fast` shows the same variation as `pace` and no larger mean. */
  predicate NoSlower(fast: Pace, pace: Pace) {
    && fast.regular == pace.regular
    && fast.irregular == pace.irregular
    && (fast.mean.Some? <==> pace.mean.Some?)
    && (pace.mean.Some? ==> fast.mean.value <= pace.mean.value)
  }

  lemma ScaledPace(xs: seq<real>, c: real)
    requires 0.0 < c <= 1.0
    requires forall i | 0 <= i < |xs| :: xs[i] >= 0.0
    ensures NoSlower(PaceOf(ScaleAll(xs, c)), PaceOf(xs))
  {
    VariationIgnoresSpeed(xs, c, REGULAR);
    VariationIgnoresSpeed(xs, c, IRREGULAR);
    hide ScaleAll, VariesLess, VariesMore, Sum, Product;
    MeanScales(xs, c);
    SumIsNonNegative(xs);
    if xs != [] {
      ProductShrinks(c, Mean(xs).value);
    }
  }

  /** Speeding a session up never makes it look more human: the automation evidence does not fall and
      the human evidence does not rise. So an automated session stays automated, and no session turns
      human-like that was not. */
  lemma FasterIsNotMoreHuman(s: Session, c: real)
    requires 0.0 < c <= 1.0
    ensures AutoEvidence(AtSpeed(s, c)) >= AutoEvidence(s)
    ensures HumanEvidence(AtSpeed(s, c)) <= HumanEvidence(s)
    ensures LabelOf(s) == Automated ==> LabelOf(AtSpeed(s, c)) == Automated
    ensures LabelOf(AtSpeed(s, c)) == HumanLike ==> LabelOf(s) == HumanLike
  {
    hide PaceOf, Intervals, Sorted, ScaleAll;
    var times := Sorted(s.stamps);
    SortedScales(s.stamps, c);
    IntervalsScale(times, c);
    SortedIsOrdered(s.stamps);
    GapsAreNonNegative(times);
    ScaledPace(Intervals(times), c);
  }

  /** Only the gaps count, not when the session began. */
  lemma StartTimeDoesNotMatter(s: Session, d: real)
    ensures var s' := s.(stamps := ShiftAll(s.stamps, d));
      LabelOf(s') == LabelOf(s) && Confidence(s') == Confidence(s)
  {
    hide PaceOf, Intervals, Sorted, ShiftAll, Capped;
    SortedShifts(s.stamps, d);
    IntervalsShift(Sorted(s.stamps), d);
  }

  /** A label that rests on evidence has a confidence between 0.2 and 0.95. */
  lemma ConfidenceIsBounded(s: Session)
    requires s.commands > 0 && !s.scanner && LabelOf(s) != Unknown
    ensures 0.2 <= Confidence(s) <= 0.95
  {
    hide PaceOf, Intervals, Sorted;
  }
}
