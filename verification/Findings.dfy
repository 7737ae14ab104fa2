/** Which findings make the classifier say what: its evidence told from the stamps and the fingerprints, not
    from its sums. */
module Findings {
  import opened Text
  import opened Classifier

  // Pace

  ghost predicate Spans(stamps: seq<real>, earliest: real, latest: real) {
    earliest in stamps && latest in stamps && forall t | t in stamps :: earliest <= t <= latest
  }

  lemma {:induction false} GapsTelescope(times: seq<real>)
    requires times != []
    ensures Sum(Intervals(times)) == times[|times| - 1] - times[0]
    ensures forall i | 0 <= i < |times| - 1 :: Intervals(times)[i] == times[i + 1] - times[i]
  {
    if |times| >= 2 {
      GapsTelescope(times[1..]);
      assert Intervals(times)[1..] == Intervals(times[1..]);
      forall i | 0 < i < |times| - 1 ensures Intervals(times)[i] == times[i + 1] - times[i] {
        assert Intervals(times)[i] == Intervals(times[1..])[i - 1];
      }
    }
  }

  lemma SameMembers(a: seq<real>, b: seq<real>)
    requires multiset(a) == multiset(b)
    ensures |a| == |b| && forall t :: t in a <==> t in b
  {
    assert |multiset(a)| == |a| && |multiset(b)| == |b|;
    forall t ensures t in a <==> t in b {
      assert t in a <==> t in multiset(a);
      assert t in b <==> t in multiset(b);
    }
  }

  /** The mean gap is the time from the first stamp to the last over the number of gaps. */
  lemma MeanIsSpan(stamps: seq<real>, earliest: real, latest: real)
    requires |stamps| >= 2 && Spans(stamps, earliest, latest)
    ensures var xs := Intervals(Sorted(stamps));
      |xs| == |stamps| - 1 && Mean(xs) == Some((latest - earliest) / (|stamps| - 1) as real)
  {
    hide Sorted, Intervals, Sum;
    var times := Sorted(stamps);
    SortedIsOrdered(stamps);
    SameMembers(times, stamps);
    GapsTelescope(times);
    var n := |times|;
    assert times[0] in times && times[n - 1] in times;
    var i, j :| 0 <= i < n && 0 <= j < n && times[i] == earliest && times[j] == latest;
    assert times[0] <= times[i] && times[j] <= times[n - 1];
  }

  function SumOfSquares(xs: seq<real>): real {
    if xs == [] then 0.0 else xs[0] * xs[0] + SumOfSquares(xs[1..])
  }

  /** The deviations from any value, from the sum and the sum of squares alone. */
  lemma {:induction false} DeviationsAre(xs: seq<real>, m: real)
    ensures SquaredDeviations(xs, m) == SumOfSquares(xs) - 2.0 * m * Sum(xs) + |xs| as real * (m * m)
  {
    if xs != [] {
      var x, rest := xs[0], xs[1..];
      DeviationsAre(rest, m);
      assert (x - m) * (x - m) == x * x - 2.0 * m * x + m * m;
      assert 2.0 * m * Sum(xs) == 2.0 * m * x + 2.0 * m * Sum(rest);
      assert |xs| as real * (m * m) == m * m + |rest| as real * (m * m);
    }
  }

  lemma ExcessIs(xs: seq<real>)
    requires xs != []
    ensures var m := Mean(xs).value; SquaredDeviations(xs, m) == SumOfSquares(xs) - m * Sum(xs)
  {
    hide SquaredDeviations, Sum, SumOfSquares;
    var n, total, m := |xs| as real, Sum(xs), Mean(xs).value;
    DeviationsAre(xs, m);
    assert total == n * m;
    assert n * (m * m) == m * (n * m);
    assert 2.0 * m * total == 2.0 * (m * total);
  }

  /** The pace is regular when the squared gaps exceed what equal gaps would give by less than `limit` squared
      allows: the sample variance, without roots or quotients. */
  lemma VariationIs(xs: seq<real>, limit: real)
    requires |xs| >= 2
    ensures var m := Mean(xs).value; var excess := SumOfSquares(xs) - m * Sum(xs);
      var allowed := (limit * m) * (limit * m) * (|xs| - 1) as real;
      && (VariesLess(xs, limit) <==> m > 0.0 && excess < allowed)
      && (VariesMore(xs, limit) <==> m > 0.0 && excess > allowed)
  {
    hide SquaredDeviations, Sum, SumOfSquares, Mean, Threshold;
    MeanOfSome(xs);
    var m := Mean(xs).value;
    ExcessIs(xs);
    ThresholdIs(limit, m);
    MeanAgainst(SquaredDeviations(xs, m), (|xs| - 1) as real, Threshold(limit, m));
  }

  lemma ThresholdIs(limit: real, m: real)
    ensures Threshold(limit, m) == (limit * m) * (limit * m)
  {
    assert limit * limit * (m * m) == limit * (limit * (m * m));
    assert (limit * m) * (limit * m) == limit * (m * (limit * m));
    assert m * (limit * m) == limit * (m * m);
  }

  // Findings

  /** Half a second between commands, or less: three commands at least. */
  predicate Fast(s: Session, earliest: real, latest: real) {
    s.commands >= 3 && |s.stamps| >= 2 && latest - earliest < 0.5 * (|s.stamps| - 1) as real
  }

  /** More than two seconds between commands. */
  predicate Slow(s: Session, earliest: real, latest: real) {
    s.commands >= 3 && |s.stamps| >= 2 && latest - earliest > 2.0 * (|s.stamps| - 1) as real
  }

  predicate Regular(s: Session) {
    s.commands >= 4 && VariesLess(Intervals(Sorted(s.stamps)), 0.25)
  }

  predicate Irregular(s: Session) {
    s.commands >= 3 && VariesMore(Intervals(Sorted(s.stamps)), 0.70)
  }

  function Weight(finding: bool, w: real): real {
    if finding then w else 0.0
  }

  lemma MeanAgainst(span: real, n: real, limit: real)
    requires n > 0.0
    ensures span / n < limit <==> span < limit * n
    ensures span / n > limit <==> span > limit * n
  {
    var q := span / n;
    assert span == q * n;
    if q < limit { assert (limit - q) * n > 0.0; }
    if q > limit { assert (q - limit) * n > 0.0; }
  }

  /** No pace is both regular and irregular. */
  lemma NotBoth(xs: seq<real>)
    ensures !(VariesLess(xs, 0.25) && VariesMore(xs, 0.70))
  {
    hide Variance;
    if m: real :| Mean(xs) == Some(m) {
      assert Threshold(0.25, m) <= Threshold(0.70, m) by {
        assert m * m >= 0.0;
      }
    }
  }

  /** Each side adds up its own findings; timing counts for either, and never for both. */
  lemma EvidenceIs(s: Session, earliest: real, latest: real)
    requires Spans(s.stamps, earliest, latest) || s.stamps == []
    ensures var fast, slow := Fast(s, earliest, latest), Slow(s, earliest, latest);
      && AutoEvidence(s) == Capped(Weight(s.library, 0.35) + Weight(s.ssh && !s.pty, 0.25) + Weight(fast, 0.25)
                                   + Weight(Regular(s), 0.20) + Weight(s.botScript, 0.20))
      && HumanEvidence(s) == Weight(s.ssh && s.pty, 0.30) + Weight(slow, 0.30) + Weight(Irregular(s), 0.25)
      && !(fast && slow) && !(Regular(s) && Irregular(s))
  {
    hide Intervals, Sorted, Sum, VariesLess, VariesMore;
    var xs := Intervals(Sorted(s.stamps));
    NotBoth(xs);
    FewGaps(s.stamps);
    if |s.stamps| >= 2 {
      MeanIsSpan(s.stamps, earliest, latest);
      MeanAgainst(latest - earliest, (|s.stamps| - 1) as real, 0.5);
      MeanAgainst(latest - earliest, (|s.stamps| - 1) as real, 2.0);
    }
  }

  lemma FewGaps(stamps: seq<real>)
    ensures |stamps| < 2 ==> var xs := Intervals(Sorted(stamps));
      xs == [] && !VariesLess(xs, 0.25) && !VariesMore(xs, 0.70)
  {
    hide Sorted;
    SortedIsOrdered(stamps);
    SameMembers(Sorted(stamps), stamps);
  }

  function HowMany(findings: seq<bool>): nat {
    if findings == [] then 0 else (if findings[0] then 1 else 0) + HowMany(findings[1..])
  }

  /** The automation evidence is enough when a client library is joined by any other finding, or when three
      others agree; the human evidence when two of its findings do. */
  lemma EnoughMeans(s: Session, earliest: real, latest: real)
    requires Spans(s.stamps, earliest, latest) || s.stamps == []
    ensures var auto := [s.ssh && !s.pty, Fast(s, earliest, latest), Regular(s), s.botScript];
      var human := [s.ssh && s.pty, Slow(s, earliest, latest), Irregular(s)];
      && (AutoEvidence(s) >= 0.55 <==> HowMany(auto) >= if s.library then 1 else 3)
      && (AutoEvidence(s) > 0.0 <==> s.library || HowMany(auto) >= 1)
      && (HumanEvidence(s) >= 0.40 <==> HowMany(human) >= 2)
      && (HumanEvidence(s) > 0.0 <==> HowMany(human) >= 1)
  {
    hide AutoEvidence, HumanEvidence, Fast, Slow, Regular, Irregular;
    EvidenceIs(s, earliest, latest);
    Four(s.ssh && !s.pty, Fast(s, earliest, latest), Regular(s), s.botScript);
    Three(s.ssh && s.pty, Slow(s, earliest, latest), Irregular(s));
  }

  lemma Three(a: bool, b: bool, c: bool)
    ensures HowMany([a, b, c]) == (if a then 1 else 0) + (if b then 1 else 0) + (if c then 1 else 0)
  {
    assert [a, b, c][1..] == [b, c] && [b, c][1..] == [c] && [c][1..] == [];
    assert HowMany([c]) == if c then 1 else 0;
    assert HowMany([b, c]) == (if b then 1 else 0) + HowMany([c]);
  }

  lemma Four(a: bool, b: bool, c: bool, d: bool)
    ensures HowMany([a, b, c, d]) == (if a then 1 else 0) + HowMany([b, c, d])
    ensures HowMany([b, c, d]) == (if b then 1 else 0) + (if c then 1 else 0) + (if d then 1 else 0)
  {
    assert [a, b, c, d][1..] == [b, c, d];
    Three(b, c, d);
  }

  /** What each label needs. A scanner's fingerprint decides alone, and without a command so does a library's. */
  lemma LabelMeans(s: Session)
    ensures s.scanner ==> LabelOf(s) == Automated
    ensures !s.scanner && s.commands == 0 ==> LabelOf(s) == if s.library then Automated else Unknown
    ensures !s.scanner && s.commands > 0 ==> var auto, human := AutoEvidence(s), HumanEvidence(s);
      && (LabelOf(s) == Automated <==> auto >= 0.55 && auto >= human)
      && (LabelOf(s) == HumanLike <==> human >= 0.40 && human > auto)
      && (LabelOf(s) == Unknown <==> auto <= 0.0 && human <= 0.0)
  {
    hide AutoEvidence, HumanEvidence;
  }

  /** Each label occurs: three slow commands in a terminal, the same by a library without one, the same commands
      without stamps, and a lone command of another service. */
  lemma LabelsOccur(s: Session)
    requires s.ssh && s.commands == 3 && !s.scanner && !s.botScript
    ensures s.stamps == [0.0, 10.0, 20.0] && s.pty && !s.library ==> LabelOf(s) == HumanLike
    ensures s.stamps == [0.0, 10.0, 20.0] && !s.pty && s.library ==> LabelOf(s) == Automated
    ensures s.stamps == [] && !s.library ==> LabelOf(s) == SemiInteractive
    ensures s.stamps == [] && !s.library ==> LabelOf(s.(ssh := false)) == Unknown
  {
    hide AutoEvidence, HumanEvidence, Regular, Irregular, LabelOf;
    LabelMeans(s);
    if s.stamps == [] {
      EvidenceIs(s, 0.0, 0.0);
      var other := s.(ssh := false);
      EvidenceIs(other, 0.0, 0.0);
      LabelMeans(other);
      NoStamps(s);
      NoStamps(other);
    } else if s.stamps == [0.0, 10.0, 20.0] {
      EvidenceIs(s, 0.0, 20.0);
    }
  }

  lemma NoStamps(s: Session)
    requires s.stamps == []
    ensures !Regular(s) && !Irregular(s)
  {
    FewGaps(s.stamps);
  }

  /** The confidence is never cut off: a fifth to begin with, what the sides differ by, up to a fifth for five
      commands, and a tenth for a library. */
  lemma ConfidenceIs(s: Session)
    requires s.commands > 0 && !s.scanner && LabelOf(s) != Unknown
    ensures var auto, human := AutoEvidence(s), HumanEvidence(s);
      var rest := 0.2 + (if s.commands >= 5 then 0.2 else 0.04 * s.commands as real) + Weight(s.library, 0.1);
      Confidence(s) == rest + 0.45 * (if auto > human then auto - human else human - auto)
  {
    hide AutoEvidence, HumanEvidence, LabelOf;
    ConfidenceIsBounded(s);
    EvidenceIsBounded(s);
  }

  lemma EvidenceIsBounded(s: Session)
    ensures 0.0 <= AutoEvidence(s) <= 1.0 && 0.0 <= HumanEvidence(s) <= 0.85
  {
    hide SessionPace;
  }
}
