/** Worked scenarios for the outlier loop, on polls taken on the same day so that
    every recency weight is 1 and the statistics are exact whatever the decay:
    detection without removal, removal followed by recomputation, and the reset
    to the original group. */
module Scenarios {
  import opened Polls
  import opened Weighted
  import opened Outliers
  import opened Aggregator

  const I1: Poll := Poll("X", 31.0, 2.0, "I1", 0, 2000)
  const I2: Poll := Poll("X", 32.0, 2.0, "I2", 0, 2000)
  const I3: Poll := Poll("X", 45.0, 2.0, "I3", 0, 2000)

  /** The statistics of the first pass over the three polls: mean 36 and a
      between-institute sigma strictly between 4.5 and 7.5 (its square is 122/3). */
  lemma FirstPassStats(math: Math)
    requires math.Valid()
    ensures var st := Evaluate([I1, I2, I3], 0, math);
      st.mean == 36.0 && 4.5 < st.sigmaBetween < 7.5
  {
    var g := [I1, I2, I3];
    var w := RecencyWeights(Dates(g), 0, math);
    assert Dates(g)[0] == 0 && Dates(g)[1] == 0 && Dates(g)[2] == 0;
    assert DaysAgo(0, 0) == 0;
    assert w[0] == 1.0 && w[1] == 1.0 && w[2] == 1.0;
    assert w[1..][1..][1..] == [];
    assert Sum(w[1..][1..]) == 1.0 + Sum(w[1..][1..][1..]) == 1.0;
    assert Sum(w[1..]) == 1.0 + Sum(w[1..][1..]) == 2.0;
    assert Sum(w) == 1.0 + Sum(w[1..]) == 3.0;
    var xs := Pcts(g);
    assert xs[0] == 31.0 && xs[1] == 32.0 && xs[2] == 45.0;
    assert xs[1..][1..][1..] == [];
    assert Dot(xs[1..][1..], w[1..][1..]) == Product(45.0, 1.0) + Dot(xs[1..][1..][1..], w[1..][1..][1..]) == 45.0;
    assert Dot(xs[1..], w[1..]) == Product(32.0, 1.0) + Dot(xs[1..][1..], w[1..][1..]) == 77.0;
    assert Dot(xs, w) == Product(31.0, 1.0) + Dot(xs[1..], w[1..]) == 108.0;
    var m := WeightedMean(xs, w);
    assert m == 36.0;
    var sq := Squares(xs, m);
    assert sq[0] == Square(-5.0) == 25.0 && sq[1] == Square(-4.0) == 16.0 && sq[2] == Square(9.0) == 81.0;
    assert sq[1..][1..][1..] == [];
    assert Dot(sq[1..][1..], w[1..][1..]) == Product(81.0, 1.0) + Dot(sq[1..][1..][1..], w[1..][1..][1..]) == 81.0;
    assert Dot(sq[1..], w[1..]) == Product(16.0, 1.0) + Dot(sq[1..][1..], w[1..][1..]) == 97.0;
    assert Dot(sq, w) == Product(25.0, 1.0) + Dot(sq[1..], w[1..]) == 122.0;
    var s := BetweenInstituteSigma(xs, w, math);
    assert Square(s) == 122.0 / 3.0;
    assert Square(4.5) == 20.25 && Square(7.5) == 56.25;
    SquareMonotone(4.5, s);
    SquareMonotone(s, 7.5);
  }

  /** Against mean 36 and any sigma strictly between 4.5 and 7.5, only the 45%
      poll is above a limit of 1.2. */
  lemma FirstPassFlags(s: real)
    requires 4.5 < s < 7.5
    ensures OutlierRows([I1, I2, I3], 36.0, s, 1.2) == [Flagged(I3, ZScore(45.0, 36.0, s))]
    ensures Kept([I1, I2, I3], 36.0, s, 1.2) == [I1, I2]
  {
    QuotientBounds(5.0, s, 0.0, 1.2);
    QuotientBounds(4.0, s, 0.0, 1.2);
    QuotientAbove(9.0, s, 1.2);
    assert !IsOutlier(I1, 36.0, s, 1.2) && !IsOutlier(I2, 36.0, s, 1.2) && IsOutlier(I3, 36.0, s, 1.2);
    var g := [I1, I2, I3];
    assert g[1..] == [I2, I3] && g[1..][1..] == [I3] && g[1..][1..][1..] == [];
  }

  /** The statistics of the second pass over the two remaining polls: mean 31.5
      and between-institute sigma 0.5. */
  lemma SecondPassStats(math: Math)
    requires math.Valid()
    ensures var st := Evaluate([I1, I2], 0, math);
      st.mean == 31.5 && st.sigmaBetween == 0.5
  {
    var g := [I1, I2];
    var w := RecencyWeights(Dates(g), 0, math);
    assert Dates(g)[0] == 0 && Dates(g)[1] == 0;
    assert DaysAgo(0, 0) == 0;
    assert w[0] == 1.0 && w[1] == 1.0;
    assert w[1..][1..] == [];
    assert Sum(w[1..]) == 1.0 + Sum(w[1..][1..]) == 1.0;
    assert Sum(w) == 1.0 + Sum(w[1..]) == 2.0;
    var xs := Pcts(g);
    assert xs[0] == 31.0 && xs[1] == 32.0;
    assert xs[1..][1..] == [];
    assert Dot(xs[1..], w[1..]) == Product(32.0, 1.0) + Dot(xs[1..][1..], w[1..][1..]) == 32.0;
    assert Dot(xs, w) == Product(31.0, 1.0) + Dot(xs[1..], w[1..]) == 63.0;
    var m := WeightedMean(xs, w);
    assert m == 31.5;
    var sq := Squares(xs, m);
    assert sq[0] == Square(-0.5) == 0.25 && sq[1] == Square(0.5) == 0.25;
    assert sq[1..][1..] == [];
    assert Dot(sq[1..], w[1..]) == Product(0.25, 1.0) + Dot(sq[1..][1..], w[1..][1..]) == 0.25;
    assert Dot(sq, w) == Product(0.25, 1.0) + Dot(sq[1..], w[1..]) == 0.5;
    var s := BetweenInstituteSigma(xs, w, math);
    assert Square(s) == 0.25;
    SquareMonotone(s, 0.5);
    SquareMonotone(0.5, s);
  }

  /** Against mean 31.5 and sigma 0.5 both remaining polls sit at z = 1, so
      nothing is above a limit of 1.2. */
  lemma SecondPassFlags()
    ensures OutlierRows([I1, I2], 31.5, 0.5, 1.2) == []
  {
    assert ZScore(31.0, 31.5, 0.5) == 1.0 && ZScore(32.0, 31.5, 0.5) == 1.0;
    var g := [I1, I2];
    assert g[1..] == [I2] && g[1..][1..] == [];
    assert Flag(g[1..], 31.5, 0.5, 1.2) == [];
    assert Flag(g, 31.5, 0.5, 1.2) == [];
  }

  /** Polls at 31%, 32% and 45% with a limit of 1.2 and removal disabled: one
      pass, the report holds the 45% poll alone, and the aggregate counts all
      three polls. */
  lemma DetectionExample(math: Math)
    requires math.Valid()
    ensures var g := [I1, I2, I3];
      var r := OutlierLoop(g, g, PassOf(0, math), false, 1.2);
      && r.group == g && r.passes == 1 && |r.outliers| == 1 && r.outliers[0].poll == I3
  {
    var g := [I1, I2, I3];
    FirstPassStats(math);
    FirstPassFlags(Evaluate(g, 0, math).sigmaBetween);
    LoopStep(g, g, PassOf(0, math), false, 1.2);
  }

  /** The loop resumed on the two polls left after the first pass stops at once,
      with nothing flagged and the statistics of those two polls. */
  lemma SecondLoop(math: Math)
    requires math.Valid()
    ensures var r := OutlierLoop([I1, I2, I3], [I1, I2], PassOf(0, math), true, 1.2);
      && r.group == [I1, I2] && !r.reverted && r.passes == 1 && r.outliers == [] && r.stats.mean == 31.5
  {
    SecondPassStats(math);
    SecondPassFlags();
    LoopStep([I1, I2, I3], [I1, I2], PassOf(0, math), true, 1.2);
  }

  /** The same polls with removal enabled: the 45% poll is dropped, the second
      pass flags nothing, and the aggregate is built from the two others: mean
      31.5 (below 33), a sample total of 4000, and the single report entry of the
      first pass, tagged with that pass's mean of 36. */
  lemma RemovalExample(math: Math)
    requires math.Valid()
    ensures var g := [I1, I2, I3];
      var r := OutlierLoop(g, g, PassOf(0, math), true, 1.2);
      && r.group == [I1, I2] && !r.reverted && r.passes == 2
      && |r.outliers| == 1 && r.outliers[0].poll == I3 && r.outliers[0].mean == 36.0
      && r.stats.mean == 31.5 && SampleSum(r.group) == 4000
  {
    var g := [I1, I2, I3];
    var evaluate := PassOf(0, math);
    var st := evaluate(g);
    FirstPassStats(math);
    FirstPassFlags(st.sigmaBetween);
    var flagged := OutlierRows(g, st.mean, st.sigmaBetween, 1.2);
    assert flagged == [Flagged(I3, ZScore(45.0, 36.0, st.sigmaBetween))];
    assert Kept(g, st.mean, st.sigmaBetween, 1.2) == [I1, I2];
    var next := OutlierLoop(g, [I1, I2], evaluate, true, 1.2);
    SecondLoop(math);
    var r := OutlierLoop(g, g, evaluate, true, 1.2);
    assert r == next.(outliers := Tag(flagged, st) + next.outliers, passes := next.passes + 1);
    assert r.group == [I1, I2];
    SurvivorsSample();
  }

  /** The sample total of the two surviving polls. */
  lemma SurvivorsSample()
    ensures SampleSum([I1, I2]) == 4000
  {
    assert [I1, I2][1..] == [I2] && [I2][1..] == [];
    assert SampleSum([I2]) == 2000 + SampleSum([]);
    assert SampleSum([I1, I2]) == 2000 + SampleSum([I2]);
  }

  /** The reset of lines 98-99 is reachable when the limit is below 1: two same-day polls at 30% and 40%
      have mean 35 and between-institute sigma 5, so both sit at z = 1; with a
      limit of 0.5 and removal enabled both are flagged, the drop would empty the
      group, and the aggregate keeps both polls while the report lists both. */
  lemma ResetExample(math: Math)
    requires math.Valid()
    ensures var g := [Poll("X", 30.0, 2.0, "I1", 0, 1000), Poll("X", 40.0, 2.0, "I2", 0, 1000)];
      var r := OutlierLoop(g, g, PassOf(0, math), true, 0.5);
      && r.reverted && r.group == g && r.evaluated == g && r.passes == 1
      && r.stats.mean == 35.0 && r.stats.sigmaBetween == 5.0
      && |r.outliers| == 2 && r.outliers[0].poll == g[0] && r.outliers[1].poll == g[1]
  {
    var g := [Poll("X", 30.0, 2.0, "I1", 0, 1000), Poll("X", 40.0, 2.0, "I2", 0, 1000)];
    var w := RecencyWeights(Dates(g), 0, math);
    assert Dates(g)[0] == 0 && Dates(g)[1] == 0;
    assert DaysAgo(0, 0) == 0;
    assert w[0] == 1.0 && w[1] == 1.0;
    assert w[1..] == [1.0] && w[1..][1..] == [];
    assert Sum(w[1..]) == 1.0 + Sum(w[1..][1..]) == 1.0;
    assert Sum(w) == 2.0;
    var xs := Pcts(g);
    assert xs[0] == 30.0 && xs[1] == 40.0;
    assert xs[1..] == [40.0] && xs[1..][1..] == [];
    assert Dot(xs[1..], w[1..]) == Product(40.0, 1.0) + Dot(xs[1..][1..], w[1..][1..]) == 40.0;
    assert Dot(xs, w) == Product(30.0, 1.0) + Dot(xs[1..], w[1..]) == 70.0;
    var m := WeightedMean(xs, w);
    assert m == 35.0;
    var sq := Squares(xs, m);
    assert sq[0] == Square(-5.0) && sq[1] == Square(5.0);
    assert sq[0] == 25.0 && sq[1] == 25.0;
    assert sq[1..] == [25.0] && sq[1..][1..] == [];
    assert Dot(sq[1..], w[1..]) == Product(25.0, 1.0) + Dot(sq[1..][1..], w[1..][1..]) == 25.0;
    assert Dot(sq, w) == Product(25.0, 1.0) + Dot(sq[1..], w[1..]) == 50.0;
    assert WeightedVariance(xs, w) == 25.0;
    var s := BetweenInstituteSigma(xs, w, math);
    assert Square(5.0) == 25.0;
    SquareMonotone(s, 5.0);
    SquareMonotone(5.0, s);
    var st := Evaluate(g, 0, math);
    assert st.mean == 35.0 && st.sigmaBetween == 5.0;
    assert ZScore(30.0, 35.0, 5.0) == 1.0 && ZScore(40.0, 35.0, 5.0) == 1.0;
    LoopStep(g, g, PassOf(0, math), true, 0.5);
  }

}
