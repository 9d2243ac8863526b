/** `agregar_pesquisas_dataframe`: the per-candidate outlier loop and the
    assembly of the aggregate table and the outlier report. */
module Aggregator {
  import opened Strings
  import opened Polls
  import opened Weighted
  import opened Outliers

  /** What one pass over a group computes (lines 78-82): the weighted mean of the
      intentions, the weighted mean of the reported sigmas, the between-institute
      sigma and their quadrature sum. */
  datatype PassStats = PassStats(mean: real, sigmaReported: real, sigmaBetween: real, sigmaAggregated: real)

  function Evaluate(group: seq<Poll>, reference: int, math: Math): PassStats
    requires |group| > 0 && math.Valid()
  {
    var w := RecencyWeights(Dates(group), reference, math);
    var sigmaReported := WeightedMean(Sigmas(group), w);
    var sigmaBetween := BetweenInstituteSigma(Pcts(group), w, math);
    PassStats(WeightedMean(Pcts(group), w), sigmaReported, sigmaBetween, Quadrature(sigmaReported, sigmaBetween, math))
  }

  /** The numeric guarantees of one pass. */
  lemma EvaluateProperties(group: seq<Poll>, reference: int, math: Math)
    requires |group| > 0 && math.Valid()
    ensures var st := Evaluate(group, reference, math);
      && Min(Pcts(group)) <= st.mean <= Max(Pcts(group))
      && Min(Sigmas(group)) <= st.sigmaReported <= Max(Sigmas(group))
      && st.sigmaBetween >= 0.0
      && (st.sigmaBetween == 0.0 <==> forall i, j :: 0 <= i < |group| && 0 <= j < |group| ==> group[i].pct == group[j].pct)
      && Square(st.sigmaAggregated) == Square(st.sigmaReported) + Square(st.sigmaBetween)
      && st.sigmaAggregated >= Abs(st.sigmaReported)
      && st.sigmaAggregated >= st.sigmaBetween
      && ((forall i :: 0 <= i < |group| ==> group[i].sigma >= 0.0) ==>
            st.sigmaReported >= 0.0 && (st.sigmaAggregated == st.sigmaReported <==> st.sigmaBetween == 0.0))
  {
    var w := RecencyWeights(Dates(group), reference, math);
    var st := Evaluate(group, reference, math);
    MeanWithinRange(Pcts(group), w);
    MeanWithinRange(Sigmas(group), w);
    BetweenSigmaZeroIff(Pcts(group), w, math);
    QuadratureProperties(st.sigmaReported, st.sigmaBetween, math);
    if forall i :: 0 <= i < |group| ==> group[i].sigma >= 0.0 {
      var lo := Min(Sigmas(group));
      assert lo >= 0.0;
    }
  }

  /** When every poll reports the same non-negative sigma `s`, the weighted reported
      sigma is `s`, and the aggregated sigma exceeds it exactly when the polls
      disagree on the intention. */
  lemma DisagreementWidensSigma(group: seq<Poll>, s: real, reference: int, math: Math)
    requires |group| > 0 && math.Valid() && s >= 0.0
    requires forall i :: 0 <= i < |group| ==> group[i].sigma == s
    ensures var st := Evaluate(group, reference, math);
      && st.sigmaReported == s
      && (st.sigmaAggregated > s <==> exists i, j :: 0 <= i < |group| && 0 <= j < |group| && group[i].pct != group[j].pct)
  {
    var w := RecencyWeights(Dates(group), reference, math);
    MeanOfConstant(Sigmas(group), w);
    EvaluateProperties(group, reference, math);
  }

  /** `outliers.assign(...)` (lines 87-91): each flagged row with the pass's mean and sigma. */
  function Tag(fs: seq<Flagged>, st: PassStats): (r: seq<Outlier>)
    ensures |r| == |fs|
    ensures forall k :: 0 <= k < |r| ==> r[k] == Outlier(fs[k].poll, fs[k].z, st.mean, st.sigmaBetween)
  {
    seq(|fs|, k requires 0 <= k < |fs| => Outlier(fs[k].poll, fs[k].z, st.mean, st.sigmaBetween))
  }

  /** Where the loop of lines 77-100 ends: the group the aggregate is built from,
      the last group evaluated, that group's statistics, every pass's reported
      rows, the number of passes, and whether the group was reset to the original. */
  datatype LoopResult = LoopResult(
    group: seq<Poll>,
    evaluated: seq<Poll>,
    stats: PassStats,
    outliers: seq<Outlier>,
    passes: nat,
    reverted: bool)

  /** The loop of lines 77-100, started from `group`; `original` is the group it
      falls back to when every remaining row is flagged, and `evaluate` computes
      the statistics of one pass (the model runs it with `PassOf`, that is with
      `Evaluate`; the shape of the loop does not depend on how they are computed). */
  function OutlierLoop(original: seq<Poll>, group: seq<Poll>, evaluate: seq<Poll> -> PassStats, remove: bool, limit: real): LoopResult
    requires |group| > 0
    decreases |group|
  {
    var st := evaluate(group);
    var flagged := OutlierRows(group, st.mean, st.sigmaBetween, limit);
    var found := Tag(flagged, st);
    if flagged == [] || !remove then LoopResult(group, group, st, found, 1, false)
    else
      var rest := Kept(group, st.mean, st.sigmaBetween, limit);
      if rest == [] then LoopResult(original, group, st, found, 1, true)
      else
        var next := OutlierLoop(original, rest, evaluate, remove, limit);
        next.(outliers := found + next.outliers, passes := next.passes + 1)
  }

  /** One pass of `OutlierLoop`, field by field: the pass that stops, the pass that
      resets the group, and the pass that continues with the remaining rows. */
  lemma LoopStep(original: seq<Poll>, group: seq<Poll>, evaluate: seq<Poll> -> PassStats, remove: bool, limit: real)
    requires |group| > 0
    ensures var st := evaluate(group);
      var flagged := OutlierRows(group, st.mean, st.sigmaBetween, limit);
      var r := OutlierLoop(original, group, evaluate, remove, limit);
      && (flagged == [] || !remove ==>
            && r.group == group && r.evaluated == group && r.stats == st
            && r.outliers == Tag(flagged, st) && r.passes == 1 && !r.reverted)
      && (flagged != [] && remove ==>
            var rest := Kept(group, st.mean, st.sigmaBetween, limit);
            && st.sigmaBetween > 0.0
            && (rest == [] ==>
                  && r.group == original && r.evaluated == group && r.stats == st
                  && r.outliers == Tag(flagged, st) && r.passes == 1 && r.reverted)
            && (rest != [] ==>
                  var next := OutlierLoop(original, rest, evaluate, remove, limit);
                  && |rest| < |group|
                  && r.group == next.group && r.evaluated == next.evaluated && r.stats == next.stats
                  && r.outliers == Tag(flagged, st) + next.outliers
                  && r.passes == next.passes + 1 && r.reverted == next.reverted))
  {
  }

  /** Why the loop of lines 77-100 terminates: a pass that flags rows drops
      exactly those rows, so what remains together with the flagged rows is the
      group, a row remains iff it is not above the limit, and the remaining group
      is strictly smaller. */
  lemma ContinuingPassShrinks(group: seq<Poll>, st: PassStats, limit: real)
    requires |group| > 0
    ensures var flagged := OutlierRows(group, st.mean, st.sigmaBetween, limit);
      flagged != [] ==>
        var rest := Kept(group, st.mean, st.sigmaBetween, limit);
        && st.sigmaBetween > 0.0
        && multiset(rest) + multiset(PollsOf(flagged)) == multiset(group)
        && (forall p :: p in rest <==> p in group && !IsOutlier(p, st.mean, st.sigmaBetween, limit))
        && |rest| < |group|
  {
    if st.sigmaBetween > 0.0 {
      DropPartitions(group, st.mean, st.sigmaBetween, limit);
    }
  }

  /** The loop evaluates groups drawn from its starting group, never more passes
      than the group has rows, and the statistics it ends with are those of the
      last group it evaluated. */
  lemma {:induction false} LoopBounds(original: seq<Poll>, group: seq<Poll>, evaluate: seq<Poll> -> PassStats, remove: bool, limit: real)
    requires |group| > 0
    ensures var r := OutlierLoop(original, group, evaluate, remove, limit);
      && 0 < |r.evaluated| <= |group|
      && multiset(r.evaluated) <= multiset(group)
      && r.stats == evaluate(r.evaluated)
      && 1 <= r.passes <= |group|
    decreases |group|
  {
    var st := evaluate(group);
    var flagged := OutlierRows(group, st.mean, st.sigmaBetween, limit);
    LoopStep(original, group, evaluate, remove, limit);
    if flagged != [] && remove {
      var rest := Kept(group, st.mean, st.sigmaBetween, limit);
      if rest != [] {
        LoopBounds(original, rest, evaluate, remove, limit);
        DropPartitions(group, st.mean, st.sigmaBetween, limit);
        SubMultiset(OutlierLoop(original, rest, evaluate, remove, limit).evaluated, rest, group);
      }
    }
  }

  /** How the loop stops: with removal disabled after exactly one pass on the
      group it was given; otherwise either at a group in which nothing is flagged,
      or, when every row of the group evaluated last was flagged, with the group
      reset to the original. */
  lemma {:induction false} LoopOutcome(original: seq<Poll>, group: seq<Poll>, evaluate: seq<Poll> -> PassStats, remove: bool, limit: real)
    requires |group| > 0
    ensures var r := OutlierLoop(original, group, evaluate, remove, limit);
      && (!remove ==> r.passes == 1 && r.group == group && r.evaluated == group && !r.reverted)
      && (!r.reverted ==> r.group == r.evaluated)
      && (!r.reverted && remove ==> OutlierRows(r.evaluated, r.stats.mean, r.stats.sigmaBetween, limit) == [])
      && (r.reverted ==> remove && r.group == original
                         && OutlierRows(r.evaluated, r.stats.mean, r.stats.sigmaBetween, limit) != []
                         && r.stats.sigmaBetween > 0.0
                         && Kept(r.evaluated, r.stats.mean, r.stats.sigmaBetween, limit) == [])
    decreases |group|
  {
    var st := evaluate(group);
    var flagged := OutlierRows(group, st.mean, st.sigmaBetween, limit);
    LoopStep(original, group, evaluate, remove, limit);
    if flagged != [] && remove {
      var rest := Kept(group, st.mean, st.sigmaBetween, limit);
      if rest != [] {
        LoopOutcome(original, rest, evaluate, remove, limit);
      }
    }
  }

  /** A report entry as the loop produces it: a row of `group` whose z-score, taken
      against the entry's own mean and positive sigma, exceeds the limit. */
  predicate Reported(o: Outlier, group: seq<Poll>, limit: real) {
    o.poll in group && o.sigmaBetween > 0.0 && o.z == ZScore(o.poll.pct, o.mean, o.sigmaBetween) && o.z > limit
  }

  predicate AllReported(os: seq<Outlier>, group: seq<Poll>, limit: real) {
    forall k :: 0 <= k < |os| ==> Reported(os[k], group, limit)
  }

  lemma TagReported(group: seq<Poll>, st: PassStats, limit: real)
    ensures AllReported(Tag(OutlierRows(group, st.mean, st.sigmaBetween, limit), st), group, limit)
  {
  }

  lemma ReportedConcat(xs: seq<Outlier>, ys: seq<Outlier>, sub: seq<Poll>, group: seq<Poll>, limit: real)
    requires AllReported(xs, group, limit) && AllReported(ys, sub, limit)
    requires forall p :: p in sub ==> p in group
    ensures AllReported(xs + ys, group, limit)
  {
    forall k | 0 <= k < |xs + ys|
      ensures Reported((xs + ys)[k], group, limit)
    {
      if k >= |xs| {
        assert (xs + ys)[k] == ys[k - |xs|];
      }
    }
  }

  /** Every entry of the report is a row of the starting group, above the limit and
      tagged with the mean and the sigma of the pass that flagged it. */
  lemma {:induction false} LoopReportRows(original: seq<Poll>, group: seq<Poll>, evaluate: seq<Poll> -> PassStats, remove: bool, limit: real)
    requires |group| > 0
    ensures AllReported(OutlierLoop(original, group, evaluate, remove, limit).outliers, group, limit)
    decreases |group|
  {
    var st := evaluate(group);
    var flagged := OutlierRows(group, st.mean, st.sigmaBetween, limit);
    TagReported(group, st, limit);
    LoopStep(original, group, evaluate, remove, limit);
    if flagged != [] && remove {
      var rest := Kept(group, st.mean, st.sigmaBetween, limit);
      if rest != [] {
        LoopReportRows(original, rest, evaluate, remove, limit);
        DropPartitions(group, st.mean, st.sigmaBetween, limit);
        ReportedConcat(Tag(flagged, st), OutlierLoop(original, rest, evaluate, remove, limit).outliers, rest, group, limit);
      }
    }
  }

  /** The polls of a list of report entries, in order. */
  function ReportPolls(os: seq<Outlier>): (r: seq<Poll>)
    ensures |r| == |os| && forall k :: 0 <= k < |os| ==> r[k] == os[k].poll
  {
    seq(|os|, k requires 0 <= k < |os| => os[k].poll)
  }

  lemma ReportPollsOfTag(fs: seq<Flagged>, st: PassStats)
    ensures ReportPolls(Tag(fs, st)) == PollsOf(fs)
  {
  }

  lemma ReportPollsConcat(a: seq<Outlier>, b: seq<Outlier>)
    ensures ReportPolls(a + b) == ReportPolls(a) + ReportPolls(b)
  {
  }

  /** With removal off the loop makes a single pass, and its report holds every
      row of the group above the limit, with its multiplicity and nothing else,
      each tagged with that pass's mean and between-institute sigma. */
  lemma LoopReportNoRemoval(original: seq<Poll>, group: seq<Poll>, evaluate: seq<Poll> -> PassStats, limit: real)
    requires |group| > 0
    ensures var st := evaluate(group);
      var r := OutlierLoop(original, group, evaluate, false, limit);
      && (forall k :: 0 <= k < |r.outliers| ==>
            r.outliers[k].mean == st.mean && r.outliers[k].sigmaBetween == st.sigmaBetween)
      && (|group| >= 2 && st.sigmaBetween > 0.0 ==>
            forall p :: multiset(ReportPolls(r.outliers))[p] ==
              if IsOutlier(p, st.mean, st.sigmaBetween, limit) then multiset(group)[p] else 0)
  {
    var st := evaluate(group);
    LoopStep(original, group, evaluate, false, limit);
    ReportPollsOfTag(OutlierRows(group, st.mean, st.sigmaBetween, limit), st);
  }

  /** With removal on, every row of the starting group is accounted for exactly
      once: it was reported by some pass or it is in the final group. When the
      group was reset, every row of the starting group was reported. */
  lemma {:induction false} LoopReportPartition(original: seq<Poll>, group: seq<Poll>, evaluate: seq<Poll> -> PassStats, limit: real)
    requires |group| > 0
    ensures var r := OutlierLoop(original, group, evaluate, true, limit);
      && (!r.reverted ==> multiset(ReportPolls(r.outliers)) + multiset(r.group) == multiset(group))
      && (r.reverted ==> multiset(ReportPolls(r.outliers)) == multiset(group))
    decreases |group|
  {
    var st := evaluate(group);
    var flagged := OutlierRows(group, st.mean, st.sigmaBetween, limit);
    var tagged := Tag(flagged, st);
    var r := OutlierLoop(original, group, evaluate, true, limit);
    ReportPollsOfTag(flagged, st);
    if flagged == [] {
      assert r.outliers == tagged && r.group == group && !r.reverted;
      assert ReportPolls(r.outliers) == [];
    } else {
      ContinuingPassShrinks(group, st, limit);
      var rest := Kept(group, st.mean, st.sigmaBetween, limit);
      if rest == [] {
        assert r.outliers == tagged && r.reverted;
      } else {
        var next := OutlierLoop(original, rest, evaluate, true, limit);
        assert r.outliers == tagged + next.outliers && r.group == next.group && r.reverted == next.reverted;
        LoopReportPartition(original, rest, evaluate, limit);
        ReportPollsConcat(tagged, next.outliers);
      }
    }
  }

  /** Entry `o` carries the statistics of a pass over `sub`, a non-empty part of
      `group` that holds the entry's poll. */
  predicate TaggedByPass(o: Outlier, sub: seq<Poll>, group: seq<Poll>, evaluate: seq<Poll> -> PassStats) {
    && |sub| > 0 && multiset(sub) <= multiset(group) && o.poll in sub
    && o.mean == evaluate(sub).mean && o.sigmaBetween == evaluate(sub).sigmaBetween
  }

  /** Entry `o` carries the statistics of some pass over a part of `group`. */
  ghost predicate TaggedBySomePass(o: Outlier, group: seq<Poll>, evaluate: seq<Poll> -> PassStats) {
    exists sub :: TaggedByPass(o, sub, group, evaluate)
  }

  /** Every entry of `os` carries the statistics of a pass over a part of `group`. */
  ghost predicate AllTaggedByPasses(os: seq<Outlier>, group: seq<Poll>, evaluate: seq<Poll> -> PassStats) {
    forall k :: 0 <= k < |os| ==> TaggedBySomePass(os[k], group, evaluate)
  }

  /** The entries of one pass over the whole group carry that pass's statistics. */
  lemma TagsOfFirstPass(group: seq<Poll>, evaluate: seq<Poll> -> PassStats, limit: real)
    requires |group| > 0
    ensures var st := evaluate(group);
      AllTaggedByPasses(Tag(OutlierRows(group, st.mean, st.sigmaBetween, limit), st), group, evaluate)
  {
    var st := evaluate(group);
    var flagged := OutlierRows(group, st.mean, st.sigmaBetween, limit);
    var tagged := Tag(flagged, st);
    if flagged != [] {
      assert flagged == Flag(group, st.mean, st.sigmaBetween, limit);
    }
    forall k | 0 <= k < |tagged|
      ensures TaggedBySomePass(tagged[k], group, evaluate)
    {
      assert tagged[k].poll == flagged[k].poll && flagged[k].poll in group;
      assert TaggedByPass(tagged[k], group, group, evaluate);
    }
  }

  lemma WidenPass(o: Outlier, rest: seq<Poll>, group: seq<Poll>, evaluate: seq<Poll> -> PassStats)
    requires TaggedBySomePass(o, rest, evaluate) && multiset(rest) <= multiset(group)
    ensures TaggedBySomePass(o, group, evaluate)
  {
    var sub :| TaggedByPass(o, sub, rest, evaluate);
    assert TaggedByPass(o, sub, group, evaluate);
  }

  /** Reports of a pass over `group` followed by reports of later passes over a
      part of it are all tagged by passes over parts of `group`. */
  lemma TagsConcat(first: seq<Outlier>, later: seq<Outlier>, rest: seq<Poll>, group: seq<Poll>, evaluate: seq<Poll> -> PassStats)
    requires AllTaggedByPasses(first, group, evaluate) && AllTaggedByPasses(later, rest, evaluate)
    requires multiset(rest) <= multiset(group)
    ensures AllTaggedByPasses(first + later, group, evaluate)
  {
    var os := first + later;
    forall k | 0 <= k < |os|
      ensures TaggedBySomePass(os[k], group, evaluate)
    {
      if k >= |first| {
        assert os[k] == later[k - |first|];
        WidenPass(os[k], rest, group, evaluate);
      }
    }
  }

  /** Every entry of the report is tagged with the mean and the between-institute
      sigma of the pass that flagged it, a pass over a part of the starting group
      that holds the entry's poll (lines 87-91). */
  lemma {:induction false} LoopReportTags(original: seq<Poll>, group: seq<Poll>, evaluate: seq<Poll> -> PassStats, remove: bool, limit: real)
    requires |group| > 0
    ensures AllTaggedByPasses(OutlierLoop(original, group, evaluate, remove, limit).outliers, group, evaluate)
    decreases |group|
  {
    var st := evaluate(group);
    var flagged := OutlierRows(group, st.mean, st.sigmaBetween, limit);
    var tagged := Tag(flagged, st);
    var os := OutlierLoop(original, group, evaluate, remove, limit).outliers;
    TagsOfFirstPass(group, evaluate, limit);
    if flagged == [] || !remove {
      assert os == tagged;
    } else {
      ContinuingPassShrinks(group, st, limit);
      var rest := Kept(group, st.mean, st.sigmaBetween, limit);
      if rest == [] {
        assert os == tagged;
      } else {
        var later := OutlierLoop(original, rest, evaluate, remove, limit).outliers;
        assert os == tagged + later;
        LoopReportTags(original, rest, evaluate, remove, limit);
        TagsConcat(tagged, later, rest, group, evaluate);
      }
    }
  }

  /** The report is empty exactly when the first pass flags nothing. */
  lemma LoopReportEmpty(original: seq<Poll>, group: seq<Poll>, evaluate: seq<Poll> -> PassStats, remove: bool, limit: real)
    requires |group| > 0
    ensures var st := evaluate(group);
      OutlierLoop(original, group, evaluate, remove, limit).outliers == [] <==> OutlierRows(group, st.mean, st.sigmaBetween, limit) == []
  {
    LoopStep(original, group, evaluate, remove, limit);
  }

  /** Running the loop again on the group it settled on, with removal enabled,
      changes nothing: one pass, no outliers, the same statistics. */
  lemma Idempotent(original: seq<Poll>, evaluate: seq<Poll> -> PassStats, limit: real)
    requires |original| > 0
    requires !OutlierLoop(original, original, evaluate, true, limit).reverted
    ensures var r := OutlierLoop(original, original, evaluate, true, limit);
      |r.group| > 0 && OutlierLoop(r.group, r.group, evaluate, true, limit) == LoopResult(r.group, r.group, r.stats, [], 1, false)
  {
    LoopBounds(original, original, evaluate, true, limit);
    LoopOutcome(original, original, evaluate, true, limit);
  }

  /** With the statistics of the source and a limit of at least 1, dropping the
      flagged rows never empties a group: some row lies within one
      between-institute sigma of the weighted mean, so its z-score is at most 1. */
  lemma SomeRowKept(g: seq<Poll>, reference: int, limit: real, math: Math)
    requires |g| > 0 && math.Valid() && limit >= 1.0
    ensures var st := Evaluate(g, reference, math);
      st.sigmaBetween > 0.0 ==> Kept(g, st.mean, st.sigmaBetween, limit) != []
  {
    var st := Evaluate(g, reference, math);
    if st.sigmaBetween > 0.0 {
      var w := RecencyWeights(Dates(g), reference, math);
      NotAllBeyondSigma(Pcts(g), w, math);
      var i :| 0 <= i < |g| && Abs(Pcts(g)[i] - st.mean) <= st.sigmaBetween;
      QuotientBounds(Abs(g[i].pct - st.mean), st.sigmaBetween, 0.0, 1.0);
      assert !IsOutlier(g[i], st.mean, st.sigmaBetween, limit);
      assert multiset(g)[g[i]] > 0;
      assert multiset(Kept(g, st.mean, st.sigmaBetween, limit))[g[i]] > 0;
    }
  }

  /** The reset of lines 98-99 therefore needs a limit below 1: with
      `limite_z >= 1` (the default is 2.0) the group is never reset. */
  lemma ResetNeedsLimitBelowOne(original: seq<Poll>, group: seq<Poll>, reference: int, remove: bool, limit: real, math: Math)
    requires |group| > 0 && math.Valid()
    ensures limit >= 1.0 ==> !OutlierLoop(original, group, PassOf(reference, math), remove, limit).reverted
  {
    var evaluate := PassOf(reference, math);
    var r := OutlierLoop(original, group, evaluate, remove, limit);
    LoopBounds(original, group, evaluate, remove, limit);
    LoopOutcome(original, group, evaluate, remove, limit);
    if r.reverted && limit >= 1.0 {
      SomeRowKept(r.evaluated, reference, limit, math);
    }
  }

  /** The statistics of a pass as the source computes them; the empty group, which
      no pass sees, gets zeros. */
  function PassOf(reference: int, math: Math): (evaluate: seq<Poll> -> PassStats)
    requires math.Valid()
    ensures forall g :: |g| > 0 ==> evaluate(g) == Evaluate(g, reference, math)
  {
    g => if |g| > 0 then Evaluate(g, reference, math) else PassStats(0.0, 0.0, 0.0, 0.0)
  }

  /** The loop of lines 77-100 as the source runs it: `grupo` is reassigned pass
      after pass, and the flagged rows of every pass are appended to the report.
      `evaluate` computes lines 78-82 for the current group. */
  method RunOutlierLoop(original: seq<Poll>, evaluate: seq<Poll> -> PassStats, remove: bool, limit: real)
    returns (group: seq<Poll>, stats: PassStats, found: seq<Outlier>)
    requires |original| > 0
    ensures var r := OutlierLoop(original, original, evaluate, remove, limit);
      group == r.group && stats == r.stats && found == r.outliers
  {
    ghost var whole := OutlierLoop(original, original, evaluate, remove, limit);
    group := original;
    found := [];
    while true
      invariant |group| > 0
      invariant var r := OutlierLoop(original, group, evaluate, remove, limit);
        whole.group == r.group && whole.stats == r.stats && whole.outliers == found + r.outliers
      decreases |group|
    {
      stats := evaluate(group);
      var flagged := OutlierRows(group, stats.mean, stats.sigmaBetween, limit);
      var tagged := Tag(flagged, stats);
      LoopStep(original, group, evaluate, remove, limit);
      if flagged == [] || !remove {
        if flagged != [] {
          found := found + tagged;
        } else {
          assert found + tagged == found;
        }
        break;
      }
      var rest := Kept(group, stats.mean, stats.sigmaBetween, limit);
      if rest != [] {
        ConcatAssociates(found, tagged, OutlierLoop(original, rest, evaluate, remove, limit).outliers);
      }
      found := found + tagged;
      if rest == [] {
        group := original;
        break;
      }
      group := rest;
    }
  }

  lemma SubMultiset(a: seq<Poll>, b: seq<Poll>, c: seq<Poll>)
    requires multiset(a) <= multiset(b)
    requires forall p :: multiset(b)[p] <= multiset(c)[p]
    ensures multiset(a) <= multiset(c)
  {
  }

  lemma ConcatAssociates<T>(a: seq<T>, b: seq<T>, c: seq<T>)
    ensures a + (b + c) == (a + b) + c
  {
  }

  /** The keys of `base.groupby("candidato", sort=True)`: each candidate once, ascending. */
  function Candidates(rows: seq<Poll>): (r: seq<string>)
    ensures StrictlySorted(r)
    ensures forall c :: c in r <==> c in CandidateNames(rows)
  {
    SortedDistinct(CandidateNames(rows))
  }

  /** The rows of one candidate, in their original order. */
  function GroupOf(rows: seq<Poll>, c: string): (g: seq<Poll>)
    ensures forall p :: multiset(g)[p] == if p.candidate == c then multiset(rows)[p] else 0
    ensures c in CandidateNames(rows) ==> g != []
  {
    if rows == [] then []
    else
      var rest := GroupOf(rows[1..], c);
      assert rows == [rows[0]] + rows[1..];
      NamesTail(rows, c);
      if rows[0].candidate == c then [rows[0]] + rest else rest
  }

  /** Grouping keeps the order of the rows: the group of a concatenation is the
      group of the first part followed by the group of the second. */
  lemma {:induction false} GroupOfConcat(a: seq<Poll>, b: seq<Poll>, c: string)
    ensures GroupOf(a + b, c) == GroupOf(a, c) + GroupOf(b, c)
  {
    if a == [] {
      assert a + b == b;
      assert GroupOf(a, c) + GroupOf(b, c) == GroupOf(b, c);
    } else {
      var ab := a + b;
      assert ab[0] == a[0] && ab[1..] == a[1..] + b;
      var head := if a[0].candidate == c then [a[0]] else [];
      GroupOfConcat(a[1..], b, c);
      GroupOfFirst(a, c);
      GroupOfFirst(ab, c);
      ConcatAssociates(head, GroupOf(a[1..], c), GroupOf(b, c));
    }
  }

  lemma GroupOfFirst(rows: seq<Poll>, c: string)
    requires rows != []
    ensures GroupOf(rows, c) == (if rows[0].candidate == c then [rows[0]] else []) + GroupOf(rows[1..], c)
  {
  }

  /** A name of `rows` other than the first row's is a name of the remaining rows. */
  lemma NamesTail(rows: seq<Poll>, c: string)
    requires rows != []
    ensures c in CandidateNames(rows) && c != rows[0].candidate ==> c in CandidateNames(rows[1..])
  {
    if c in CandidateNames(rows) && c != rows[0].candidate {
      var i :| 0 <= i < |rows| && CandidateNames(rows)[i] == c;
      assert CandidateNames(rows[1..])[i - 1] == c;
    }
  }

  /** `base["data"].max()`: the latest poll date of the whole table. */
  function MaxDate(rows: seq<Poll>): (d: int)
    requires |rows| > 0
    ensures forall i :: 0 <= i < |rows| ==> rows[i].date <= d
    ensures exists i :: 0 <= i < |rows| && rows[i].date == d
  {
    if |rows| == 1 then rows[0].date
    else
      var rest := MaxDate(rows[1..]);
      assert forall i :: 1 <= i < |rows| ==> rows[i].date <= rest by {
        forall i | 1 <= i < |rows| ensures rows[i].date <= rest { assert rows[i] == rows[1..][i - 1]; }
      }
      if rows[0].date >= rest then rows[0].date else rest
  }

  /** The aggregate row (lines 105-114) and the report (lines 102-103) of candidate
      `c`, each pass evaluated by `evaluate` and dated `reference`. */
  function CandidateRow(rows: seq<Poll>, c: string, evaluate: seq<Poll> -> PassStats, reference: int, remove: bool, limit: real): (Aggregate, seq<Outlier>)
    requires c in CandidateNames(rows)
  {
    var g := GroupOf(rows, c);
    var r := OutlierLoop(g, g, evaluate, remove, limit);
    (Aggregate(c, r.stats.mean, r.stats.sigmaAggregated, |r.group|, SampleSum(r.group), reference), r.outliers)
  }

  datatype Report = Report(aggregates: seq<Aggregate>, outliers: seq<Outlier>)

  /** `CandidateRow` for every candidate of `rows`, as one function of the name. */
  function RowOf(rows: seq<Poll>, evaluate: seq<Poll> -> PassStats, reference: int, remove: bool, limit: real)
    : (rowOf: string -> (Aggregate, seq<Outlier>))
    ensures forall c :: c in CandidateNames(rows) ==> rowOf(c) == CandidateRow(rows, c, evaluate, reference, remove, limit)
  {
    c => if c in CandidateNames(rows) then CandidateRow(rows, c, evaluate, reference, remove, limit)
         else (Aggregate(c, 0.0, 0.0, 0, 0, reference), [])
  }

  /** The rows and reports of the first `n` candidates of `cands`, in that order. */
  function Summarize(cands: seq<string>, n: nat, rowOf: string -> (Aggregate, seq<Outlier>)): Report
    requires n <= |cands|
  {
    if n == 0 then Report([], [])
    else
      var prev := Summarize(cands, n - 1, rowOf);
      var (agg, found) := rowOf(cands[n - 1]);
      Report(prev.aggregates + [agg], prev.outliers + found)
  }

  /** The body of the loop over candidates (lines 74-114) for candidate `c`. */
  method AggregateCandidate(rows: seq<Poll>, c: string, evaluate: seq<Poll> -> PassStats, reference: int, remove: bool, limit: real)
    returns (row: Aggregate, found: seq<Outlier>)
    requires c in CandidateNames(rows)
    ensures (row, found) == CandidateRow(rows, c, evaluate, reference, remove, limit)
  {
    var original := GroupOf(rows, c);
    var group, stats;
    group, stats, found := RunOutlierLoop(original, evaluate, remove, limit);
    row := Aggregate(c, stats.mean, stats.sigmaAggregated, |group|, SampleSum(group), reference);
  }

  lemma SummarizeNext(cands: seq<string>, i: nat, rowOf: string -> (Aggregate, seq<Outlier>), row: Aggregate, found: seq<Outlier>)
    requires i < |cands| && (row, found) == rowOf(cands[i])
    ensures var prev := Summarize(cands, i, rowOf);
      var next := Summarize(cands, i + 1, rowOf);
      next.aggregates == prev.aggregates + [row] && next.outliers == prev.outliers + found
  {
  }

  /** `agregar_pesquisas_dataframe` as a value: the schema error, the failure on an
      empty table, or the aggregate table and the outlier report. */
  function AggregateTable(table: Table, remove: bool, limit: real, math: Math): Result<Report>
    requires math.Valid()
  {
    match ValidateColumns(table.columns)
    case Some(e) => Err(e)
    case None =>
      if table.rows == [] then Err(NoRows)
      else
        var cands := Candidates(table.rows);
        var reference := MaxDate(table.rows);
        Ok(Summarize(cands, |cands|, RowOf(table.rows, PassOf(reference, math), reference, remove, limit)))
  }

  /** `agregar_pesquisas_dataframe(df)` with the default arguments of lines
      60-61: `remover_outliers=False` and `limite_z=2.0`. */
  function AggregateTableDefaults(table: Table, math: Math): Result<Report>
    requires math.Valid()
  {
    AggregateTable(table, false, 2.0, math)
  }

  /** `agregar_pesquisas_dataframe` as the source runs it: validate, fix the
      reference date, then one loop over the candidates appending to the two results. */
  method AggregatePolls(table: Table, remove: bool, limit: real, math: Math) returns (result: Result<Report>)
    requires math.Valid()
    ensures result == AggregateTable(table, remove, limit, math)
  {
    var invalid := ValidateColumns(table.columns);
    if invalid.Some? {
      return Err(invalid.value);
    }
    if table.rows == [] {
      return Err(NoRows);
    }
    var reference := MaxDate(table.rows);
    var evaluate := PassOf(reference, math);
    ghost var rowOf := RowOf(table.rows, evaluate, reference, remove, limit);
    var cands := Candidates(table.rows);
    var aggregates: seq<Aggregate> := [];
    var detected: seq<Outlier> := [];
    for i := 0 to |cands|
      invariant var sofar := Summarize(cands, i, rowOf);
        aggregates == sofar.aggregates && detected == sofar.outliers
    {
      var row, found := AggregateCandidate(table.rows, cands[i], evaluate, reference, remove, limit);
      SummarizeNext(cands, i, rowOf, row, found);
      if found != [] {
        detected := detected + found;
      } else {
        assert detected + found == detected;
      }
      aggregates := aggregates + [row];
    }
    result := Ok(Report(aggregates, detected));
  }

  /** The intention of a row of `group` lies within the range of the group's. */
  lemma PctWithin(p: Poll, group: seq<Poll>)
    requires p in group
    ensures Min(Pcts(group)) <= p.pct <= Max(Pcts(group))
  {
    var k :| 0 <= k < |group| && group[k] == p;
    assert Pcts(group)[k] == p.pct;
  }

  /** The intentions of a sub-multiset of `group` lie within the range of the group's. */
  lemma PctRangeOfSubgroup(sub: seq<Poll>, group: seq<Poll>)
    requires |sub| > 0 && multiset(sub) <= multiset(group)
    ensures |group| > 0
    ensures Min(Pcts(group)) <= Min(Pcts(sub)) && Max(Pcts(sub)) <= Max(Pcts(group))
  {
    var i :| 0 <= i < |sub| && Pcts(sub)[i] == Min(Pcts(sub));
    var j :| 0 <= j < |sub| && Pcts(sub)[j] == Max(Pcts(sub));
    assert sub[i] in multiset(group) && sub[j] in multiset(group);
    PctWithin(sub[i], group);
    PctWithin(sub[j], group);
  }

  /** Non-negative reported sigmas stay non-negative in a sub-multiset. */
  lemma SigmasOfSubgroup(sub: seq<Poll>, group: seq<Poll>)
    requires multiset(sub) <= multiset(group)
    requires forall p :: p in group ==> p.sigma >= 0.0
    ensures forall i :: 0 <= i < |sub| ==> sub[i].sigma >= 0.0
  {
    forall i | 0 <= i < |sub|
      ensures sub[i].sigma >= 0.0
    {
      assert sub[i] in multiset(group);
    }
  }

  /** The rows an aggregate is built from: the candidate's own rows, all of them
      when removal is off or the group was reset, otherwise those left when the
      loop stopped, among which nothing is flagged any more; its intention and sigma
      are those of the last group evaluated. */
  lemma CandidateRowGroup(rows: seq<Poll>, c: string, evaluate: seq<Poll> -> PassStats, reference: int, remove: bool, limit: real)
    requires c in CandidateNames(rows)
    ensures var g := GroupOf(rows, c);
      var r := OutlierLoop(g, g, evaluate, remove, limit);
      var a := CandidateRow(rows, c, evaluate, reference, remove, limit).0;
      && a.candidate == c && a.referenceDate == reference
      && a.count == |r.group| && a.sampleTotal == SampleSum(r.group)
      && 0 < a.count <= |g|
      && multiset(r.group) <= multiset(g)
      && (forall p :: p in r.group ==> p.candidate == c)
      && (!remove || r.reverted ==> r.group == g)
      && (remove && !r.reverted ==> r.group == r.evaluated
                                    && OutlierRows(r.group, r.stats.mean, r.stats.sigmaBetween, limit) == [])
      && a.pct == evaluate(r.evaluated).mean && a.sigma == evaluate(r.evaluated).sigmaAggregated
  {
    var g := GroupOf(rows, c);
    var r := OutlierLoop(g, g, evaluate, remove, limit);
    LoopBounds(g, g, evaluate, remove, limit);
    LoopOutcome(g, g, evaluate, remove, limit);
    forall p | p in r.group
      ensures p.candidate == c
    {
      assert multiset(r.group)[p] > 0;
    }
  }

  /** With the statistics of the source, the aggregated intention lies between the
      smallest and the largest intention of the last group evaluated, which is
      the surviving group unless the group was reset, and so also within the
      range of all the candidate's intentions. */
  lemma CandidateRowMean(rows: seq<Poll>, c: string, reference: int, remove: bool, limit: real, math: Math)
    requires c in CandidateNames(rows) && math.Valid()
    ensures var g := GroupOf(rows, c);
      var r := OutlierLoop(g, g, PassOf(reference, math), remove, limit);
      var a := CandidateRow(rows, c, PassOf(reference, math), reference, remove, limit).0;
      && |r.evaluated| > 0
      && Min(Pcts(r.evaluated)) <= a.pct <= Max(Pcts(r.evaluated))
      && Min(Pcts(g)) <= a.pct <= Max(Pcts(g))
  {
    var g := GroupOf(rows, c);
    var r := OutlierLoop(g, g, PassOf(reference, math), remove, limit);
    LoopBounds(g, g, PassOf(reference, math), remove, limit);
    EvaluateProperties(r.evaluated, reference, math);
    PctRangeOfSubgroup(r.evaluated, g);
  }

  /** With the statistics of the source, the aggregated sigma is the quadrature sum of
      the weighted reported sigma and the between-institute sigma of the last group
      evaluated, so it is at least either of them (the between-institute sigma
      is never negative), and, when the candidate's reported sigmas are non-negative, it equals
      the reported part exactly when the between-institute sigma is zero. */
  lemma CandidateRowSigma(rows: seq<Poll>, c: string, reference: int, remove: bool, limit: real, math: Math)
    requires c in CandidateNames(rows) && math.Valid()
    ensures var g := GroupOf(rows, c);
      var r := OutlierLoop(g, g, PassOf(reference, math), remove, limit);
      var a := CandidateRow(rows, c, PassOf(reference, math), reference, remove, limit).0;
      && Square(a.sigma) == Square(r.stats.sigmaReported) + Square(r.stats.sigmaBetween)
      && a.sigma >= Abs(r.stats.sigmaReported)
      && a.sigma >= r.stats.sigmaBetween >= 0.0
      && ((forall p :: p in g ==> p.sigma >= 0.0) ==>
            (a.sigma == r.stats.sigmaReported <==> r.stats.sigmaBetween == 0.0))
  {
    var g := GroupOf(rows, c);
    var r := OutlierLoop(g, g, PassOf(reference, math), remove, limit);
    LoopBounds(g, g, PassOf(reference, math), remove, limit);
    EvaluateProperties(r.evaluated, reference, math);
    if forall p :: p in g ==> p.sigma >= 0.0 {
      SigmasOfSubgroup(r.evaluated, g);
    }
  }

  /** A candidate's report: rows of that candidate above the limit, each tagged with
      the statistics of its pass, empty exactly when the first pass flags nothing. */
  lemma CandidateRowReport(rows: seq<Poll>, c: string, evaluate: seq<Poll> -> PassStats, reference: int, remove: bool, limit: real)
    requires c in CandidateNames(rows)
    ensures var g := GroupOf(rows, c);
      var st := evaluate(g);
      var found := CandidateRow(rows, c, evaluate, reference, remove, limit).1;
      && AllReported(found, g, limit)
      && (forall k :: 0 <= k < |found| ==> found[k].poll.candidate == c)
      && (found == [] <==> OutlierRows(g, st.mean, st.sigmaBetween, limit) == [])
  {
    var g := GroupOf(rows, c);
    var found := CandidateRow(rows, c, evaluate, reference, remove, limit).1;
    LoopReportRows(g, g, evaluate, remove, limit);
    LoopReportEmpty(g, g, evaluate, remove, limit);
    forall k | 0 <= k < |found|
      ensures found[k].poll.candidate == c
    {
      assert Reported(found[k], g, limit);
      assert multiset(g)[found[k].poll] > 0;
    }
  }

  /** A candidate's report accounts for its rows. Without removal it holds each row
      above the limit of the single pass as many times as the row occurs, all tagged
      with that pass's statistics. With removal every row is either reported once or
      in the group the aggregate is built from (`CandidateRowGroup`), and after a
      reset every row is reported. Every entry carries the statistics of a pass
      over a part of the candidate's rows that holds it. */
  lemma CandidateRowAccounting(rows: seq<Poll>, c: string, evaluate: seq<Poll> -> PassStats, reference: int, remove: bool, limit: real)
    requires c in CandidateNames(rows)
    ensures var g := GroupOf(rows, c);
      var st := evaluate(g);
      var lr := OutlierLoop(g, g, evaluate, remove, limit);
      var row := CandidateRow(rows, c, evaluate, reference, remove, limit);
      var found := row.1;
      && AllTaggedByPasses(found, g, evaluate)
      && (!remove ==>
            && (forall k :: 0 <= k < |found| ==> found[k].mean == st.mean && found[k].sigmaBetween == st.sigmaBetween)
            && (|g| >= 2 && st.sigmaBetween > 0.0 ==>
                  forall p :: multiset(ReportPolls(found))[p] ==
                    if IsOutlier(p, st.mean, st.sigmaBetween, limit) then multiset(g)[p] else 0))
      && (remove && !lr.reverted ==> multiset(ReportPolls(found)) + multiset(lr.group) == multiset(g))
      && (remove && lr.reverted ==> multiset(ReportPolls(found)) == multiset(g))
  {
    var g := GroupOf(rows, c);
    LoopReportTags(g, g, evaluate, remove, limit);
    if remove {
      LoopReportPartition(g, g, evaluate, limit);
    } else {
      LoopReportNoRemoval(g, g, evaluate, limit);
    }
  }

  /** The names of the aggregate rows, in order. */
  function Names(aggregates: seq<Aggregate>): (r: seq<string>)
    ensures |r| == |aggregates| && forall j :: 0 <= j < |aggregates| ==> r[j] == aggregates[j].candidate
  {
    seq(|aggregates|, j requires 0 <= j < |aggregates| => aggregates[j].candidate)
  }

  /** The first `n` candidates give `n` aggregate rows, one each and in order. */
  lemma {:induction false} SummarizeRows(cands: seq<string>, n: nat, rowOf: string -> (Aggregate, seq<Outlier>))
    requires n <= |cands|
    ensures var s := Summarize(cands, n, rowOf);
      |s.aggregates| == n && forall j :: 0 <= j < n ==> s.aggregates[j] == rowOf(cands[j]).0
  {
    if n > 0 {
      SummarizeRows(cands, n - 1, rowOf);
    }
  }

  /** The report of the first `n` candidates is theirs one after the other, so it is
      empty exactly when each of theirs is. */
  lemma {:induction false} SummarizeQuiet(cands: seq<string>, n: nat, rowOf: string -> (Aggregate, seq<Outlier>))
    requires n <= |cands|
    ensures Summarize(cands, n, rowOf).outliers == [] <==> forall j :: 0 <= j < n ==> rowOf(cands[j]).1 == []
  {
    if n > 0 {
      SummarizeQuiet(cands, n - 1, rowOf);
    }
  }

  /** The report over a list of names is empty exactly when the report of every
      name of `names` is, when the list holds exactly those names. */
  lemma AllQuiet(cands: seq<string>, names: seq<string>, rowOf: string -> (Aggregate, seq<Outlier>))
    requires forall c :: c in cands <==> c in names
    ensures Summarize(cands, |cands|, rowOf).outliers == [] <==> forall c :: c in names ==> rowOf(c).1 == []
  {
    SummarizeQuiet(cands, |cands|, rowOf);
    if forall j :: 0 <= j < |cands| ==> rowOf(cands[j]).1 == [] {
      forall c | c in names
        ensures rowOf(c).1 == []
      {
        var j :| 0 <= j < |cands| && cands[j] == c;
      }
    }
  }

  /** The entries of `os` whose poll is candidate `c`'s, in their order in `os`. */
  function EntriesOf(os: seq<Outlier>, c: string): (r: seq<Outlier>)
    ensures |r| <= |os|
    ensures forall k :: 0 <= k < |r| ==> r[k] in os && r[k].poll.candidate == c
  {
    if os == [] then []
    else
      var rest := EntriesOf(os[1..], c);
      assert forall k :: 0 <= k < |rest| ==> rest[k] in os;
      if os[0].poll.candidate == c then [os[0]] + rest else rest
  }

  lemma {:induction false} EntriesOfConcat(a: seq<Outlier>, b: seq<Outlier>, c: string)
    ensures EntriesOf(a + b, c) == EntriesOf(a, c) + EntriesOf(b, c)
  {
    if a == [] {
      assert a + b == b;
    } else {
      var ab := a + b;
      assert ab[0] == a[0] && ab[1..] == a[1..] + b;
      EntriesOfConcat(a[1..], b, c);
      if a[0].poll.candidate == c {
        assert EntriesOf(ab, c) == [a[0]] + EntriesOf(ab[1..], c);
        assert EntriesOf(a, c) == [a[0]] + EntriesOf(a[1..], c);
      } else {
        assert EntriesOf(ab, c) == EntriesOf(ab[1..], c);
        assert EntriesOf(a, c) == EntriesOf(a[1..], c);
      }
    }
  }

  /** Entries that all belong to candidate `d` are all kept for `d` and none for
      any other name. */
  lemma {:induction false} EntriesOfOne(os: seq<Outlier>, d: string, c: string)
    requires forall k :: 0 <= k < |os| ==> os[k].poll.candidate == d
    ensures EntriesOf(os, c) == if c == d then os else []
  {
    if os != [] {
      EntriesOfOne(os[1..], d, c);
      assert os == [os[0]] + os[1..];
    }
  }

  /** Over distinct names whose reports each hold only that name's rows, the
      entries of the summary for `c` are `c`'s own report when `c` is among the
      first `n` names, and nothing otherwise. */
  lemma {:induction false} SummarizeEntries(cands: seq<string>, n: nat, rowOf: string -> (Aggregate, seq<Outlier>), c: string)
    requires n <= |cands|
    requires forall i, j :: 0 <= i < j < |cands| ==> cands[i] != cands[j]
    requires forall j, k :: 0 <= j < |cands| && 0 <= k < |rowOf(cands[j]).1| ==> rowOf(cands[j]).1[k].poll.candidate == cands[j]
    ensures EntriesOf(Summarize(cands, n, rowOf).outliers, c) == if c in cands[..n] then rowOf(c).1 else []
  {
    if n > 0 {
      var prev := Summarize(cands, n - 1, rowOf);
      var found := rowOf(cands[n - 1]).1;
      assert Summarize(cands, n, rowOf).outliers == prev.outliers + found;
      SummarizeEntries(cands, n - 1, rowOf, c);
      EntriesOfConcat(prev.outliers, found, c);
      EntriesOfOne(found, cands[n - 1], c);
      assert cands[..n] == cands[..n - 1] + [cands[n - 1]];
      if c == cands[n - 1] {
        assert c !in cands[..n - 1];
      }
    }
  }

  /** The names of `Candidates` are pairwise distinct. */
  lemma CandidatesDistinct(rows: seq<Poll>)
    ensures var cands := Candidates(rows);
      forall i, j :: 0 <= i < j < |cands| ==> cands[i] != cands[j]
  {
    var cands := Candidates(rows);
    forall i, j | 0 <= i < j < |cands|
      ensures cands[i] != cands[j]
    {
      LessIrreflexive(cands[i]);
    }
  }

  /** Each candidate's report holds only that candidate's rows. */
  lemma OwnEntries(rows: seq<Poll>, evaluate: seq<Poll> -> PassStats, reference: int, remove: bool, limit: real)
    ensures var cands := Candidates(rows);
      var rowOf := RowOf(rows, evaluate, reference, remove, limit);
      forall j, k :: 0 <= j < |cands| && 0 <= k < |rowOf(cands[j]).1| ==> rowOf(cands[j]).1[k].poll.candidate == cands[j]
  {
    var cands := Candidates(rows);
    var rowOf := RowOf(rows, evaluate, reference, remove, limit);
    forall j, k | 0 <= j < |cands| && 0 <= k < |rowOf(cands[j]).1|
      ensures rowOf(cands[j]).1[k].poll.candidate == cands[j]
    {
      CandidateRowReport(rows, cands[j], evaluate, reference, remove, limit);
    }
  }

  /** The report of the summary over all candidates of `rows`, read candidate by
      candidate: the entries of `c` are `c`'s own report, or nothing. */
  lemma SummaryEntries(rows: seq<Poll>, evaluate: seq<Poll> -> PassStats, reference: int, remove: bool, limit: real, c: string)
    ensures var cands := Candidates(rows);
      var rep := Summarize(cands, |cands|, RowOf(rows, evaluate, reference, remove, limit));
      EntriesOf(rep.outliers, c) ==
        if c in CandidateNames(rows) then CandidateRow(rows, c, evaluate, reference, remove, limit).1 else []
  {
    var cands := Candidates(rows);
    var rowOf := RowOf(rows, evaluate, reference, remove, limit);
    CandidatesDistinct(rows);
    OwnEntries(rows, evaluate, reference, remove, limit);
    SummarizeEntries(cands, |cands|, rowOf, c);
    assert cands[..|cands|] == cands;
  }

  /** The outlier report of a successful aggregation, read candidate by candidate:
      the entries whose poll is candidate `c`'s are exactly `c`'s `CandidateRow`
      report, in the same order, and a name with no rows has none. */
  lemma ReportByCandidate(table: Table, remove: bool, limit: real, math: Math, c: string)
    requires math.Valid()
    requires AggregateTable(table, remove, limit, math).Ok?
    ensures table.rows != []
    ensures var rep := AggregateTable(table, remove, limit, math).value;
      var rows := table.rows;
      EntriesOf(rep.outliers, c) ==
        if c in CandidateNames(rows) then CandidateRow(rows, c, PassOf(MaxDate(rows), math), MaxDate(rows), remove, limit).1 else []
  {
    var reference := MaxDate(table.rows);
    SummaryEntries(table.rows, PassOf(reference, math), reference, remove, limit, c);
  }

  /** `agregar_pesquisas_dataframe` fails exactly when a required column is missing
      or the table has no rows; the schema error comes first and names the missing
      columns in ascending order. */
  lemma AggregateErrors(table: Table, remove: bool, limit: real, math: Math)
    requires math.Valid()
    ensures AggregateTable(table, remove, limit, math).Err? <==>
            !(RequiredColumns <= set c | c in table.columns) || table.rows == []
    ensures !(RequiredColumns <= set c | c in table.columns) ==>
            AggregateTable(table, remove, limit, math) == Err(SchemaError(MissingColumns(table.columns)))
    ensures RequiredColumns <= (set c | c in table.columns) && table.rows == [] ==>
            AggregateTable(table, remove, limit, math) == Err(NoRows)
  {
  }

  /** The summary over all candidates of `rows` has one row per distinct candidate,
      in ascending order of name, each that candidate's `CandidateRow`. */
  lemma SummaryRows(rows: seq<Poll>, evaluate: seq<Poll> -> PassStats, reference: int, remove: bool, limit: real)
    ensures var cands := Candidates(rows);
      var rep := Summarize(cands, |cands|, RowOf(rows, evaluate, reference, remove, limit));
      && Names(rep.aggregates) == cands
      && (forall j :: 0 <= j < |rep.aggregates| ==>
            && rep.aggregates[j] == CandidateRow(rows, cands[j], evaluate, reference, remove, limit).0
            && rep.aggregates[j].referenceDate == reference)
  {
    var cands := Candidates(rows);
    var rowOf := RowOf(rows, evaluate, reference, remove, limit);
    var rep := Summarize(cands, |cands|, rowOf);
    SummarizeRows(cands, |cands|, rowOf);
    assert Names(rep.aggregates) == cands;
    forall j | 0 <= j < |rep.aggregates|
      ensures rep.aggregates[j].referenceDate == reference
    {
      CandidateRowGroup(rows, cands[j], evaluate, reference, remove, limit);
    }
  }

  /** The report of the summary over all candidates of `rows` is empty exactly
      when no candidate's report has anything in it. */
  lemma SummaryReport(rows: seq<Poll>, evaluate: seq<Poll> -> PassStats, reference: int, remove: bool, limit: real)
    ensures var cands := Candidates(rows);
      var rep := Summarize(cands, |cands|, RowOf(rows, evaluate, reference, remove, limit));
      rep.outliers == [] <==>
        forall c :: c in CandidateNames(rows) ==> CandidateRow(rows, c, evaluate, reference, remove, limit).1 == []
  {
    var cands := Candidates(rows);
    var rowOf := RowOf(rows, evaluate, reference, remove, limit);
    AllQuiet(cands, CandidateNames(rows), rowOf);
  }

  /** A successful aggregation has one row per distinct candidate, in ascending order
      of name, each being that candidate's `CandidateRow` dated with the latest poll
      date of the whole table. */
  lemma OneRowPerCandidate(table: Table, remove: bool, limit: real, math: Math)
    requires math.Valid()
    requires AggregateTable(table, remove, limit, math).Ok?
    ensures table.rows != []
    ensures var rep := AggregateTable(table, remove, limit, math).value;
      var rows := table.rows;
      var evaluate := PassOf(MaxDate(rows), math);
      && StrictlySorted(Names(rep.aggregates))
      && (forall c :: c in Names(rep.aggregates) <==> c in CandidateNames(rows))
      && (forall j :: 0 <= j < |rep.aggregates| ==>
            && rep.aggregates[j] == CandidateRow(rows, Names(rep.aggregates)[j], evaluate, MaxDate(rows), remove, limit).0
            && rep.aggregates[j].referenceDate == MaxDate(rows))
  {
    var reference := MaxDate(table.rows);
    SummaryRows(table.rows, PassOf(reference, math), reference, remove, limit);
  }

  /** The outlier report of a successful aggregation is empty exactly when no
      candidate's loop flags anything on its first pass. */
  lemma ReportEmptyIff(table: Table, remove: bool, limit: real, math: Math)
    requires math.Valid()
    requires AggregateTable(table, remove, limit, math).Ok?
    ensures table.rows != []
    ensures var rep := AggregateTable(table, remove, limit, math).value;
      var rows := table.rows;
      var evaluate := PassOf(MaxDate(rows), math);
      rep.outliers == [] <==>
        forall c :: c in CandidateNames(rows) ==>
          var st := evaluate(GroupOf(rows, c));
          OutlierRows(GroupOf(rows, c), st.mean, st.sigmaBetween, limit) == []
  {
    var rows := table.rows;
    var reference := MaxDate(rows);
    var evaluate := PassOf(reference, math);
    SummaryReport(rows, evaluate, reference, remove, limit);
    forall c | c in CandidateNames(rows)
      ensures var st := evaluate(GroupOf(rows, c));
        CandidateRow(rows, c, evaluate, reference, remove, limit).1 == [] <==>
        OutlierRows(GroupOf(rows, c), st.mean, st.sigmaBetween, limit) == []
    {
      CandidateRowReport(rows, c, evaluate, reference, remove, limit);
    }
  }

  /** With the default arguments no row is dropped: every aggregate row counts
      all of its candidate's polls and sums all of their samples. */
  lemma DefaultsKeepEveryPoll(table: Table, math: Math)
    requires math.Valid()
    requires AggregateTableDefaults(table, math).Ok?
    ensures var rep := AggregateTableDefaults(table, math).value;
      forall j :: 0 <= j < |rep.aggregates| ==>
        var g := GroupOf(table.rows, rep.aggregates[j].candidate);
        rep.aggregates[j].count == |g| && rep.aggregates[j].sampleTotal == SampleSum(g)
  {
    var rows := table.rows;
    var rep := AggregateTableDefaults(table, math).value;
    OneRowPerCandidate(table, false, 2.0, math);
    var reference := MaxDate(rows);
    var evaluate := PassOf(reference, math);
    forall j | 0 <= j < |rep.aggregates|
      ensures var g := GroupOf(rows, rep.aggregates[j].candidate);
        rep.aggregates[j].count == |g| && rep.aggregates[j].sampleTotal == SampleSum(g)
    {
      var c := Names(rep.aggregates)[j];
      assert c in Names(rep.aggregates);
      CandidateRowGroup(rows, c, evaluate, reference, false, 2.0);
    }
  }
}
