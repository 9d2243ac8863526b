/** Outlier selection within one candidate's group (`_linhas_outlier`) and the
    removal of the selected rows (`grupo.drop(index=outliers.index)`). */
module Outliers {
  import opened Polls
  import opened Weighted

  /** `|pct - mean| / sigma`. */
  function ZScore(pct: real, mean: real, sigma: real): real
    requires sigma > 0.0
  {
    Abs(pct - mean) / sigma
  }

  predicate IsOutlier(p: Poll, mean: real, sigma: real, limit: real)
    requires sigma > 0.0
  {
    ZScore(p.pct, mean, sigma) > limit
  }

  /** A selected row with the z-score it was selected by. */
  datatype Flagged = Flagged(poll: Poll, z: real)

  function PollsOf(fs: seq<Flagged>): (r: seq<Poll>)
    ensures |r| == |fs| && forall k :: 0 <= k < |fs| ==> r[k] == fs[k].poll
  {
    if fs == [] then [] else [fs[0].poll] + PollsOf(fs[1..])
  }

  /** The rows of `group` whose z-score exceeds `limit`, in their original order,
      each with its z-score (lines 52-54). */
  function Flag(group: seq<Poll>, mean: real, sigma: real, limit: real): (r: seq<Flagged>)
    requires sigma > 0.0
    ensures |r| <= |group|
    ensures forall k :: 0 <= k < |r| ==>
              r[k].poll in group && r[k].z == ZScore(r[k].poll.pct, mean, sigma) && r[k].z > limit
    ensures forall p :: multiset(PollsOf(r))[p] == if IsOutlier(p, mean, sigma, limit) then multiset(group)[p] else 0
  {
    if group == [] then []
    else
      var rest := Flag(group[1..], mean, sigma, limit);
      assert group == [group[0]] + group[1..];
      var z := ZScore(group[0].pct, mean, sigma);
      if z > limit then [Flagged(group[0], z)] + rest else rest
  }

  /** The rows of `group` that are not outliers, in their original order: what is
      left once the flagged rows are dropped. */
  function Kept(group: seq<Poll>, mean: real, sigma: real, limit: real): (r: seq<Poll>)
    requires sigma > 0.0
    ensures |r| + |Flag(group, mean, sigma, limit)| == |group|
    ensures forall p :: multiset(r)[p] == if IsOutlier(p, mean, sigma, limit) then 0 else multiset(group)[p]
  {
    if group == [] then []
    else
      var rest := Kept(group[1..], mean, sigma, limit);
      assert group == [group[0]] + group[1..];
      if IsOutlier(group[0], mean, sigma, limit) then rest else [group[0]] + rest
  }

  /** A single row is flagged, with its z-score, exactly when it is above the
      limit, and it is kept exactly when it is not. */
  lemma FlagSingle(p: Poll, mean: real, sigma: real, limit: real)
    requires sigma > 0.0
    ensures Flag([p], mean, sigma, limit) ==
              if IsOutlier(p, mean, sigma, limit) then [Flagged(p, ZScore(p.pct, mean, sigma))] else []
    ensures Kept([p], mean, sigma, limit) == if IsOutlier(p, mean, sigma, limit) then [] else [p]
  {
    assert [p][1..] == [];
  }

  /** `grupo.loc[mask]` keeps the order of the group: flagging a group split in
      two flags each part in turn. With `FlagSingle`, the flagged rows are the
      rows above the limit in the order the group lists them. */
  lemma {:induction false} FlagConcat(a: seq<Poll>, b: seq<Poll>, mean: real, sigma: real, limit: real)
    requires sigma > 0.0
    ensures Flag(a + b, mean, sigma, limit) == Flag(a, mean, sigma, limit) + Flag(b, mean, sigma, limit)
  {
    if a == [] {
      assert a + b == b;
    } else {
      var ab := a + b;
      assert ab[0] == a[0] && ab[1..] == a[1..] + b;
      FlagConcat(a[1..], b, mean, sigma, limit);
      var rest := Flag(a[1..], mean, sigma, limit);
      var z := ZScore(a[0].pct, mean, sigma);
      if z > limit {
        assert Flag(ab, mean, sigma, limit) == [Flagged(a[0], z)] + Flag(ab[1..], mean, sigma, limit);
        assert Flag(a, mean, sigma, limit) == [Flagged(a[0], z)] + rest;
      } else {
        assert Flag(ab, mean, sigma, limit) == Flag(ab[1..], mean, sigma, limit);
        assert Flag(a, mean, sigma, limit) == rest;
      }
    }
  }

  /** Dropping the flagged rows keeps the order of the others in the same way. */
  lemma {:induction false} KeptConcat(a: seq<Poll>, b: seq<Poll>, mean: real, sigma: real, limit: real)
    requires sigma > 0.0
    ensures Kept(a + b, mean, sigma, limit) == Kept(a, mean, sigma, limit) + Kept(b, mean, sigma, limit)
  {
    if a == [] {
      assert a + b == b;
    } else {
      var ab := a + b;
      assert ab[0] == a[0] && ab[1..] == a[1..] + b;
      KeptConcat(a[1..], b, mean, sigma, limit);
      var rest := Kept(a[1..], mean, sigma, limit);
      if IsOutlier(a[0], mean, sigma, limit) {
        assert Kept(ab, mean, sigma, limit) == Kept(ab[1..], mean, sigma, limit);
        assert Kept(a, mean, sigma, limit) == rest;
      } else {
        assert Kept(ab, mean, sigma, limit) == [a[0]] + Kept(ab[1..], mean, sigma, limit);
        assert Kept(a, mean, sigma, limit) == [a[0]] + rest;
      }
    }
  }

  /** `_linhas_outlier`: nothing for a group of fewer than two rows or a
      non-positive sigma, otherwise the rows whose z-score exceeds `limit`. */
  function OutlierRows(group: seq<Poll>, mean: real, sigma: real, limit: real): (r: seq<Flagged>)
    ensures |group| < 2 || sigma <= 0.0 ==> r == []
  {
    if |group| < 2 || sigma <= 0.0 then [] else Flag(group, mean, sigma, limit)
  }

  /** When the check applies, a row of the group is reported exactly when its
      z-score exceeds the limit, and every report carries that row's z-score. */
  lemma OutlierRowsExact(group: seq<Poll>, mean: real, sigma: real, limit: real)
    requires |group| >= 2 && sigma > 0.0
    ensures var r := OutlierRows(group, mean, sigma, limit);
      && (forall k :: 0 <= k < |r| ==> r[k].poll in group && r[k].z == ZScore(r[k].poll.pct, mean, sigma) && r[k].z > limit)
      && (forall p :: p in group ==> (p in PollsOf(r) <==> IsOutlier(p, mean, sigma, limit)))
  {
    var r := OutlierRows(group, mean, sigma, limit);
    forall p | p in group
      ensures p in PollsOf(r) <==> IsOutlier(p, mean, sigma, limit)
    {
      assert multiset(group)[p] > 0;
      assert p in PollsOf(r) <==> multiset(PollsOf(r))[p] > 0;
    }
  }

  /** Dropping the flagged rows splits the group: the flagged and the kept rows
      together are the group, and no non-outlier is lost. */
  lemma DropPartitions(group: seq<Poll>, mean: real, sigma: real, limit: real)
    requires sigma > 0.0
    ensures multiset(Kept(group, mean, sigma, limit)) + multiset(PollsOf(Flag(group, mean, sigma, limit))) == multiset(group)
    ensures forall p :: p in Kept(group, mean, sigma, limit) <==> p in group && !IsOutlier(p, mean, sigma, limit)
  {
    var kept, flagged := Kept(group, mean, sigma, limit), PollsOf(Flag(group, mean, sigma, limit));
    assert forall p :: (multiset(kept) + multiset(flagged))[p] == multiset(group)[p];
    forall p
      ensures p in kept <==> p in group && !IsOutlier(p, mean, sigma, limit)
    {
      assert p in kept <==> multiset(kept)[p] > 0;
      assert p in group <==> multiset(group)[p] > 0;
    }
  }
}
