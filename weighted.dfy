/** The numeric building blocks of one aggregation pass, over exact reals:
    recency weights (`calcular_pesos_temporais`), weighted averages (`np.average`
    with weights), the between-institute spread (`desvio_entre_institutos`) and
    the quadrature sum of two sigmas. */
module Weighted {

  /** The two transcendental primitives the source takes from numpy, as values the
      caller supplies: `decay(d)` stands for `exp(-d / 7.0)` and `sqrt` for the
      square root. `Valid` lists the only facts about them the model relies on. */
  datatype Math = Math(decay: nat -> real, sqrt: real -> real) {
    ghost predicate Valid() {
      && decay(0) == 1.0
      && (forall d: nat :: 0.0 < decay(d))
      && (forall d: nat, e: nat :: d < e ==> decay(e) < decay(d))
      && (forall x: real :: 0.0 <= x ==> 0.0 <= sqrt(x) && Square(sqrt(x)) == x)
    }
  }

  /** Days between a poll and the reference date, clipped below at zero. */
  function DaysAgo(reference: int, date: int): (d: nat)
    ensures date >= reference ==> d == 0
    ensures date <= reference ==> date + d == reference
  {
    if reference - date < 0 then 0 else reference - date
  }

  /** `calcular_pesos_temporais`: one weight per date, each in (0, 1]. */
  function RecencyWeights(dates: seq<int>, reference: int, math: Math): (w: seq<real>)
    requires math.Valid()
    ensures |w| == |dates|
    ensures forall i :: 0 <= i < |w| ==> 0.0 < w[i] <= 1.0
  {
    var w := seq(|dates|, i requires 0 <= i < |dates| => math.decay(DaysAgo(reference, dates[i])));
    forall i | 0 <= i < |w|
      ensures 0.0 < w[i] <= 1.0
    {
      var d := DaysAgo(reference, dates[i]);
      assert w[i] == math.decay(d);
      if d > 0 {
        assert math.decay(d) < math.decay(0);
      }
    }
    w
  }

  /** A poll on or after the reference date has full weight, and of two polls up to
      the reference date the older one weighs strictly less. */
  lemma RecencyOrder(dates: seq<int>, reference: int, math: Math)
    requires math.Valid()
    ensures var w := RecencyWeights(dates, reference, math);
      && (forall i :: 0 <= i < |w| && dates[i] >= reference ==> w[i] == 1.0)
      && (forall i, j :: 0 <= i < |w| && 0 <= j < |w| && dates[i] < dates[j] <= reference ==> w[i] < w[j])
  {
    var w := RecencyWeights(dates, reference, math);
    forall i | 0 <= i < |w| && dates[i] >= reference
      ensures w[i] == 1.0
    {
      assert DaysAgo(reference, dates[i]) == 0;
    }
    forall i, j | 0 <= i < |w| && 0 <= j < |w| && dates[i] < dates[j] <= reference
      ensures w[i] < w[j]
    {
      var di, dj := DaysAgo(reference, dates[i]), DaysAgo(reference, dates[j]);
      assert dj < di;
      assert math.decay(di) < math.decay(dj);
    }
  }

  predicate AllPositive(ws: seq<real>) {
    forall i :: 0 <= i < |ws| ==> 0.0 < ws[i]
  }

  function Sum(xs: seq<real>): real {
    if xs == [] then 0.0 else xs[0] + Sum(xs[1..])
  }

  /** The sum of `xs[i] * ws[i]`. */
  function Dot(xs: seq<real>, ws: seq<real>): real
    requires |xs| == |ws|
  {
    if xs == [] then 0.0 else Product(xs[0], ws[0]) + Dot(xs[1..], ws[1..])
  }

  lemma {:induction false} SumPositive(ws: seq<real>)
    requires |ws| > 0 && AllPositive(ws)
    ensures Sum(ws) > 0.0
  {
    if |ws| > 1 {
      SumPositive(ws[1..]);
    }
  }

  /** `np.average(xs, weights=ws)`. */
  function WeightedMean(xs: seq<real>, ws: seq<real>): real
    requires |xs| == |ws| > 0 && AllPositive(ws)
  {
    SumPositive(ws);
    Dot(xs, ws) / Sum(ws)
  }

  function Min(xs: seq<real>): (m: real)
    requires |xs| > 0
    ensures forall i :: 0 <= i < |xs| ==> m <= xs[i]
    ensures exists i :: 0 <= i < |xs| && xs[i] == m
  {
    if |xs| == 1 then xs[0]
    else
      var rest := Min(xs[1..]);
      assert forall i :: 1 <= i < |xs| ==> rest <= xs[i] by {
        forall i | 1 <= i < |xs| ensures rest <= xs[i] { assert xs[i] == xs[1..][i - 1]; }
      }
      if xs[0] <= rest then xs[0] else rest
  }

  function Max(xs: seq<real>): (m: real)
    requires |xs| > 0
    ensures forall i :: 0 <= i < |xs| ==> xs[i] <= m
    ensures exists i :: 0 <= i < |xs| && xs[i] == m
  {
    if |xs| == 1 then xs[0]
    else
      var rest := Max(xs[1..]);
      assert forall i :: 1 <= i < |xs| ==> xs[i] <= rest by {
        forall i | 1 <= i < |xs| ensures xs[i] <= rest { assert xs[i] == xs[1..][i - 1]; }
      }
      if xs[0] >= rest then xs[0] else rest
  }

  lemma {:induction false} DotBounds(xs: seq<real>, ws: seq<real>, lo: real, hi: real)
    requires |xs| == |ws| && AllPositive(ws)
    requires forall i :: 0 <= i < |xs| ==> lo <= xs[i] <= hi
    ensures Product(lo, Sum(ws)) <= Dot(xs, ws) <= Product(hi, Sum(ws))
  {
    if xs == [] {
      assert Product(lo, 0.0) == 0.0 && Product(hi, 0.0) == 0.0;
    } else {
      DotBounds(xs[1..], ws[1..], lo, hi);
      ProductMonotone(lo, xs[0], ws[0]);
      ProductMonotone(xs[0], hi, ws[0]);
      ProductDistributes(lo, ws[0], Sum(ws[1..]));
      ProductDistributes(hi, ws[0], Sum(ws[1..]));
    }
  }

  /** A weighted mean with positive weights lies between the smallest and the largest value. */
  lemma MeanWithinRange(xs: seq<real>, ws: seq<real>)
    requires |xs| == |ws| > 0 && AllPositive(ws)
    ensures Min(xs) <= WeightedMean(xs, ws) <= Max(xs)
  {
    var lo, hi := Min(xs), Max(xs);
    SumPositive(ws);
    DotBounds(xs, ws, lo, hi);
    QuotientBounds(Dot(xs, ws), Sum(ws), lo, hi);
  }

  /** Equal values average to that value, whatever the weights. */
  lemma MeanOfConstant(xs: seq<real>, ws: seq<real>)
    requires |xs| == |ws| > 0 && AllPositive(ws)
    requires forall i :: 0 <= i < |xs| ==> xs[i] == xs[0]
    ensures WeightedMean(xs, ws) == xs[0]
  {
    MeanWithinRange(xs, ws);
    var lo, hi := Min(xs), Max(xs);
    assert lo == xs[0] && hi == xs[0];
  }

  /** The squared deviations `(xs[i] - m) ** 2`. */
  function Squares(xs: seq<real>, m: real): (r: seq<real>)
    ensures |r| == |xs|
    ensures forall i :: 0 <= i < |xs| ==> r[i] >= 0.0 && (r[i] == 0.0 <==> xs[i] == m)
  {
    var r := seq(|xs|, i requires 0 <= i < |xs| => Square(xs[i] - m));
    forall i | 0 <= i < |xs|
      ensures r[i] >= 0.0 && (r[i] == 0.0 <==> xs[i] == m)
    {
      SquareNonNegative(xs[i] - m);
    }
    r
  }

  /** The weighted variance of `xs` around its own weighted mean. */
  function WeightedVariance(xs: seq<real>, ws: seq<real>): real
    requires |xs| == |ws| > 0 && AllPositive(ws)
  {
    WeightedMean(Squares(xs, WeightedMean(xs, ws)), ws)
  }

  /** With positive weights, a weighted sum of non-negative terms is non-negative,
      and it is zero exactly when every term is. */
  lemma {:induction false} DotNonNegative(ys: seq<real>, ws: seq<real>)
    requires |ys| == |ws| && AllPositive(ws)
    requires forall i :: 0 <= i < |ys| ==> ys[i] >= 0.0
    ensures Dot(ys, ws) >= 0.0
    ensures Dot(ys, ws) == 0.0 <==> forall i :: 0 <= i < |ys| ==> ys[i] == 0.0
  {
    if ys != [] {
      DotNonNegative(ys[1..], ws[1..]);
      ProductNonNegative(ys[0], ws[0]);
      if ys[0] > 0.0 {
        ProductPositive(ys[0], ws[0]);
      }
      if forall i :: 1 <= i < |ys| ==> ys[i] == 0.0 {
        assert forall i :: 0 <= i < |ys[1..]| ==> ys[1..][i] == 0.0;
      }
      if forall i :: 0 <= i < |ys[1..]| ==> ys[1..][i] == 0.0 {
        assert forall i :: 1 <= i < |ys| ==> ys[i] == ys[1..][i - 1];
      }
    }
  }

  /** The weighted variance is never negative, and it is zero exactly when all values agree. */
  lemma VarianceProperties(xs: seq<real>, ws: seq<real>)
    requires |xs| == |ws| > 0 && AllPositive(ws)
    ensures WeightedVariance(xs, ws) >= 0.0
    ensures WeightedVariance(xs, ws) == 0.0 <==> forall i, j :: 0 <= i < |xs| && 0 <= j < |xs| ==> xs[i] == xs[j]
  {
    var m := WeightedMean(xs, ws);
    var sq := Squares(xs, m);
    DotNonNegative(sq, ws);
    SumPositive(ws);
    var s, d := Sum(ws), Dot(sq, ws);
    QuotientBounds(d, s, 0.0, 0.0);
    QuotientSign(d, s);
    if forall i, j :: 0 <= i < |xs| && 0 <= j < |xs| ==> xs[i] == xs[j] {
      MeanOfConstant(xs, ws);
      assert forall i :: 0 <= i < |xs| ==> sq[i] == 0.0;
    }
    if d == 0.0 {
      assert forall i :: 0 <= i < |xs| ==> xs[i] == m;
    }
  }

  /** With positive weights, values all strictly above `c` have a weighted sum
      strictly above `c` times the total weight. */
  lemma {:induction false} DotAbove(ys: seq<real>, ws: seq<real>, c: real)
    requires |ys| == |ws| > 0 && AllPositive(ws)
    requires forall i :: 0 <= i < |ys| ==> ys[i] > c
    ensures Dot(ys, ws) > Product(c, Sum(ws))
  {
    ProductPositive(ys[0] - c, ws[0]);
    assert Product(ys[0] - c, ws[0]) == Product(ys[0], ws[0]) - Product(c, ws[0]);
    ProductDistributes(c, ws[0], Sum(ws[1..]));
    if |ys| > 1 {
      DotAbove(ys[1..], ws[1..], c);
    } else {
      assert Product(c, Sum(ws[1..])) == 0.0;
    }
  }

  /** `desvio_entre_institutos`: the square root of the weighted variance, floored at zero. */
  function BetweenInstituteSigma(xs: seq<real>, ws: seq<real>, math: Math): (s: real)
    requires |xs| == |ws| > 0 && AllPositive(ws) && math.Valid()
    ensures s >= 0.0 && Square(s) == WeightedVariance(xs, ws)
  {
    var variance := WeightedVariance(xs, ws);
    VarianceProperties(xs, ws);
    math.sqrt(if variance < 0.0 then 0.0 else variance)
  }

  /** The between-institute sigma is zero exactly when every value is the same. */
  lemma BetweenSigmaZeroIff(xs: seq<real>, ws: seq<real>, math: Math)
    requires |xs| == |ws| > 0 && AllPositive(ws) && math.Valid()
    ensures BetweenInstituteSigma(xs, ws, math) == 0.0 <==>
            forall i, j :: 0 <= i < |xs| && 0 <= j < |xs| ==> xs[i] == xs[j]
  {
    VarianceProperties(xs, ws);
    SquareNonNegative(BetweenInstituteSigma(xs, ws, math));
  }

  /** Not every value lies further than the between-institute sigma from the
      weighted mean: the weighted mean of the squared deviations is the square of
      that sigma. */
  lemma NotAllBeyondSigma(xs: seq<real>, ws: seq<real>, math: Math)
    requires |xs| == |ws| > 0 && AllPositive(ws) && math.Valid()
    ensures exists i :: 0 <= i < |xs| && Abs(xs[i] - WeightedMean(xs, ws)) <= BetweenInstituteSigma(xs, ws, math)
  {
    var m := WeightedMean(xs, ws);
    var s := BetweenInstituteSigma(xs, ws, math);
    if forall i :: 0 <= i < |xs| ==> Abs(xs[i] - m) > s {
      var sq := Squares(xs, m);
      forall i | 0 <= i < |xs|
        ensures sq[i] > Square(s)
      {
        SquareStrictMonotone(s, Abs(xs[i] - m));
        SquareOfAbs(xs[i] - m);
      }
      DotAbove(sq, ws, Square(s));
      SumPositive(ws);
      assert false;
    }
  }

  /** `sqrt(a**2 + b**2)`, the aggregated sigma. */
  function Quadrature(a: real, b: real, math: Math): (s: real)
    requires math.Valid()
    ensures s >= 0.0 && Square(s) == Square(a) + Square(b)
  {
    SquareNonNegative(a);
    SquareNonNegative(b);
    math.sqrt(Square(a) + Square(b))
  }

  function Abs(x: real): real {
    if x < 0.0 then -x else x
  }

  /** The quadrature sum is at least as large as either part, and equals a
      non-negative first part exactly when the second part is zero. */
  lemma QuadratureProperties(a: real, b: real, math: Math)
    requires math.Valid()
    ensures Quadrature(a, b, math) >= Abs(a)
    ensures Quadrature(a, b, math) >= Abs(b)
    ensures a >= 0.0 ==> (Quadrature(a, b, math) == a <==> b == 0.0)
  {
    var s := Quadrature(a, b, math);
    SquareNonNegative(a);
    SquareNonNegative(b);
    SquareOfAbs(a);
    SquareOfAbs(b);
    SquareMonotone(Abs(a), s);
    SquareMonotone(Abs(b), s);
    if a >= 0.0 && b == 0.0 {
      SquareMonotone(s, a);
    }
  }

  /** `x ** 2`. Products of a term with itself are kept behind this function, and
      the facts about them are the lemmas below. */
  function Square(x: real): real {
    Product(x, x)
  }

  function Product(a: real, b: real): real {
    a * b
  }

  lemma ProductPositive(a: real, b: real)
    requires a > 0.0 && b > 0.0
    ensures Product(a, b) > 0.0
  {
  }

  lemma ProductMonotone(a: real, b: real, w: real)
    requires a <= b && w > 0.0
    ensures Product(a, w) <= Product(b, w)
  {
    if a < b {
      ProductPositive(b - a, w);
      assert Product(b - a, w) == Product(b, w) - Product(a, w);
    }
  }

  lemma ProductDistributes(c: real, a: real, b: real)
    ensures Product(c, a + b) == Product(c, a) + Product(c, b)
  {
  }

  /** Bounds on `d` scaled by a positive `s` carry over to the quotient `d / s`. */
  lemma QuotientBounds(d: real, s: real, lo: real, hi: real)
    requires s > 0.0
    ensures Product(lo, s) <= d ==> lo <= d / s
    ensures d <= Product(hi, s) ==> d / s <= hi
  {
    var q := d / s;
    assert Product(q, s) == d;
    if Product(lo, s) <= d && q < lo {
      ProductPositive(lo - q, s);
    }
    if d <= Product(hi, s) && q > hi {
      ProductPositive(q - hi, s);
    }
  }

  /** A strict lower bound on `d` scaled by a positive `s` carries over to `d / s`. */
  lemma QuotientAbove(d: real, s: real, lo: real)
    requires s > 0.0 && Product(lo, s) < d
    ensures lo < d / s
  {
    var q := d / s;
    assert Product(q, s) == d;
    if q <= lo {
      ProductMonotone(q, lo, s);
    }
  }

  lemma QuotientSign(d: real, s: real)
    requires s > 0.0
    ensures d / s == 0.0 <==> d == 0.0
  {
    assert Product(d / s, s) == d;
  }

  lemma ProductNonNegative(a: real, b: real)
    requires a >= 0.0 && b >= 0.0
    ensures Product(a, b) >= 0.0
  {
    if a > 0.0 && b > 0.0 {
      ProductPositive(a, b);
    }
  }

  lemma SquareNonNegative(x: real)
    ensures Square(x) >= 0.0
    ensures Square(x) == 0.0 <==> x == 0.0
  {
    if x > 0.0 {
      ProductPositive(x, x);
    } else if x < 0.0 {
      ProductPositive(-x, -x);
      assert Product(-x, -x) == Product(x, x);
    }
  }

  lemma SquareOfAbs(x: real)
    ensures Square(Abs(x)) == Square(x)
  {
    assert Product(-x, -x) == Product(x, x);
  }

  lemma SquareStrictMonotone(a: real, b: real)
    requires 0.0 <= a < b
    ensures Square(a) < Square(b)
  {
    ProductPositive(b - a, b + a);
    assert Product(b - a, b + a) == Square(b) - Square(a);
  }

  /** Between non-negative numbers, squaring preserves the order. */
  lemma SquareMonotone(x: real, s: real)
    requires x >= 0.0 && s >= 0.0 && Square(x) <= Square(s)
    ensures x <= s
  {
    if x > s {
      ProductPositive(x - s, x + s);
    }
  }
}
