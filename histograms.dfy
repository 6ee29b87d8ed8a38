/** Bin-by-bin arithmetic on histogram counts, the numpy vector operations
    the templates are built from: `np.sum`, `np.abs`, `np.sign`, `np.any`,
    elementwise `+`/`-`, and the `np.maximum(t, 0)` / `-np.minimum(t, 0)`
    split into non-negative parts. Counts are unbounded reals. */
module Histograms {

  /** A histogram written under a name to an output file. */
  datatype Written = Written(name: string, counts: seq<real>)

  /** A sample with the area it is to be scaled to. */
  datatype Sample = Sample(counts: seq<real>, area: real)

  /** `np.sum`: the plain (signed) sum, taken from the last bin back so that
      summing a growing prefix adds one bin at a time. */
  function Sum(s: seq<real>): real
    decreases |s|
  {
    if |s| == 0 then 0.0 else Sum(s[..|s| - 1]) + s[|s| - 1]
  }

  function Abs(x: real): real {
    if x < 0.0 then -x else x
  }

  /** `np.sign`: -1, 0 or 1. */
  function Sign(x: real): real {
    if x < 0.0 then -1.0 else if x > 0.0 then 1.0 else 0.0
  }

  /** Every bin replaced by its magnitude (`np.abs`). */
  function AbsAll(s: seq<real>): (r: seq<real>)
    ensures |r| == |s|
    ensures forall i :: 0 <= i < |s| ==> r[i] >= 0.0
  {
    seq(|s|, i requires 0 <= i < |s| => Abs(s[i]))
  }

  /** `np.sum(np.abs(s))`: the absolute area of a histogram. */
  function AbsSum(s: seq<real>): (r: real)
    ensures r >= 0.0
  {
    NonNegativeSumPositive(AbsAll(s));
    Sum(AbsAll(s))
  }

  /** `np.any(s)`: some bin is nonzero. */
  predicate Any(s: seq<real>) {
    exists i :: 0 <= i < |s| && s[i] != 0.0
  }

  /** Some bin is positive. */
  predicate AnyPositive(s: seq<real>) {
    exists j :: 0 <= j < |s| && s[j] > 0.0
  }

  /** Some bin is negative. */
  predicate AnyNegative(s: seq<real>) {
    exists j :: 0 <= j < |s| && s[j] < 0.0
  }

  /** Elementwise `a + b` of two histograms on the same bins. */
  function Add(a: seq<real>, b: seq<real>): (r: seq<real>)
    requires |a| == |b|
    ensures |r| == |a|
  {
    seq(|a|, i requires 0 <= i < |a| => a[i] + b[i])
  }

  /** Elementwise `a - b` of two histograms on the same bins. */
  function Sub(a: seq<real>, b: seq<real>): (r: seq<real>)
    requires |a| == |b|
    ensures |r| == |a|
  {
    seq(|a|, i requires 0 <= i < |a| => a[i] - b[i])
  }

  /** `np.maximum(t, 0)`, also the unroller's "content is not negative"
      branch: each bin is the larger of its content and zero. */
  function PosPart(t: seq<real>): (r: seq<real>)
    ensures |r| == |t|
    ensures forall i :: 0 <= i < |t| ==> r[i] >= 0.0 && r[i] >= t[i] && (r[i] == 0.0 || r[i] == t[i])
  {
    seq(|t|, i requires 0 <= i < |t| => if t[i] < 0.0 then 0.0 else t[i])
  }

  /** `-1 * np.minimum(t, 0)`, also the unroller's "content is negative"
      branch: each bin is the magnitude of its content if negative, else zero. */
  function NegPart(t: seq<real>): (r: seq<real>)
    ensures |r| == |t|
    ensures forall i :: 0 <= i < |t| ==> r[i] >= 0.0 && r[i] >= -t[i] && (r[i] == 0.0 || r[i] == -t[i])
  {
    seq(|t|, i requires 0 <= i < |t| => if t[i] < 0.0 then -t[i] else 0.0)
  }

  /** The split loses nothing and never puts content on both sides:
      `pos - neg` gives back every bin and one of the two is always zero. */
  lemma SplitRecombines(t: seq<real>, i: nat)
    requires i < |t|
    ensures PosPart(t)[i] - NegPart(t)[i] == t[i]
    ensures PosPart(t)[i] == 0.0 || NegPart(t)[i] == 0.0
  {
  }

  /** The absolute area of a histogram is the area of its positive part
      plus the area of its negative part. */
  lemma AbsSumSplits(t: seq<real>)
    ensures AbsSum(t) == Sum(PosPart(t)) + Sum(NegPart(t))
  {
    SumPointwiseAdd(AbsAll(t), PosPart(t), NegPart(t));
  }

  /** Sums are additive: bins that are the bin-wise sum of two histograms
      sum to the sum of their areas. */
  lemma {:induction false} SumPointwiseAdd(r: seq<real>, a: seq<real>, b: seq<real>)
    requires |r| == |a| == |b|
    requires forall i :: 0 <= i < |r| ==> r[i] == a[i] + b[i]
    ensures Sum(r) == Sum(a) + Sum(b)
    decreases |r|
  {
    if |r| > 0 {
      var n := |r| - 1;
      assert forall i :: 0 <= i < n ==> r[..n][i] == a[..n][i] + b[..n][i];
      SumPointwiseAdd(r[..n], a[..n], b[..n]);
    }
  }

  /** A sum of non-negative bins is positive exactly when some bin is. */
  lemma {:induction false} NonNegativeSumPositive(s: seq<real>)
    requires forall i :: 0 <= i < |s| ==> s[i] >= 0.0
    ensures Sum(s) >= 0.0
    ensures Sum(s) > 0.0 <==> exists i :: 0 <= i < |s| && s[i] > 0.0
    decreases |s|
  {
    if |s| > 0 {
      var n := |s| - 1;
      NonNegativeSumPositive(s[..n]);
      if exists i :: 0 <= i < |s| && s[i] > 0.0 {
        var i :| 0 <= i < |s| && s[i] > 0.0;
        if i < n {
          assert s[..n][i] > 0.0;
        }
      }
    }
  }

  /** The positive part has positive area exactly when some bin is positive. */
  lemma PosPartArea(t: seq<real>)
    ensures Sum(PosPart(t)) > 0.0 <==> exists i :: 0 <= i < |t| && t[i] > 0.0
  {
    NonNegativeSumPositive(PosPart(t));
    if exists i :: 0 <= i < |t| && t[i] > 0.0 {
      var i :| 0 <= i < |t| && t[i] > 0.0;
      assert PosPart(t)[i] > 0.0;
    }
  }

  /** The negative part has positive area exactly when some bin is negative. */
  lemma NegPartArea(t: seq<real>)
    ensures Sum(NegPart(t)) > 0.0 <==> exists i :: 0 <= i < |t| && t[i] < 0.0
  {
    NonNegativeSumPositive(NegPart(t));
    if exists i :: 0 <= i < |t| && t[i] < 0.0 {
      var i :| 0 <= i < |t| && t[i] < 0.0;
      assert NegPart(t)[i] > 0.0;
    }
  }

  /** A histogram has positive absolute area exactly when some bin is nonzero. */
  lemma AbsSumPositive(s: seq<real>)
    ensures AbsSum(s) > 0.0 <==> Any(s)
  {
    NonNegativeSumPositive(AbsAll(s));
    if Any(s) {
      var i :| 0 <= i < |s| && s[i] != 0.0;
      assert AbsAll(s)[i] > 0.0;
    }
  }

  /** Every bin multiplied by `k`. */
  function Times(s: seq<real>, k: real): (r: seq<real>)
    ensures |r| == |s|
  {
    seq(|s|, i requires 0 <= i < |s| => s[i] * k)
  }

  /** Sums are linear: bins that are all `c` times the bins of another
      histogram sum to `c` times its sum. */
  lemma {:induction false} SumScaled(a: seq<real>, b: seq<real>, c: real)
    requires |a| == |b|
    requires forall i :: 0 <= i < |a| ==> a[i] == c * b[i]
    ensures Sum(a) == c * Sum(b)
    decreases |a|
  {
    if |a| > 0 {
      var n := |a| - 1;
      assert forall i :: 0 <= i < n ==> a[..n][i] == c * b[..n][i];
      SumScaled(a[..n], b[..n], c);
      LinearStep(Sum(a), Sum(a[..n]), a[n], Sum(b), Sum(b[..n]), b[n], c);
    }
  }

  /** Multiplying every bin by `k` multiplies the sum by `k`. */
  lemma SumTimes(s: seq<real>, k: real)
    ensures Sum(Times(s, k)) == k * Sum(s)
  {
    SumScaled(Times(s, k), s, k);
  }

  /** Multiplying every bin by `k` multiplies the absolute area by `|k|`. */
  lemma AbsSumTimes(s: seq<real>, k: real)
    ensures AbsSum(Times(s, k)) == Abs(k) * AbsSum(s)
  {
    AbsAllTimes(s, k);
    SumScaled(AbsAll(Times(s, k)), AbsAll(s), Abs(k));
  }

  lemma AbsAllTimes(s: seq<real>, k: real)
    ensures forall i :: 0 <= i < |s| ==> AbsAll(Times(s, k))[i] == Abs(k) * AbsAll(s)[i]
  {
    forall i | 0 <= i < |s| ensures AbsAll(Times(s, k))[i] == Abs(k) * AbsAll(s)[i] {
      AbsOfProduct(s[i], k);
    }
  }

  /** Proof step only, not a property of the model: one step of an
      induction over bins, kept apart from the sequence facts so that the
      solver sees only the arithmetic. */
  lemma LinearStep(total: real, head: real, last: real, total': real, head': real, last': real, k: real)
    requires total == head + last && total' == head' + last'
    requires head == k * head' && last == k * last'
    ensures total == k * total'
  {
  }

  lemma AbsOfProduct(x: real, k: real)
    ensures Abs(x * k) == Abs(k) * Abs(x)
  {
    if x < 0.0 && k < 0.0 {
      assert x * k == (-x) * (-k);
    } else if x < 0.0 {
      assert -(x * k) == (-x) * k;
    } else if k < 0.0 {
      assert -(x * k) == x * (-k);
    }
  }

  /** Changing one bin changes the sum by the difference. */
  lemma {:induction false} SumUpdate(s: seq<real>, k: nat, v: real)
    requires k < |s|
    ensures Sum(s[k := v]) == Sum(s) - s[k] + v
    decreases |s|
  {
    var n := |s| - 1;
    if k < n {
      assert s[k := v][..n] == s[..n][k := v];
      SumUpdate(s[..n], k, v);
    } else {
      assert s[k := v][..n] == s[..n];
    }
  }
}
