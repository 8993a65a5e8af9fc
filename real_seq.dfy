/** Sums and maxima over finite sequences of reals, the numpy reductions the solvers use. */
module RealSeq {

  /** Sum of the entries, accumulated left to right. */
  function Sum(c: seq<real>): (total: real)
  {
    if |c| == 0 then 0.0 else Sum(c[..|c| - 1]) + c[|c| - 1]
  }

  /** `Σ_i p * c[i]`, accumulated left to right as a loop adding `p * c[i]` would. */
  function WeightedSum(c: seq<real>, p: real): (total: real)
  {
    if |c| == 0 then 0.0 else WeightedSum(c[..|c| - 1], p) + p * c[|c| - 1]
  }

  /** Largest entry of a non-empty sequence (`np.max`). */
  function Max(c: seq<real>): (m: real)
    requires |c| > 0
  {
    if |c| == 1 then c[0]
    else
      var m := Max(c[..|c| - 1]);
      if c[|c| - 1] > m then c[|c| - 1] else m
  }

  /** Smallest entry of a non-empty sequence. */
  function Min(c: seq<real>): (m: real)
    requires |c| > 0
  {
    if |c| == 1 then c[0]
    else
      var m := Min(c[..|c| - 1]);
      if c[|c| - 1] < m then c[|c| - 1] else m
  }

  /** A constant weight factors out of the weighted sum. */
  lemma {:induction false} WeightedSumFactors(c: seq<real>, p: real)
    ensures WeightedSum(c, p) == p * Sum(c)
  {
    if |c| > 0 {
      WeightedSumFactors(c[..|c| - 1], p);
    }
  }

  /** `Max` is an upper bound of every entry and is one of the entries. */
  lemma {:induction false} MaxIsGreatest(c: seq<real>)
    requires |c| > 0
    ensures forall i :: 0 <= i < |c| ==> c[i] <= Max(c)
    ensures exists i :: 0 <= i < |c| && c[i] == Max(c)
  {
    if |c| > 1 {
      var init := c[..|c| - 1];
      MaxIsGreatest(init);
      assert forall i :: 0 <= i < |init| ==> c[i] == init[i];
      var k :| 0 <= k < |init| && init[k] == Max(init);
      if c[|c| - 1] > Max(init) {
        assert c[|c| - 1] == Max(c);
      } else {
        assert c[k] == Max(c);
      }
    } else {
      assert c[0] == Max(c);
    }
  }

  /** `Min` is a lower bound of every entry and is one of the entries. */
  lemma {:induction false} MinIsLeast(c: seq<real>)
    requires |c| > 0
    ensures forall i :: 0 <= i < |c| ==> Min(c) <= c[i]
    ensures exists i :: 0 <= i < |c| && c[i] == Min(c)
  {
    if |c| > 1 {
      var init := c[..|c| - 1];
      MinIsLeast(init);
      assert forall i :: 0 <= i < |init| ==> c[i] == init[i];
      var k :| 0 <= k < |init| && init[k] == Min(init);
      if c[|c| - 1] < Min(init) {
        assert c[|c| - 1] == Min(c);
      } else {
        assert c[k] == Min(c);
      }
    } else {
      assert c[0] == Min(c);
    }
  }

  /** The sum lies between `|c|` times the smallest and `|c|` times the largest entry. */
  lemma {:induction false} SumBetween(c: seq<real>, lo: real, hi: real)
    requires forall i :: 0 <= i < |c| ==> lo <= c[i] <= hi
    ensures |c| as real * lo <= Sum(c) <= |c| as real * hi
  {
    if |c| > 0 {
      var init := c[..|c| - 1];
      assert forall i :: 0 <= i < |init| ==> init[i] == c[i];
      SumBetween(init, lo, hi);
    }
  }

  /** The sum of a non-empty sequence lies between `|c|` times its `Min` and `|c|` times its `Max`. */
  lemma SumWithinExtremes(c: seq<real>)
    requires |c| > 0
    ensures |c| as real * Min(c) <= Sum(c) <= |c| as real * Max(c)
  {
    var lo, hi := Min(c), Max(c);
    MaxIsGreatest(c);
    MinIsLeast(c);
    assert forall i :: 0 <= i < |c| ==> lo <= c[i] <= hi;
    SumBetween(c, lo, hi);
  }

  /** The mean of a non-empty sequence lies between its smallest and largest entry. */
  lemma MeanWithinExtremes(c: seq<real>)
    requires |c| > 0
    ensures Min(c) <= Sum(c) / (|c| as real) <= Max(c)
  {
    SumWithinExtremes(c);
    MeanWithin(Sum(c), |c| as real, Min(c), Max(c));
  }

  /** `total / n` lies within `[lo, hi]` when `total` lies within `[n * lo, n * hi]`. */
  lemma MeanWithin(total: real, n: real, lo: real, hi: real)
    requires n > 0.0 && n * lo <= total <= n * hi
    ensures lo <= total / n <= hi
  {
    assert lo == (n * lo) / n;
    assert hi == (n * hi) / n;
  }
}
