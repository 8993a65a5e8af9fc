/** Greedy action selection from a value table, and the indices of all maxima. */
module Greedy {
  import opened Mdp
  import opened RealSeq

  /** `V[next(s, a)]` for each action `a`, in action order. The reward plays no part. */
  function NextValues(w: World, v: seq<real>, s: nat): (c: seq<real>)
    requires WellFormed(w) && |v| == w.nStates && s < w.nStates
    ensures |c| == |w.actions|
    ensures forall i :: 0 <= i < |c| ==> c[i] == v[NextState(w, s, i)]
  {
    seq(|w.actions|, i requires 0 <= i < |w.actions| => v[NextState(w, s, i)])
  }

  /** The index the running argmax `if best is None or value > best` settles on:
      the last entry replaces the best of the earlier ones only when strictly larger. */
  function FirstArgMax(c: seq<real>): (r: Option<nat>)
    ensures r.None? <==> |c| == 0
    ensures r.Some? ==> r.value < |c|
  {
    if |c| == 0 then None
    else
      var p := FirstArgMax(c[..|c| - 1]);
      if p.None? || c[|c| - 1] > c[p.value] then Some(|c| - 1) else p
  }

  /** The selected entry is a maximum, and every entry before it is strictly smaller:
      the first maximum in order wins ties. */
  lemma {:induction false} FirstArgMaxIsFirstMaximum(c: seq<real>)
    requires |c| > 0
    ensures var k := FirstArgMax(c).value;
      && (forall j :: 0 <= j < |c| ==> c[j] <= c[k])
      && (forall j :: 0 <= j < k ==> c[j] < c[k])
  {
    if |c| > 1 {
      var init := c[..|c| - 1];
      FirstArgMaxIsFirstMaximum(init);
      assert forall j :: 0 <= j < |init| ==> init[j] == c[j];
    }
  }

  /** Conversely, an index that is a maximum with only strictly smaller entries
      before it is the one selected. */
  lemma FirstMaximumIsSelected(c: seq<real>, k: nat)
    requires k < |c|
    requires forall j :: 0 <= j < |c| ==> c[j] <= c[k]
    requires forall j :: 0 <= j < k ==> c[j] < c[k]
    ensures FirstArgMax(c) == Some(k)
  {
    FirstArgMaxIsFirstMaximum(c);
  }

  /** Greedy action from `V_s` at state `s`: the index into `w.actions` of the first
      action whose successor has the largest value, `None` when there are no actions. */
  method GreedyAction(w: World, v: seq<real>, s: nat) returns (greedy: Option<nat>)
    requires WellFormed(w) && |v| == w.nStates && s < w.nStates
    ensures greedy == FirstArgMax(NextValues(w, v, s))
    ensures greedy.None? <==> |w.actions| == 0
    ensures greedy.Some? ==>
      && greedy.value < |w.actions|
      && (forall a :: 0 <= a < |w.actions| ==> v[NextState(w, s, a)] <= v[NextState(w, s, greedy.value)])
      && (forall a :: 0 <= a < greedy.value ==> v[NextState(w, s, a)] < v[NextState(w, s, greedy.value)])
  {
    ghost var c := NextValues(w, v, s);
    greedy := None;
    var bestValue := 0.0;
    for i := 0 to |w.actions|
      invariant greedy == FirstArgMax(c[..i])
      invariant greedy.Some? ==> bestValue == c[greedy.value]
    {
      var t := w.transition(s, w.actions[i]);
      var value := v[t.next];
      assert c[..i + 1][..i] == c[..i];
      if greedy.None? || value > bestValue {
        greedy := Some(i);
        bestValue := value;
      }
    }
    assert c[..|w.actions|] == c;
    if greedy.Some? {
      FirstArgMaxIsFirstMaximum(c);
    }
  }

  /** Two worlds that differ only in rewards get the same greedy choice. */
  lemma SelectionIgnoresReward(w1: World, w2: World, v: seq<real>, s: nat)
    requires WellFormed(w1) && WellFormed(w2)
    requires w1.nStates == w2.nStates && w1.actions == w2.actions
    requires |v| == w1.nStates && s < w1.nStates
    requires forall i :: 0 <= i < |w1.actions| ==> NextState(w1, s, i) == NextState(w2, s, i)
    ensures FirstArgMax(NextValues(w1, v, s)) == FirstArgMax(NextValues(w2, v, s))
  {
    assert NextValues(w1, v, s) == NextValues(w2, v, s);
  }

  /** Position `i` holds a largest entry of `values`. */
  predicate IsMaximum(values: seq<real>, i: nat)
  {
    i < |values| && forall j :: 0 <= j < |values| ==> values[j] <= values[i]
  }

  /** The positions `i >= lo` with `c[i] == m`, in increasing order. */
  function IndicesOf(c: seq<real>, m: real, lo: nat): (r: seq<nat>)
    requires lo <= |c|
    ensures forall i :: i in r <==> lo <= i < |c| && c[i] == m
    ensures forall j, k :: 0 <= j < k < |r| ==> r[j] < r[k]
    decreases |c| - lo
  {
    if lo == |c| then []
    else if c[lo] == m then
      var rest := IndicesOf(c, m, lo + 1);
      assert forall k :: 0 <= k < |rest| ==> rest[k] in rest;
      [lo] + rest
    else IndicesOf(c, m, lo + 1)
  }

  /** `get_greedy_index`: `np.where(values == np.max(values))`, every position holding
      the maximum, ascending. `np.max` of an empty array raises, modelled as `None`. */
  function GreedyIndex(values: seq<real>): (r: Option<seq<nat>>)
    ensures r.None? <==> |values| == 0
    ensures r.Some? ==> |r.value| > 0
    ensures r.Some? ==> forall i :: i in r.value <==> IsMaximum(values, i)
    ensures r.Some? ==> forall j, k :: 0 <= j < k < |r.value| ==> r.value[j] < r.value[k]
  {
    if |values| == 0 then None
    else
      MaxIsGreatest(values);
      Some(IndicesOf(values, Max(values), 0))
  }
}
