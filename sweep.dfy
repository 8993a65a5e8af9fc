/** One in-place value-iteration sweep and the sweep loop around it.
    The backup is the expectation under the uniform random policy: every action
    gets weight `1 / |actions|`. States are processed in order 0 .. nStates-1 and
    each one reads the table as already updated earlier in the same sweep. */
module ValueSweep {
  import opened Mdp
  import opened RealSeq

  /** The table fits the world and the uniform weight is defined. */
  predicate Ready(w: World, v: seq<real>)
  {
    WellFormed(w) && |w.actions| > 0 && |v| == w.nStates
  }

  /** The weight of each action, `action_chance = 1 / len(env.actions)`. */
  function ActionChance(w: World): (chance: real)
    requires |w.actions| > 0
  {
    1.0 / (|w.actions| as real)
  }

  /** `reward(s, a) + gamma * V[next(s, a)]` for each action `a`, in action order. */
  function Candidates(w: World, gamma: real, v: seq<real>, s: nat): (c: seq<real>)
    requires Ready(w, v) && s < w.nStates
    ensures |c| == |w.actions|
  {
    seq(|w.actions|, i requires 0 <= i < |w.actions| => Reward(w, s, i) + gamma * v[NextState(w, s, i)])
  }

  /** The value the sweep writes into `V[s]`: the candidates accumulated with weight `action_chance`. */
  function Backup(w: World, gamma: real, v: seq<real>, s: nat): (value: real)
    requires Ready(w, v) && s < w.nStates
  {
    WeightedSum(Candidates(w, gamma, v, s), ActionChance(w))
  }

  /** The table after the first `k` states of a sweep starting from `v0` have been processed. */
  function SweepUpTo(w: World, gamma: real, v0: seq<real>, k: nat): (v: seq<real>)
    requires Ready(w, v0) && k <= |v0|
    ensures |v| == |v0|
  {
    if k == 0 then v0
    else
      var prev := SweepUpTo(w, gamma, v0, k - 1);
      prev[k - 1 := Backup(w, gamma, prev, k - 1)]
  }

  /** `delta` after the first `k` states: starts at 0 and becomes
      `max(delta, old_value - new_value)` at each state. */
  function DeltaUpTo(w: World, gamma: real, v0: seq<real>, k: nat): (delta: real)
    requires Ready(w, v0) && k <= |v0|
  {
    if k == 0 then 0.0
    else
      var d := DeltaUpTo(w, gamma, v0, k - 1);
      var decrease := SweepUpTo(w, gamma, v0, k - 1)[k - 1] - SweepUpTo(w, gamma, v0, k)[k - 1];
      if d >= decrease then d else decrease
  }

  /** The table after one full sweep. */
  function Sweep(w: World, gamma: real, v0: seq<real>): (v: seq<real>)
    requires Ready(w, v0)
    ensures |v| == |v0|
  {
    SweepUpTo(w, gamma, v0, |v0|)
  }

  /** `delta` at the end of one full sweep. */
  function SweepDelta(w: World, gamma: real, v0: seq<real>): (delta: real)
    requires Ready(w, v0)
  {
    DeltaUpTo(w, gamma, v0, |v0|)
  }

  /** The backup is the plain average of the candidates, so it lies between the
      worst and the best candidate: an expectation, not a maximum. */
  lemma BackupIsUniformAverage(w: World, gamma: real, v: seq<real>, s: nat)
    requires Ready(w, v) && s < w.nStates
    ensures Backup(w, gamma, v, s) == Sum(Candidates(w, gamma, v, s)) / (|w.actions| as real)
    ensures Min(Candidates(w, gamma, v, s)) <= Backup(w, gamma, v, s) <= Max(Candidates(w, gamma, v, s))
  {
    var c := Candidates(w, gamma, v, s);
    WeightedSumIsMean(c, ActionChance(w));
    MeanWithinExtremes(c);
  }

  /** Accumulating every entry with weight `1 / |c|` gives the mean of the entries. */
  lemma WeightedSumIsMean(c: seq<real>, chance: real)
    requires |c| > 0 && chance == 1.0 / (|c| as real)
    ensures WeightedSum(c, chance) == Sum(c) / (|c| as real)
  {
    WeightedSumFactors(c, chance);
    assert chance * Sum(c) == Sum(c) / (|c| as real);
  }

  /** Processing the first `k` states leaves every entry from `k` on as it was at the
      start of the sweep: processing state `i` writes `V[i]` only. */
  lemma {:induction false} SweepUpToKeepsLater(w: World, gamma: real, v0: seq<real>, k: nat, j: nat)
    requires Ready(w, v0) && k <= j < |v0|
    ensures SweepUpTo(w, gamma, v0, k)[j] == v0[j]
  {
    if k > 0 {
      SweepUpToKeepsLater(w, gamma, v0, k - 1, j);
    }
  }

  /** Once state `j` is processed, later steps of the sweep leave `V[j]` alone. */
  lemma {:induction false} SweepUpToKeepsEarlier(w: World, gamma: real, v0: seq<real>, k: nat, j: nat)
    requires Ready(w, v0) && j < k <= |v0|
    ensures SweepUpTo(w, gamma, v0, k)[j] == SweepUpTo(w, gamma, v0, j + 1)[j]
  {
    if k > j + 1 {
      SweepUpToKeepsEarlier(w, gamma, v0, k - 1, j);
    }
  }

  /** Gauss-Seidel order: the value the sweep leaves in `V[s]` is the backup of `s`
      over the table in which the states before `s` already hold their new values
      and the states from `s` on still hold their old ones. */
  lemma SweepEntry(w: World, gamma: real, v0: seq<real>, s: nat)
    requires Ready(w, v0) && s < |v0|
    ensures var seen := SweepUpTo(w, gamma, v0, s);
      && (forall j :: 0 <= j < s ==> seen[j] == Sweep(w, gamma, v0)[j])
      && (forall j :: s <= j < |v0| ==> seen[j] == v0[j])
      && Sweep(w, gamma, v0)[s] == Backup(w, gamma, seen, s)
  {
    forall j | 0 <= j < s
      ensures SweepUpTo(w, gamma, v0, s)[j] == Sweep(w, gamma, v0)[j]
    {
      SweepUpToKeepsEarlier(w, gamma, v0, s, j);
      SweepUpToKeepsEarlier(w, gamma, v0, |v0|, j);
    }
    forall j | s <= j < |v0|
      ensures SweepUpTo(w, gamma, v0, s)[j] == v0[j]
    {
      SweepUpToKeepsLater(w, gamma, v0, s, j);
    }
    SweepUpToKeepsEarlier(w, gamma, v0, |v0|, s);
  }

  /** `delta` after `k` states is the largest decrease `old V[j] - new V[j]` over the
      first `k` states, or 0 when none of them decreased. */
  lemma {:induction false} DeltaUpToIsMaxDecrease(w: World, gamma: real, v0: seq<real>, k: nat)
    requires Ready(w, v0) && k <= |v0|
    ensures DeltaUpTo(w, gamma, v0, k) >= 0.0
    ensures forall j :: 0 <= j < k ==> v0[j] - Sweep(w, gamma, v0)[j] <= DeltaUpTo(w, gamma, v0, k)
    ensures DeltaUpTo(w, gamma, v0, k) == 0.0
         || exists j :: 0 <= j < k && v0[j] - Sweep(w, gamma, v0)[j] == DeltaUpTo(w, gamma, v0, k)
  {
    if k > 0 {
      var d := DeltaUpTo(w, gamma, v0, k - 1);
      var decrease := v0[k - 1] - Sweep(w, gamma, v0)[k - 1];
      DeltaStep(w, gamma, v0, k);
      DeltaUpToIsMaxDecrease(w, gamma, v0, k - 1);
      if d < decrease {
        assert DeltaUpTo(w, gamma, v0, k) == decrease;
      } else {
        assert DeltaUpTo(w, gamma, v0, k) == d;
      }
    }
  }

  /** Processing state `k - 1` sets `delta` to the larger of its old value and the
      decrease of `V[k - 1]` over the whole sweep. */
  lemma DeltaStep(w: World, gamma: real, v0: seq<real>, k: nat)
    requires Ready(w, v0) && 0 < k <= |v0|
    ensures var d, decrease := DeltaUpTo(w, gamma, v0, k - 1), v0[k - 1] - Sweep(w, gamma, v0)[k - 1];
      DeltaUpTo(w, gamma, v0, k) == if d >= decrease then d else decrease
  {
    var before, after := SweepUpTo(w, gamma, v0, k - 1), SweepUpTo(w, gamma, v0, k);
    assert DeltaUpTo(w, gamma, v0, k) == var d := DeltaUpTo(w, gamma, v0, k - 1);
      if d >= before[k - 1] - after[k - 1] then d else before[k - 1] - after[k - 1];
    SweepUpToKeepsLater(w, gamma, v0, k - 1, k - 1);
    SweepUpToKeepsEarlier(w, gamma, v0, |v0|, k - 1);
  }

  /** After a sweep, `delta` is the maximum over all states of `max(0, old V[s] - new V[s])`. */
  lemma SweepDeltaIsMaxDecrease(w: World, gamma: real, v0: seq<real>)
    requires Ready(w, v0)
    ensures SweepDelta(w, gamma, v0) >= 0.0
    ensures forall s :: 0 <= s < |v0| ==> v0[s] - Sweep(w, gamma, v0)[s] <= SweepDelta(w, gamma, v0)
    ensures SweepDelta(w, gamma, v0) == 0.0
         || exists s :: 0 <= s < |v0| && v0[s] - Sweep(w, gamma, v0)[s] == SweepDelta(w, gamma, v0)
  {
    DeltaUpToIsMaxDecrease(w, gamma, v0, |v0|);
  }

  /** Increases are invisible to `delta`: a sweep that lowers no entry reports 0. */
  lemma IncreasesLeaveDeltaZero(w: World, gamma: real, v0: seq<real>)
    requires Ready(w, v0)
    requires forall s :: 0 <= s < |v0| ==> v0[s] <= Sweep(w, gamma, v0)[s]
    ensures SweepDelta(w, gamma, v0) == 0.0
  {
    SweepDeltaIsMaxDecrease(w, gamma, v0);
  }

  /** Result of the sweep loop: the final table, the `delta` that stopped it, the
      number of sweeps run and whether it stopped because `delta < theta`. */
  datatype Run = Run(values: seq<real>, lastDelta: real, sweeps: nat, converged: bool)

  /** The loop `while delta >= theta: delta = sweep(V)` from table `v` and current
      `delta`, with at most `fuel` further sweeps. */
  function Iterate(w: World, gamma: real, theta: real, v: seq<real>, delta: real, fuel: nat): (r: Run)
    requires Ready(w, v)
    ensures |r.values| == |v|
    ensures r.sweeps <= fuel
    ensures r.converged <==> r.lastDelta < theta
    ensures !r.converged ==> r.sweeps == fuel
    decreases fuel
  {
    if delta < theta then Run(v, delta, 0, true)
    else if fuel == 0 then Run(v, delta, 0, false)
    else
      var r := Iterate(w, gamma, theta, Sweep(w, gamma, v), SweepDelta(w, gamma, v), fuel - 1);
      r.(sweeps := r.sweeps + 1)
  }

  /** One turn of the loop: while `delta >= theta` and sweeps remain, the run from `v`
      is the run from the swept table, one sweep longer. */
  lemma IterateStep(w: World, gamma: real, theta: real, v: seq<real>, delta: real, fuel: nat)
    requires Ready(w, v) && delta >= theta && fuel > 0
    ensures var r := Iterate(w, gamma, theta, Sweep(w, gamma, v), SweepDelta(w, gamma, v), fuel - 1);
      Iterate(w, gamma, theta, v, delta, fuel) == r.(sweeps := r.sweeps + 1)
  {
  }

  /** The loop stops with the current table once `delta < theta` or no sweeps remain. */
  lemma IterateStop(w: World, gamma: real, theta: real, v: seq<real>, delta: real, fuel: nat)
    requires Ready(w, v) && (delta < theta || fuel == 0)
    ensures Iterate(w, gamma, theta, v, delta, fuel) == Run(v, delta, 0, delta < theta)
  {
  }

  /** The all-zero table `np.zeros(n)`. */
  function Zeros(n: nat): (v: seq<real>)
    ensures |v| == n && forall s :: 0 <= s < n ==> v[s] == 0.0
  {
    seq(n, _ => 0.0)
  }

  /** Value iteration as the Python program runs it: from the zero table with
      `delta = 2 * theta`, within `maxSweeps` sweeps. */
  function ValueIterationRun(w: World, gamma: real, theta: real, maxSweeps: nat): (run: Run)
    requires WellFormed(w) && |w.actions| > 0
  {
    Iterate(w, gamma, theta, Zeros(w.nStates), 2.0 * theta, maxSweeps)
  }

  /** With `theta > 0`, the initial `delta = 2 * theta` forces at least one sweep. */
  lemma FirstSweepAlwaysRuns(w: World, gamma: real, theta: real, maxSweeps: nat)
    requires WellFormed(w) && |w.actions| > 0
    requires theta > 0.0 && maxSweeps > 0
    ensures ValueIterationRun(w, gamma, theta, maxSweeps).sweeps >= 1
  {
    assert !(2.0 * theta < theta);
  }

  /** The sweep bound only decides whether the loop is cut off: once the loop stops
      on `delta < theta`, more sweeps allowed give the same run. */
  lemma {:induction false} MoreFuelSameRun(w: World, gamma: real, theta: real, v: seq<real>, delta: real, fuel: nat, more: nat)
    requires Ready(w, v) && fuel <= more
    requires Iterate(w, gamma, theta, v, delta, fuel).converged
    ensures Iterate(w, gamma, theta, v, delta, more) == Iterate(w, gamma, theta, v, delta, fuel)
    decreases fuel
  {
    if delta >= theta {
      MoreFuelSameRun(w, gamma, theta, Sweep(w, gamma, v), SweepDelta(w, gamma, v), fuel - 1, more - 1);
    }
  }

  /** The table the last sweep of the run started from (`v` itself when no sweep runs). */
  function LastSweepStart(w: World, gamma: real, theta: real, v: seq<real>, delta: real, fuel: nat): (u: seq<real>)
    requires Ready(w, v)
    ensures |u| == |v|
    decreases fuel
  {
    if delta < theta || fuel <= 1 then v
    else
      var d := SweepDelta(w, gamma, v);
      if d < theta then v else LastSweepStart(w, gamma, theta, Sweep(w, gamma, v), d, fuel - 1)
  }

  /** A run that ran at least one sweep ends with the table and the `delta` of the
      sweep from `LastSweepStart`. */
  lemma {:induction false} RunEndsWithSweep(w: World, gamma: real, theta: real, v: seq<real>, delta: real, fuel: nat)
    requires Ready(w, v)
    requires Iterate(w, gamma, theta, v, delta, fuel).sweeps > 0
    ensures var u := LastSweepStart(w, gamma, theta, v, delta, fuel);
      && Iterate(w, gamma, theta, v, delta, fuel).values == Sweep(w, gamma, u)
      && Iterate(w, gamma, theta, v, delta, fuel).lastDelta == SweepDelta(w, gamma, u)
    decreases fuel
  {
    var next, d := Sweep(w, gamma, v), SweepDelta(w, gamma, v);
    IterateStep(w, gamma, theta, v, delta, fuel);
    if d < theta || fuel == 1 {
      IterateStop(w, gamma, theta, next, d, fuel - 1);
    } else {
      RunEndsWithSweep(w, gamma, theta, next, d, fuel - 1);
    }
  }

  /** When the loop exits on `delta < theta` after at least one sweep, the last sweep
      lowered no entry by `theta` or more. */
  lemma ExitMeansSmallDecrease(w: World, gamma: real, theta: real, v: seq<real>, delta: real, fuel: nat)
    requires Ready(w, v)
    requires Iterate(w, gamma, theta, v, delta, fuel).converged
    requires Iterate(w, gamma, theta, v, delta, fuel).sweeps > 0
    ensures var u := LastSweepStart(w, gamma, theta, v, delta, fuel);
      forall s :: 0 <= s < |u| ==> u[s] - Iterate(w, gamma, theta, v, delta, fuel).values[s] < theta
  {
    var u := LastSweepStart(w, gamma, theta, v, delta, fuel);
    RunEndsWithSweep(w, gamma, theta, v, delta, fuel);
    SweepDeltaIsMaxDecrease(w, gamma, u);
  }

  /** The inner loop over actions: accumulates `action_chance * (reward + gamma * V[next])`
      while reading the current contents of `v`. */
  method BackupAt(w: World, gamma: real, chance: real, v: array<real>, s: nat) returns (cumulative: real)
    requires Ready(w, v[..]) && s < w.nStates && chance == ActionChance(w)
    ensures cumulative == Backup(w, gamma, v[..], s)
  {
    ghost var c := Candidates(w, gamma, v[..], s);
    cumulative := 0.0;
    for i := 0 to |w.actions|
      invariant cumulative == WeightedSum(c[..i], chance)
    {
      var t := w.transition(s, w.actions[i]);
      assert c[..i + 1][..i] == c[..i];
      cumulative := cumulative + chance * (t.reward + gamma * v[t.next]);
    }
    assert c[..|w.actions|] == c;
  }

  /** One sweep over `v` in place, returning `delta`. */
  method SweepInPlace(w: World, gamma: real, chance: real, v: array<real>) returns (delta: real)
    requires Ready(w, v[..]) && chance == ActionChance(w)
    modifies v
    ensures v[..] == Sweep(w, gamma, old(v[..]))
    ensures delta == SweepDelta(w, gamma, old(v[..]))
  {
    ghost var v0 := v[..];
    delta := 0.0;
    for state := 0 to v.Length
      invariant v[..] == SweepUpTo(w, gamma, v0, state)
      invariant delta == DeltaUpTo(w, gamma, v0, state)
    {
      var oldValue := v[state];
      var cumulative := BackupAt(w, gamma, chance, v, state);
      v[state] := cumulative;
      var newValue := v[state];
      delta := if delta >= oldValue - newValue then delta else oldValue - newValue;
    }
  }

  /** The loop `while delta >= theta` of value iteration, from `delta = 2 * theta`,
      sweeping `v` in place at most `maxSweeps` times. */
  method SweepUntilBelow(w: World, gamma: real, theta: real, chance: real, v: array<real>, maxSweeps: nat)
    returns (converged: bool)
    requires Ready(w, v[..]) && chance == ActionChance(w)
    modifies v
    ensures var run := Iterate(w, gamma, theta, old(v[..]), 2.0 * theta, maxSweeps);
      v[..] == run.values && converged == run.converged
  {
    ghost var target := Iterate(w, gamma, theta, v[..], 2.0 * theta, maxSweeps);
    var delta := theta * 2.0;
    var sweeps: nat := 0;
    ghost var fuel: nat := maxSweeps;
    while delta >= theta && sweeps < maxSweeps
      invariant sweeps + fuel == maxSweeps && Ready(w, v[..])
      invariant Iterate(w, gamma, theta, v[..], delta, fuel).values == target.values
      invariant Iterate(w, gamma, theta, v[..], delta, fuel).converged == target.converged
      decreases fuel
    {
      ghost var before := v[..];
      IterateStep(w, gamma, theta, before, delta, fuel);
      delta := SweepInPlace(w, gamma, chance, v);
      sweeps, fuel := sweeps + 1, fuel - 1;
    }
    IterateStop(w, gamma, theta, v[..], delta, fuel);
    converged := delta < theta;
  }
}
