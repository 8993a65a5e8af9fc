/** The solver object: holds the value table `V_s` and the action-value table `Q_sa`,
    each absent (`null`) until the corresponding solve has stored one. */
module DynamicProgramming {
  import opened Mdp
  import opened ValueSweep
  import opened Greedy

  /** How `ValueIteration` ended: the loop stopped on `delta < theta`; the world has
      no actions, so `1 / len(env.actions)` divides by zero; or the sweep bound ran out
      while `delta >= theta` still held. */
  datatype Status = Converged | NoActions | SweepLimitReached

  class Solver {
    var vs: array?<real>
    var qsa: array2?<real>

    constructor ()
      ensures vs == null && qsa == null
    {
      vs := null;
      qsa := null;
    }

    /** Value iteration under the uniform random policy, from the zero table, with
        in-place sweeps while `delta >= theta`, at most `maxSweeps` of them. Only a
        run that stops on `delta < theta` stores its table. */
    method ValueIteration(w: World, maxSweeps: nat, gamma: real := 1.0, theta: real := 0.001) returns (status: Status)
      requires WellFormed(w)
      modifies this
      ensures qsa == old(qsa)
      ensures status == NoActions <==> |w.actions| == 0
      ensures status != Converged ==> vs == old(vs)
      ensures |w.actions| > 0 ==>
        var run := ValueIterationRun(w, gamma, theta, maxSweeps);
        && (status == Converged <==> run.converged)
        && (status == Converged ==> vs != null && fresh(vs) && vs[..] == run.values && run.lastDelta < theta)
    {
      var v := new real[w.nStates](_ => 0.0);
      if |w.actions| == 0 {
        return NoActions;
      }
      var actionChance := 1.0 / (|w.actions| as real);
      assert v[..] == Zeros(w.nStates);
      var converged := SweepUntilBelow(w, gamma, theta, actionChance, v, maxSweeps);
      if !converged {
        return SweepLimitReached;
      }
      vs := v;
      status := Converged;
    }

    /** Q-value iteration as far as the Python program goes: an all-zero
        `nStates x |actions|` table, stored as is. */
    method QValueIteration(w: World)
      modifies this
      ensures vs == old(vs)
      ensures qsa != null && fresh(qsa)
      ensures qsa.Length0 == w.nStates && qsa.Length1 == |w.actions|
      ensures forall s, a :: 0 <= s < qsa.Length0 && 0 <= a < qsa.Length1 ==> qsa[s, a] == 0.0
    {
      var q := new real[w.nStates, |w.actions|]((_, _) => 0.0);
      qsa := q;
    }

    /** The action `execute_policy` proposes at state `s`: with `table == "V"` and a
        stored value table, the greedy action from it; otherwise none, since the
        Q-table selection is not written and without a table only manual choice remains. */
    method SuggestedAction(w: World, s: nat, table: string := "V") returns (greedy: Option<nat>)
      requires WellFormed(w) && s < w.nStates
      requires vs != null ==> vs.Length == w.nStates
      ensures table == "V" && vs != null ==> greedy == FirstArgMax(NextValues(w, vs[..], s))
      ensures !(table == "V" && vs != null) ==> greedy == None
    {
      if table == "V" && vs != null {
        greedy := GreedyAction(w, vs[..], s);
      } else if table == "Q" && qsa != null {
        greedy := None;
      } else {
        greedy := None;
      }
    }
  }
}
