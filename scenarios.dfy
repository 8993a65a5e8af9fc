/** Small worlds on which the value-iteration loop is worked out exactly. */
module Scenarios {
  import opened Mdp
  import opened RealSeq
  import opened ValueSweep

  /** One state, one action that stays put with reward 0. */
  function SelfLoop(): (w: World)
    ensures WellFormed(w) && |w.actions| == 1
  {
    World(1, ["stay"], (s, a) => Transition(0, 0.0))
  }

  /** With `gamma = 0.5` the zero table is already a fixed point: one sweep
      reports `delta = 0` and the loop stops with `V = [0]`. */
  lemma SelfLoopStaysZero(maxSweeps: nat)
    requires maxSweeps > 0
    ensures ValueIterationRun(SelfLoop(), 0.5, 0.001, maxSweeps) == Run([0.0], 0.0, 1, true)
  {
    var w := SelfLoop();
    var z := Zeros(1);
    assert z == [0.0];
    assert Candidates(w, 0.5, z, 0) == [0.0];
    assert WeightedSum([0.0], ActionChance(w)) == 0.0;
    assert SweepUpTo(w, 0.5, z, 1) == [0.0];
    assert Sweep(w, 0.5, z) == [0.0];
    assert SweepDelta(w, 0.5, z) == 0.0;
    IterateStep(w, 0.5, 0.001, z, 2.0 * 0.001, maxSweeps);
    assert Iterate(w, 0.5, 0.001, [0.0], 0.0, maxSweeps - 1) == Run([0.0], 0.0, 0, true);
  }

  /** A chain 0 -> 1 -> 2 with reward 10 on the step from 1 to 2; state 2 loops on
      itself with reward 0; a single action "go". */
  function Chain(): (w: World)
    ensures WellFormed(w) && |w.actions| == 1
  {
    World(3, ["go"], (s, a) => if s == 0 then Transition(1, 0.0)
                               else if s == 1 then Transition(2, 10.0)
                               else Transition(2, 0.0))
  }

  /** `delta` counts only decreases: the first sweep from zeros raises `V[1]` to 10
      and lowers nothing, so the loop stops after it with `V[0] = 0`, although a
      further backup of state 0 would give 10. */
  lemma ChainStopsAfterOneSweep(maxSweeps: nat)
    requires maxSweeps > 0
    ensures var run := ValueIterationRun(Chain(), 1.0, 0.001, maxSweeps);
      && run == Run([0.0, 10.0, 0.0], 0.0, 1, true)
      && Backup(Chain(), 1.0, run.values, 0) == 10.0
  {
    var w := Chain();
    var z := Zeros(3);
    assert z == [0.0, 0.0, 0.0];
    assert Backup(w, 1.0, z, 0) == 0.0 by {
      assert Candidates(w, 1.0, z, 0) == [0.0];
    }
    var v1 := SweepUpTo(w, 1.0, z, 1);
    assert v1 == [0.0, 0.0, 0.0];
    assert Backup(w, 1.0, v1, 1) == 10.0 by {
      assert Candidates(w, 1.0, v1, 1) == [10.0];
    }
    var v2 := SweepUpTo(w, 1.0, z, 2);
    assert v2 == [0.0, 10.0, 0.0];
    assert Backup(w, 1.0, v2, 2) == 0.0 by {
      assert Candidates(w, 1.0, v2, 2) == [0.0];
    }
    assert Sweep(w, 1.0, z) == [0.0, 10.0, 0.0];
    assert DeltaUpTo(w, 1.0, z, 1) == 0.0;
    assert DeltaUpTo(w, 1.0, z, 2) == 0.0;
    assert SweepDelta(w, 1.0, z) == 0.0;
    IterateStep(w, 1.0, 0.001, z, 2.0 * 0.001, maxSweeps);
    assert Iterate(w, 1.0, 0.001, [0.0, 10.0, 0.0], 0.0, maxSweeps - 1) == Run([0.0, 10.0, 0.0], 0.0, 0, true);
    assert Candidates(w, 1.0, [0.0, 10.0, 0.0], 0) == [10.0];
  }
}
