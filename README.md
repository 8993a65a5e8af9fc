# Dynamic programming for a finite MDP

A Dafny model of the tabular core of `assignment_MDP/dynamic_programming.py`:

- **Value iteration** (`value_iteration`). It starts from the zero table. It then sweeps the states in order, replacing `V[s]` in place with the average over all actions of `reward + gamma * V[next]`. That average is the expectation under the uniform random policy, not a maximum over actions. Because the update is in place, later states in a sweep already see the new values (Gauss–Seidel order). Each sweep tracks `delta`, the largest decrease `old - new`, which starts at 0. The loop repeats while `delta >= theta`.
- **Greedy action selection from `V_s`** (inside `execute_policy`). A running argmax over the action list of `V[next(s, a)]`. It ignores the reward and uses strict `>`, so the first maximal action wins. It gives no action when the list is empty.
- **`get_greedy_index`**: every position holding the maximum of an array.
- **`Q_value_iteration`**, as far as the code goes: it allocates and stores an all-zero `n_states × n_actions` table.

The environment is a value `World`:
- `nStates` states `0 .. nStates-1`, visited in that order.
- An ordered list of action labels.
- A total, deterministic `transition(state, action) -> (next, reward)`.

`WellFormed` is the environment's promise that `next` is a valid state. Values are Dafny `real`s.

Modules:
- `Mdp` (`mdp.dfy`): the environment.
- `RealSeq` (`real_seq.dfy`): sum, weighted sum, max and min of real sequences.
- `ValueSweep` (`sweep.dfy`):
  - the specification functions of one sweep (`SweepUpTo`, `Sweep`, `DeltaUpTo`, `SweepDelta`) and of the sweep loop (`Iterate`);
  - `ValueIterationRun`, the loop as `value_iteration` starts it: from the zero table with `delta = 2 * theta` (lines 26-31);
  - `LastSweepStart`, the table the loop's last sweep started from, used to state what the exit condition says about that sweep;
  - the in-place methods proved against them (`BackupAt`, `SweepInPlace`, `SweepUntilBelow`);
  - the lemmas about them.
- `Greedy` (`greedy.dfy`): the running argmax, its reference `FirstArgMax` and `get_greedy_index`.
- `DynamicProgramming` (`dynamic_programming.dfy`): the class `Solver`. It holds `vs` (`V_s`) and `qsa` (`Q_sa`), each `null` until a solve stores a table.
  `ValueIteration` keeps the Python defaults `gamma = 1.0` and `theta = 0.001` (line 19), and `SuggestedAction` the default `table = "V"` (line 63).
- `Scenarios` (`scenarios.dfy`): two small worlds worked out exactly.

What the code does, where one might expect otherwise:
- The backup is an average over actions, not the max over actions of textbook value iteration. `BackupIsUniformAverage` proves it lies between the worst and the best candidate.
- Sweeps are in place, not synchronous. `SweepEntry` states which table each state's backup reads.
- `delta` counts only decreases. A sweep that only raises values reports 0, and for `theta > 0` that stops the loop. (With `theta == 0` the loop never stops, since `0 >= 0`; with `theta < 0` it runs no sweep, since `2 * theta < theta`.) `ChainStopsAfterOneSweep` shows a three-state chain that stops after one sweep. There, state 0 still holds 0 although its next backup gives 10.

## Model

| member | source | states |
|---|---|---|
| `ValueSweep.Zeros` | assignment_MDP/dynamic_programming.py:26 | the initial table has `n_states` entries, all 0 |
| `ValueSweep.BackupIsUniformAverage` | assignment_MDP/dynamic_programming.py:28-39 | the value written into `V[s]` equals `Σ_a (reward(s,a) + gamma * V[next(s,a)]) / |actions|`, so it lies between the smallest and the largest candidate |
| `ValueSweep.SweepUpTo` | assignment_MDP/dynamic_programming.py:33-40 | processing the states keeps the table's length |
| `ValueSweep.SweepUpToKeepsLater` | assignment_MDP/dynamic_programming.py:33-40 | processing state `i` writes only `V[i]`: after the first `k` states, every entry from `k` on still holds its value from the start of the sweep |
| `ValueSweep.SweepUpToKeepsEarlier` | assignment_MDP/dynamic_programming.py:33-40 | once state `j` is processed, later steps of the sweep leave `V[j]` unchanged |
| `ValueSweep.SweepEntry` | assignment_MDP/dynamic_programming.py:33-40 | the swept value of `V[s]` is the backup of `s` over the table in which states before `s` already hold their new values and states from `s` on their old ones |
| `ValueSweep.DeltaUpToIsMaxDecrease` | assignment_MDP/dynamic_programming.py:32-41 | after `k` states, `delta >= 0`, `delta` bounds every decrease `old V[j] - new V[j]` for `j < k`, and it is 0 or equals one of them |
| `ValueSweep.DeltaStep` | assignment_MDP/dynamic_programming.py:34-41 | processing state `k` sets `delta` to the larger of its previous value and the decrease of `V[k]` over the whole sweep |
| `ValueSweep.SweepDeltaIsMaxDecrease` | assignment_MDP/dynamic_programming.py:32-41 | after a sweep, `delta` is the maximum over all states of `max(0, old V[s] - new V[s])`, so increases never raise `delta` |
| `ValueSweep.IncreasesLeaveDeltaZero` | assignment_MDP/dynamic_programming.py:41 | a sweep that lowers no entry reports `delta == 0` |
| `ValueSweep.Iterate` | assignment_MDP/dynamic_programming.py:30-41 | the sweep loop keeps the table's length, runs at most the allowed number of sweeps, reports convergence exactly when the final `delta < theta`, and uses every allowed sweep when it does not converge |
| `ValueSweep.FirstSweepAlwaysRuns` | assignment_MDP/dynamic_programming.py:30-31 | with `theta > 0`, the initial `delta = 2 * theta` forces at least one sweep |
| `ValueSweep.MoreFuelSameRun` | assignment_MDP/dynamic_programming.py:31 | once the loop stops on `delta < theta`, allowing more sweeps gives the same run, so the sweep bound only cuts off runs that have not stopped |
| `ValueSweep.RunEndsWithSweep` | assignment_MDP/dynamic_programming.py:31-41 | a run with at least one sweep ends with the table and the `delta` of one sweep from the table the last sweep started from |
| `ValueSweep.ExitMeansSmallDecrease` | assignment_MDP/dynamic_programming.py:31-41 | when the loop exits on `delta < theta` after at least one sweep, its last sweep lowered no entry by `theta` or more |
| `ValueSweep.BackupAt` | assignment_MDP/dynamic_programming.py:35-38 | the loop over actions accumulates exactly the backup of the current table |
| `ValueSweep.SweepInPlace` | assignment_MDP/dynamic_programming.py:32-41 | one in-place pass leaves the array equal to the sweep of its old contents and returns that sweep's `delta` |
| `ValueSweep.SweepUntilBelow` | assignment_MDP/dynamic_programming.py:30-41 | the `while delta >= theta` loop, started at `delta = 2 * theta`, leaves the array equal to the final table of the run and reports whether the run converged |
| `Greedy.FirstArgMax` | assignment_MDP/dynamic_programming.py:75-82 | the running argmax gives no action exactly for an empty list, and otherwise a valid index |
| `Greedy.FirstArgMaxIsFirstMaximum` | assignment_MDP/dynamic_programming.py:77-82 | the selected entry is at least every entry, and every entry before it is strictly smaller (first one wins ties) |
| `Greedy.FirstMaximumIsSelected` | assignment_MDP/dynamic_programming.py:80-82 | conversely, a maximal index with only strictly smaller entries before it is the one selected |
| `Greedy.GreedyAction` | assignment_MDP/dynamic_programming.py:75-82 | the selected action index is `None` exactly when there are no actions; otherwise `V[next(s, greedy)] >= V[next(s, a)]` for every action `a`, and every earlier action leads to a strictly smaller value |
| `Greedy.SelectionIgnoresReward` | assignment_MDP/dynamic_programming.py:78 | worlds that differ only in rewards get the same greedy choice |
| `Greedy.IndicesOf` | assignment_MDP/dynamic_programming.py:124 | the positions from `lo` on holding a given value, each exactly once, in increasing order |
| `Greedy.GreedyIndex` | assignment_MDP/dynamic_programming.py:121-124 | for a non-empty array, a non-empty increasing list holding exactly the positions `i` with `values[j] <= values[i]` for all `j`; an empty array gives `None` |
| `DynamicProgramming.Solver.constructor` | assignment_MDP/dynamic_programming.py:15-17 | a new solver holds neither table |
| `DynamicProgramming.Solver.ValueIteration` | assignment_MDP/dynamic_programming.py:19-46 | with no actions, ends with `NoActions` and changes nothing. Otherwise it stores a fresh table equal to the run's final table exactly when the run stops on `delta < theta`. It never touches `Q_sa` |
| `DynamicProgramming.Solver.QValueIteration` | assignment_MDP/dynamic_programming.py:48-61 | stores a fresh `n_states × n_actions` table of zeros and leaves `V_s` alone |
| `DynamicProgramming.Solver.SuggestedAction` | assignment_MDP/dynamic_programming.py:72-93 | with table `"V"` and a stored value table, proposes the greedy action from it; in every other case (the `"Q"` stub, or no table) proposes none |
| `Scenarios.SelfLoopStaysZero` | assignment_MDP/dynamic_programming.py:26-41 | one state looping on itself with reward 0 and `gamma = 0.5`: one sweep, `delta = 0`, final table `[0]` |
| `Scenarios.ChainStopsAfterOneSweep` | assignment_MDP/dynamic_programming.py:30-41 | on the chain 0 → 1 → 2 with reward 10 into state 2 and `gamma = 1`, the loop stops after one sweep with `[0, 10, 0]`, although backing up state 0 again would give 10 |

## Left out

- The interactive part of `execute_policy` is not modelled: reset, the `while not env.terminal` loop, the prompt and retry around `env.act`, and reporting (lines 65–69, 96–118). It is console I/O around the environment. `SuggestedAction` models only the choice of the proposed action (lines 72–93).
- All `print` and `print_map` output is left out.
- The `__main__` driver (lines 126–140) is left out: scripted prompts.
- The `World` class, its map file and `act`, `reset_agent`, `get_current_state`, `terminal` are not part of this model. Only `n_states`, the action list and the transition function are used.
- `env.states` is taken to be `0 .. n_states-1` in order. The width of the Q table is the length of the action list, where the code reads `env.n_actions`.
- DynamicProgramming.Solver.ValueIteration: the code loops while `delta >= theta` with no bound. The model allows at most `maxSweeps` sweeps and ends with `SweepLimitReached` when they run out. Termination for `gamma = 1` is not claimed.
- DynamicProgramming.Solver.ValueIteration: with an empty action list the code raises `ZeroDivisionError` at line 28. The model returns `NoActions` and leaves both tables as they were.
- Floating-point rounding, `float(...)` conversions and NaN are not modelled: values are exact reals. Exact float equality in `get_greedy_index` becomes real equality.
- Greedy.GreedyAction: returns the index of the chosen action in the action list rather than its label. The label is `w.actions[i]`.
- Greedy.GreedyIndex: `np.where` returns a tuple holding an array of indices. The model returns the ascending list of indices. The `ValueError` that `np.max` raises on an empty array becomes `None`.
- The Q-value update and the greedy selection from `Q_sa` are not written in the code (lines 57–58, 84–88). The model stores the zero table and proposes no action from it.
