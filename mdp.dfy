/** The environment seen by the solvers: a finite MDP with states 0 .. nStates-1,
    an ordered list of action labels shared by every state, and a deterministic,
    total transition function. The grid world behind it is not part of this model. */
module Mdp {

  datatype Option<T> = None | Some(value: T)

  /** Action labels, compared by equality ("up", "down", ...). */
  type Action = string

  /** What `transition_function(state, action)` returns. */
  datatype Transition = Transition(next: nat, reward: real)

  datatype World = World(nStates: nat, actions: seq<Action>, transition: (nat, Action) -> Transition)

  /** The environment's promise: every listed action, taken from a valid state,
      leads to a valid state. The solvers index the value table with `next`. */
  predicate WellFormed(w: World)
  {
    forall s: nat, a: Action :: s < w.nStates && a in w.actions ==> w.transition(s, a).next < w.nStates
  }

  /** The state reached by taking the `i`-th action of the list from `s`. */
  function NextState(w: World, s: nat, i: nat): (t: nat)
    requires WellFormed(w) && s < w.nStates && i < |w.actions|
    ensures t < w.nStates
  {
    w.transition(s, w.actions[i]).next
  }

  /** The reward for taking the `i`-th action of the list from `s`. */
  function Reward(w: World, s: nat, i: nat): real
    requires i < |w.actions|
  {
    w.transition(s, w.actions[i]).reward
  }
}
