/** Transitions of the epsilon-NFA and the epsilon closure of a set of
    states: a least fixpoint, characterized by epsilon paths, and computed by
    a worklist. */
module NfaRules {
  import opened Wrappers

  /** An NFA state. */
  type State = nat

  /** A transition `from -> to`: an epsilon move when `check` is `None`,
      otherwise a move on one symbol accepted by the predicate. */
  datatype Rule<!I> = Rule(from: State, to: State, check: Option<I -> bool>)

  /** The rule is an epsilon move. */
  predicate IsEpsilonRule<I>(r: Rule<I>) {
    r.check.None?
  }

  /** A transition on symbols accepted by `f`. */
  function NewCheck<I>(from: State, to: State, f: I -> bool): (r: Rule<I>)
    ensures !IsEpsilonRule(r) && r.check == Some(f)
    ensures r.from == from && r.to == to
  {
    Rule(from, to, Some(f))
  }

  /** An epsilon transition. */
  function NewEpsilon<I>(from: State, to: State): (r: Rule<I>)
    ensures IsEpsilonRule(r)
    ensures r.from == from && r.to == to
  {
    Rule(from, to, None)
  }

  /** `is_epsilon_rule` tells the two constructors apart: a rule is an
      epsilon move exactly when it is `NewEpsilon` of its endpoints, and a
      symbol move exactly when it is `NewCheck` of its endpoints and its
      predicate. */
  lemma RuleKinds<I>(r: Rule<I>)
    ensures IsEpsilonRule(r) <==> r == NewEpsilon(r.from, r.to)
    ensures !IsEpsilonRule(r) <==> r.check.Some? && r == NewCheck(r.from, r.to, r.check.value)
  {
  }

  /** Some epsilon rule leads from `s` to `t`. */
  predicate EpsilonEdge<I>(rules: seq<Rule<I>>, s: State, t: State) {
    exists k :: 0 <= k < |rules| && IsEpsilonRule(rules[k]) && rules[k].from == s && rules[k].to == t
  }

  /** Every epsilon rule leaving a state of `states` ends in `states`. */
  predicate ClosedUnderEpsilon<I>(states: set<State>, rules: seq<Rule<I>>) {
    forall k :: 0 <= k < |rules| && IsEpsilonRule(rules[k]) && rules[k].from in states ==> rules[k].to in states
  }

  /** The targets of all rules. */
  function Targets<I>(rules: seq<Rule<I>>): set<State> {
    set k | 0 <= k < |rules| :: rules[k].to
  }

  /** The targets of the epsilon rules leaving `states`. */
  function EpsilonSuccessors<I>(states: set<State>, rules: seq<Rule<I>>): (succ: set<State>)
    ensures succ <= Targets(rules)
  {
    set k | 0 <= k < |rules| && IsEpsilonRule(rules[k]) && rules[k].from in states :: rules[k].to
  }

  lemma ProperSubsetSmaller<T>(small: set<T>, big: set<T>, x: T)
    requires small <= big && x in big && x !in small
    ensures |small| < |big|
  {
    assert big == small + (big - small);
    assert x in big - small;
  }

  /** The epsilon closure of `states`: add epsilon successors until nothing
      new appears. */
  function Closure<I>(states: set<State>, rules: seq<Rule<I>>): set<State>
    decreases |Targets(rules) - states|
  {
    var next := states + EpsilonSuccessors(states, rules);
    if next <= states then states
    else
      var x :| x in next && x !in states;
      ProperSubsetSmaller(Targets(rules) - next, Targets(rules) - states, x);
      Closure(next, rules)
  }

  lemma {:induction false} ClosureContainsSeeds<I>(states: set<State>, rules: seq<Rule<I>>)
    ensures states <= Closure(states, rules)
    decreases |Targets(rules) - states|
  {
    var next := states + EpsilonSuccessors(states, rules);
    if !(next <= states) {
      var x :| x in next && x !in states;
      ProperSubsetSmaller(Targets(rules) - next, Targets(rules) - states, x);
      ClosureContainsSeeds(next, rules);
    }
  }

  lemma {:induction false} ClosureIsClosed<I>(states: set<State>, rules: seq<Rule<I>>)
    ensures ClosedUnderEpsilon(Closure(states, rules), rules)
    decreases |Targets(rules) - states|
  {
    var next := states + EpsilonSuccessors(states, rules);
    if next <= states {
      forall k | 0 <= k < |rules| && IsEpsilonRule(rules[k]) && rules[k].from in states
        ensures rules[k].to in states
      {
        assert rules[k].to in EpsilonSuccessors(states, rules);
      }
    } else {
      var x :| x in next && x !in states;
      ProperSubsetSmaller(Targets(rules) - next, Targets(rules) - states, x);
      ClosureIsClosed(next, rules);
    }
  }

  /** The closure lies inside every epsilon-closed superset of the seeds. */
  lemma {:induction false} ClosureIsLeast<I>(states: set<State>, rules: seq<Rule<I>>, bound: set<State>)
    requires states <= bound && ClosedUnderEpsilon(bound, rules)
    ensures Closure(states, rules) <= bound
    decreases |Targets(rules) - states|
  {
    var next := states + EpsilonSuccessors(states, rules);
    if !(next <= states) {
      assert EpsilonSuccessors(states, rules) <= bound;
      var x :| x in next && x !in states;
      ProperSubsetSmaller(Targets(rules) - next, Targets(rules) - states, x);
      ClosureIsLeast(next, rules, bound);
    }
  }

  /** The closure is the least epsilon-closed superset of the seeds. */
  lemma ClosureIsLeastFixpoint<I>(states: set<State>, rules: seq<Rule<I>>)
    ensures states <= Closure(states, rules)
    ensures ClosedUnderEpsilon(Closure(states, rules), rules)
    ensures forall bound: set<State> | states <= bound && ClosedUnderEpsilon(bound, rules) :: Closure(states, rules) <= bound
  {
    ClosureContainsSeeds(states, rules);
    ClosureIsClosed(states, rules);
    forall bound: set<State> | states <= bound && ClosedUnderEpsilon(bound, rules)
      ensures Closure(states, rules) <= bound
    {
      ClosureIsLeast(states, rules, bound);
    }
  }

  lemma ClosureIdempotent<I>(states: set<State>, rules: seq<Rule<I>>)
    ensures Closure(Closure(states, rules), rules) == Closure(states, rules)
  {
    var c := Closure(states, rules);
    ClosureIsClosed(states, rules);
    ClosureContainsSeeds(c, rules);
    ClosureIsLeast(c, rules, c);
  }

  lemma ClosureOfNothing<I>(rules: seq<Rule<I>>)
    ensures Closure({}, rules) == {}
  {
    ClosureIsLeast({}, rules, {});
  }

  /** The closure of a nonempty set is nonempty. */
  lemma ClosureEmptyIff<I>(states: set<State>, rules: seq<Rule<I>>)
    ensures Closure(states, rules) == {} <==> states == {}
  {
    ClosureContainsSeeds(states, rules);
    if states == {} {
      ClosureOfNothing(rules);
    }
  }

  /** `path` follows epsilon rules from its first state to its last. */
  predicate IsEpsilonPath<I>(rules: seq<Rule<I>>, path: seq<State>) {
    && |path| >= 1
    && forall i :: 0 <= i < |path| - 1 ==> EpsilonEdge(rules, path[i], path[i + 1])
  }

  /** `t` can be reached from a state of `states` by epsilon moves alone. */
  ghost predicate EpsilonReachable<I>(states: set<State>, rules: seq<Rule<I>>, t: State) {
    exists path :: IsEpsilonPath(rules, path) && path[0] in states && path[|path| - 1] == t
  }

  lemma {:induction false} PathStaysInClosedSet<I>(rules: seq<Rule<I>>, path: seq<State>, bound: set<State>)
    requires IsEpsilonPath(rules, path) && path[0] in bound && ClosedUnderEpsilon(bound, rules)
    ensures path[|path| - 1] in bound
    decreases |path|
  {
    if |path| > 1 {
      var prefix := path[..|path| - 1];
      assert IsEpsilonPath(rules, prefix) by {
        forall i | 0 <= i < |prefix| - 1
          ensures EpsilonEdge(rules, prefix[i], prefix[i + 1])
        {
          assert prefix[i] == path[i] && prefix[i + 1] == path[i + 1];
        }
      }
      PathStaysInClosedSet(rules, prefix, bound);
      assert EpsilonEdge(rules, path[|path| - 2], path[|path| - 1]);
    }
  }

  /** The states reachable from `states`, all of which are seeds or targets. */
  ghost function ReachableSet<I>(states: set<State>, rules: seq<Rule<I>>): set<State> {
    set t | t in states + Targets(rules) && EpsilonReachable(states, rules, t)
  }

  lemma ReachableSetIsClosedSuperset<I>(states: set<State>, rules: seq<Rule<I>>)
    ensures states <= ReachableSet(states, rules)
    ensures ClosedUnderEpsilon(ReachableSet(states, rules), rules)
  {
    var reach := ReachableSet(states, rules);
    forall s | s in states
      ensures s in reach
    {
      assert IsEpsilonPath(rules, [s]);
    }
    forall k | 0 <= k < |rules| && IsEpsilonRule(rules[k]) && rules[k].from in reach
      ensures rules[k].to in reach
    {
      var path :| IsEpsilonPath(rules, path) && path[0] in states && path[|path| - 1] == rules[k].from;
      var longer := path + [rules[k].to];
      assert EpsilonEdge(rules, longer[|path| - 1], longer[|path|]);
      assert IsEpsilonPath(rules, longer) by {
        forall i | 0 <= i < |longer| - 1
          ensures EpsilonEdge(rules, longer[i], longer[i + 1])
        {
          if i < |path| - 1 {
            assert longer[i] == path[i] && longer[i + 1] == path[i + 1];
          }
        }
      }
      assert rules[k].to in Targets(rules);
    }
  }

  /** A state is in the closure exactly when an epsilon path reaches it from
      a seed. */
  lemma ClosureIsReachability<I>(states: set<State>, rules: seq<Rule<I>>, t: State)
    ensures t in Closure(states, rules) <==> EpsilonReachable(states, rules, t)
  {
    var c := Closure(states, rules);
    if t in c {
      ReachableSetIsClosedSuperset(states, rules);
      ClosureIsLeast(states, rules, ReachableSet(states, rules));
    }
    if EpsilonReachable(states, rules, t) {
      var path :| IsEpsilonPath(rules, path) && path[0] in states && path[|path| - 1] == t;
      ClosureContainsSeeds(states, rules);
      ClosureIsClosed(states, rules);
      PathStaysInClosedSet(rules, path, c);
    }
  }

  /** The states listed in `s`. */
  function StateSet(s: seq<State>): (states: set<State>)
    ensures forall x :: x in states <==> x in s
  {
    set x | x in s
  }

  /** Every epsilon rule leaving `s` ends in `states`. */
  predicate Expanded<I>(s: State, states: set<State>, rules: seq<Rule<I>>) {
    forall k :: 0 <= k < |rules| && IsEpsilonRule(rules[k]) && rules[k].from == s ==> rules[k].to in states
  }

  /** One pass over the rules for the popped state `s`: every epsilon
      successor of `s` not yet in `result` is added to it and pushed. */
  method PushEpsilonSuccessors<I>(s: State, rules: seq<Rule<I>>, result: set<State>, queue: seq<State>)
    returns (result': set<State>, queue': seq<State>)
    ensures result' == result + EpsilonSuccessors({s}, rules)
    ensures Expanded(s, result', rules)
    ensures forall x :: x in queue' <==> x in queue || x in result' - result
    ensures result' == result ==> queue' == queue
  {
    result', queue' := result, queue;
    var j := 0;
    while j < |rules|
      invariant 0 <= j <= |rules|
      invariant result' == result + set k | 0 <= k < j && IsEpsilonRule(rules[k]) && rules[k].from == s :: rules[k].to
      invariant forall x :: x in queue' <==> x in queue || x in result' - result
      invariant result' == result ==> queue' == queue
    {
      var r := rules[j];
      if r.from == s && IsEpsilonRule(r) && r.to !in result' {
        result' := result' + {r.to};
        queue' := queue' + [r.to];
      }
      j := j + 1;
    }
    assert (set k | 0 <= k < |rules| && IsEpsilonRule(rules[k]) && rules[k].from == s :: rules[k].to)
        == EpsilonSuccessors({s}, rules);
  }

  /** After popping `s` from `popped + [s]` and expanding it, every state
      of the result that is not waiting on the stack has been expanded. */
  lemma ExpandedAfterPop<I>(rules: seq<Rule<I>>, s: State, popped: seq<State>, before: set<State>,
                            result: set<State>, queue: seq<State>)
    requires before <= result
    requires forall t :: t in before && t !in popped + [s] ==> Expanded(t, before, rules)
    requires Expanded(s, result, rules)
    requires forall x :: x in queue <==> x in popped || x in result - before
    ensures forall t :: t in result && t !in queue ==> Expanded(t, result, rules)
  {
    forall t | t in result && t !in queue
      ensures Expanded(t, result, rules)
    {
      if t != s {
        assert t in before && t !in popped + [s];
      }
    }
  }

  /** The epsilon successors of a member of an epsilon-closed set are in it. */
  lemma SuccessorsStayInClosed<I>(s: State, rules: seq<Rule<I>>, closed: set<State>)
    requires s in closed && ClosedUnderEpsilon(closed, rules)
    ensures EpsilonSuccessors({s}, rules) <= closed
  {
    forall k | 0 <= k < |rules| && IsEpsilonRule(rules[k]) && rules[k].from in {s}
      ensures rules[k].to in closed
    {
    }
  }

  /** The epsilon closure of `fromStates`, computed with a stack of states
      whose epsilon successors are still to be visited; a state is pushed
      only when it is first added to the result. */
  method EpsilonClosure<I>(fromStates: seq<State>, rules: seq<Rule<I>>) returns (result: set<State>)
    ensures result == Closure(StateSet(fromStates), rules)
  {
    ghost var seeds := StateSet(fromStates);
    ghost var target := Closure(seeds, rules);
    ghost var universe := seeds + Targets(rules);
    ClosureContainsSeeds(seeds, rules);
    ClosureIsClosed(seeds, rules);
    result := StateSet(fromStates);
    var queue := fromStates;
    while |queue| > 0
      invariant seeds <= result <= target
      invariant result <= universe
      invariant forall x :: x in queue ==> x in result
      invariant forall t :: t in result && t !in queue ==> Expanded(t, result, rules)
      decreases |universe - result|, |queue|
    {
      var s := queue[|queue| - 1];
      var popped := queue[..|queue| - 1];
      ghost var before := result;
      assert queue == popped + [s];
      SuccessorsStayInClosed(s, rules, target);
      result, queue := PushEpsilonSuccessors(s, rules, result, popped);
      ExpandedAfterPop(rules, s, popped, before, result, queue);
      if result != before {
        var x :| x in result && x !in before;
        ProperSubsetSmaller(universe - result, universe - before, x);
      }
    }
    ClosureIsLeast(seeds, rules, result);
  }
}
