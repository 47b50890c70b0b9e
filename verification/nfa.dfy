/** The epsilon-NFA simulator: a set of current states advanced one input
    symbol at a time, always kept closed under epsilon moves. */
module EpsilonNfa {
  import opened Wrappers
  import opened NfaRules

  /** The machine: the epsilon closure of its first state, the states it is
      in now, its rules and its accepting states. */
  datatype EpsilonNFA<!I> = EpsilonNFA(initialState: set<State>, currentState: set<State>,
                                       rules: seq<Rule<I>>, goalStates: set<State>)

  /** Whether feeding input succeeded, and the machine afterwards. */
  datatype Step<!I> = Step(ok: bool, nfa: EpsilonNFA<I>)

  /** Both state sets are nonempty and closed under epsilon moves. */
  predicate Valid<I>(nfa: EpsilonNFA<I>) {
    && nfa.initialState != {} && ClosedUnderEpsilon(nfa.initialState, nfa.rules)
    && nfa.currentState != {} && ClosedUnderEpsilon(nfa.currentState, nfa.rules)
  }

  /** A machine in the epsilon closure of `firstState`. */
  method New<I>(firstState: State, rules: seq<Rule<I>>, goalStates: set<State>) returns (nfa: EpsilonNFA<I>)
    ensures nfa.initialState == nfa.currentState == Closure({firstState}, rules)
    ensures nfa.rules == rules && nfa.goalStates == goalStates
    ensures firstState in nfa.currentState
    ensures Valid(nfa)
  {
    var closure := EpsilonClosure([firstState], rules);
    assert StateSet([firstState]) == {firstState};
    ClosureContainsSeeds({firstState}, rules);
    ClosureIsClosed({firstState}, rules);
    nfa := EpsilonNFA(closure, closure, rules, goalStates);
  }

  /** Rule `r` is a symbol move out of `states` that accepts `input`. */
  predicate Fires<I>(r: Rule<I>, states: set<State>, input: I) {
    r.check.Some? && r.check.value(input) && r.from in states
  }

  /** The targets of all rules that fire on `input` out of `states`. */
  function FiredTargets<I>(states: set<State>, rules: seq<Rule<I>>, input: I): set<State> {
    set k | 0 <= k < |rules| && Fires(rules[k], states, input) :: rules[k].to
  }

  /** `try_update`: move along every firing symbol rule and take the epsilon
      closure. When nothing fires the machine is left as it was. */
  function Update<I>(nfa: EpsilonNFA<I>, input: I): (st: Step<I>)
    ensures st.ok <==> exists k :: 0 <= k < |nfa.rules| && Fires(nfa.rules[k], nfa.currentState, input)
    ensures !st.ok ==> st.nfa == nfa
    ensures st.ok ==> st.nfa == nfa.(currentState := st.nfa.currentState)
    ensures st.ok ==> forall t :: t in st.nfa.currentState <==>
      EpsilonReachable(FiredTargets(nfa.currentState, nfa.rules, input), nfa.rules, t)
    ensures st.ok ==> st.nfa.currentState != {} && ClosedUnderEpsilon(st.nfa.currentState, nfa.rules)
  {
    var fired := FiredTargets(nfa.currentState, nfa.rules, input);
    var next := Closure(fired, nfa.rules);
    ClosureEmptyIff(fired, nfa.rules);
    ClosureIsClosed(fired, nfa.rules);
    assert fired == {} <==> !exists k :: 0 <= k < |nfa.rules| && Fires(nfa.rules[k], nfa.currentState, input) by {
      if k :| 0 <= k < |nfa.rules| && Fires(nfa.rules[k], nfa.currentState, input) {
        assert nfa.rules[k].to in fired;
      }
    }
    assert forall t :: t in next <==> EpsilonReachable(fired, nfa.rules, t) by {
      forall t ensures t in next <==> EpsilonReachable(fired, nfa.rules, t) {
        ClosureIsReachability(fired, nfa.rules, t);
      }
    }
    if next == {} then Step(false, nfa)
    else Step(true, nfa.(currentState := next))
  }

  /** The targets of the symbol rules among the first `j` leaving `s` that
      accept `input`. */
  function FiredFrom<I>(s: State, rules: seq<Rule<I>>, input: I, j: nat): set<State>
    requires j <= |rules|
  {
    set k | 0 <= k < j && Fires(rules[k], {s}, input) :: rules[k].to
  }

  lemma FiredFromNext<I>(s: State, rules: seq<Rule<I>>, input: I, j: nat)
    requires j < |rules|
    ensures FiredFrom(s, rules, input, j + 1)
         == FiredFrom(s, rules, input, j) + (if Fires(rules[j], {s}, input) then {rules[j].to} else {})
  {
  }

  lemma FiredTargetsAdd<I>(done: set<State>, s: State, rules: seq<Rule<I>>, input: I)
    ensures FiredTargets(done + {s}, rules, input) == FiredTargets(done, rules, input) + FiredFrom(s, rules, input, |rules|)
  {
  }

  /** The targets, in rule order, of the symbol rules leaving `s` that
      accept `input`, appended to `matched`. */
  method CollectFiredFrom<I>(s: State, rules: seq<Rule<I>>, input: I, matched: seq<State>)
    returns (matched': seq<State>)
    ensures StateSet(matched') == StateSet(matched) + FiredFrom(s, rules, input, |rules|)
  {
    matched' := matched;
    var j := 0;
    while j < |rules|
      invariant 0 <= j <= |rules|
      invariant StateSet(matched') == StateSet(matched) + FiredFrom(s, rules, input, j)
    {
      FiredFromNext(s, rules, input, j);
      var r := rules[j];
      if r.check.Some? && r.check.value(input) && r.from == s {
        matched' := matched' + [r.to];
      }
      j := j + 1;
    }
  }

  /** The targets of every firing rule out of every current state, visiting
      the states one by one and the rules in order for each. */
  method MatchedNextStates<I>(current: set<State>, rules: seq<Rule<I>>, input: I) returns (matched: seq<State>)
    ensures StateSet(matched) == FiredTargets(current, rules, input)
  {
    matched := [];
    var pending := current;
    while pending != {}
      invariant pending <= current
      invariant StateSet(matched) == FiredTargets(current - pending, rules, input)
      decreases |pending|
    {
      var s :| s in pending;
      FiredTargetsAdd(current - pending, s, rules, input);
      matched := CollectFiredFrom(s, rules, input, matched);
      assert current - (pending - {s}) == (current - pending) + {s};
      pending := pending - {s};
    }
    assert current - pending == current;
  }

  /** `try_update` as its loops compute it: gather the targets of every
      firing rule out of every current state, close them under epsilon
      moves, and move there unless the result is empty. */
  method TryUpdate<I>(nfa: EpsilonNFA<I>, input: I) returns (ok: bool, next: EpsilonNFA<I>)
    ensures Step(ok, next) == Update(nfa, input)
    ensures ok <==> exists k :: 0 <= k < |nfa.rules| && Fires(nfa.rules[k], nfa.currentState, input)
  {
    var matched := MatchedNextStates(nfa.currentState, nfa.rules, input);
    var closure := EpsilonClosure(matched, nfa.rules);
    if closure == {} {
      return false, nfa;
    }
    return true, nfa.(currentState := closure);
  }

  /** `reset`: back to the closure of the first state. */
  function Reset<I>(nfa: EpsilonNFA<I>): (n: EpsilonNFA<I>)
    ensures n.currentState == nfa.initialState
    ensures n.initialState == nfa.initialState && n.rules == nfa.rules && n.goalStates == nfa.goalStates
    ensures Valid(nfa) ==> Valid(n)
  {
    nfa.(currentState := nfa.initialState)
  }

  /** `run`: feed the symbols in order, stopping at the first one on which
      nothing fires; the later symbols are not consumed. */
  function Run<I>(nfa: EpsilonNFA<I>, inputs: seq<I>): (st: Step<I>)
    ensures st.nfa.initialState == nfa.initialState && st.nfa.rules == nfa.rules
    ensures st.nfa.goalStates == nfa.goalStates
    ensures Valid(nfa) ==> Valid(st.nfa)
    decreases |inputs|
  {
    if |inputs| == 0 then Step(true, nfa)
    else
      var st := Update(nfa, inputs[0]);
      if !st.ok then Step(false, st.nfa)
      else Run(st.nfa, inputs[1..])
  }

  /** `accept`: run, then check whether a goal state is current. The
      machine is not reset first. */
  function Accept<I>(nfa: EpsilonNFA<I>, inputs: seq<I>): (st: Step<I>)
    ensures st.nfa == Run(nfa, inputs).nfa
  {
    var r := Run(nfa, inputs);
    Step(r.ok && r.nfa.goalStates * r.nfa.currentState != {}, r.nfa)
  }

  /** Running on `u + v` is running on `u`, then, if that succeeded, on
      `v` from where it stopped. */
  lemma {:induction false} RunAppend<I>(nfa: EpsilonNFA<I>, u: seq<I>, v: seq<I>)
    ensures Run(nfa, u + v) == if Run(nfa, u).ok then Run(Run(nfa, u).nfa, v) else Run(nfa, u)
    decreases |u|
  {
    if |u| == 0 {
      assert u + v == v;
    } else {
      assert (u + v)[0] == u[0] && (u + v)[1..] == u[1..] + v;
      var st := Update(nfa, u[0]);
      if st.ok {
        RunAppend(st.nfa, u[1..], v);
      }
    }
  }

  /** Every symbol of `inputs[..i]` succeeded and nothing fired on
      `inputs[i]`. */
  predicate FailsFirstAt<I>(nfa: EpsilonNFA<I>, inputs: seq<I>, i: nat)
    requires i < |inputs|
  {
    Run(nfa, inputs[..i]).ok && !Update(Run(nfa, inputs[..i]).nfa, inputs[i]).ok
  }

  /** A failed run stopped at its first failing symbol, and the machine is
      left as it was before that symbol: the later symbols are not
      consumed. */
  lemma {:induction false} RunStopsAtFirstFailure<I>(nfa: EpsilonNFA<I>, inputs: seq<I>)
    requires !Run(nfa, inputs).ok
    ensures exists i: nat :: i < |inputs| && FailsFirstAt(nfa, inputs, i)
                             && Run(nfa, inputs).nfa == Run(nfa, inputs[..i]).nfa
    decreases |inputs|
  {
    var st := Update(nfa, inputs[0]);
    if !st.ok {
      assert inputs[..0] == [];
      assert FailsFirstAt(nfa, inputs, 0);
    } else {
      var rest := inputs[1..];
      RunStopsAtFirstFailure(st.nfa, rest);
      var i: nat :| i < |rest| && FailsFirstAt(st.nfa, rest, i) && Run(st.nfa, rest).nfa == Run(st.nfa, rest[..i]).nfa;
      assert Run(nfa, inputs[..i + 1]) == Run(st.nfa, rest[..i]) by {
        PrefixTail(inputs, i);
      }
      assert inputs[i + 1] == rest[i];
      assert FailsFirstAt(nfa, inputs, i + 1);
    }
  }

  lemma PrefixTail<T>(s: seq<T>, i: nat)
    requires i < |s|
    ensures s[..i + 1][0] == s[0] && s[..i + 1][1..] == s[1..][..i]
  {
  }

  /** The textbook subset simulation: the states reachable from `states`
      by reading `inputs`, with no early stop. */
  function ReachAfter<I>(states: set<State>, rules: seq<Rule<I>>, inputs: seq<I>): set<State>
    decreases |inputs|
  {
    if |inputs| == 0 then states
    else ReachAfter(Closure(FiredTargets(states, rules, inputs[0]), rules), rules, inputs[1..])
  }

  lemma {:induction false} ReachAfterNothing<I>(rules: seq<Rule<I>>, inputs: seq<I>)
    ensures ReachAfter({}, rules, inputs) == {}
    decreases |inputs|
  {
    if |inputs| > 0 {
      assert FiredTargets({}, rules, inputs[0]) == {};
      ClosureOfNothing(rules);
      ReachAfterNothing(rules, inputs[1..]);
    }
  }

  /** Stopping at the first failure loses nothing: a run from a nonempty
      state set succeeds exactly when the subset simulation ends nonempty,
      and then ends in the same states. */
  lemma {:induction false} RunIsSubsetSimulation<I>(nfa: EpsilonNFA<I>, inputs: seq<I>)
    requires nfa.currentState != {}
    ensures Run(nfa, inputs).ok <==> ReachAfter(nfa.currentState, nfa.rules, inputs) != {}
    ensures Run(nfa, inputs).ok ==> Run(nfa, inputs).nfa.currentState == ReachAfter(nfa.currentState, nfa.rules, inputs)
    decreases |inputs|
  {
    if |inputs| > 0 {
      var st := Update(nfa, inputs[0]);
      var fired := FiredTargets(nfa.currentState, nfa.rules, inputs[0]);
      if st.ok {
        RunIsSubsetSimulation(st.nfa, inputs[1..]);
      } else {
        ClosureEmptyIff(fired, nfa.rules);
        ReachAfterNothing(nfa.rules, inputs[1..]);
      }
    }
  }

  /** `accept` from a nonempty state set holds exactly when the subset
      simulation reaches a goal state. */
  lemma AcceptIsSubsetAcceptance<I>(nfa: EpsilonNFA<I>, inputs: seq<I>)
    requires nfa.currentState != {}
    ensures Accept(nfa, inputs).ok <==> ReachAfter(nfa.currentState, nfa.rules, inputs) * nfa.goalStates != {}
  {
    RunIsSubsetSimulation(nfa, inputs);
    var reach := ReachAfter(nfa.currentState, nfa.rules, inputs);
    if reach == {} {
      assert reach * nfa.goalStates == {};
    }
  }

  /** Whatever was run, `reset` returns the machine to where `new` put it,
      so a rerun after `reset` does not depend on earlier runs. */
  lemma ResetUndoesRun<I>(nfa: EpsilonNFA<I>, earlier: seq<I>, inputs: seq<I>)
    ensures Reset(Run(nfa, earlier).nfa) == Reset(nfa)
    ensures Run(Reset(Run(nfa, earlier).nfa), inputs) == Run(Reset(nfa), inputs)
  {
  }
}
