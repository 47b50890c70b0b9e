# vec-reg regex core, modelled in Dafny

vec-reg is a Rust regular-expression library over sequences of arbitrary
symbols. A pattern is a tree of symbol predicates and combinators. This
project models two pure pieces of it and proves properties about them.

- **The VM compiler** (`compiler.rs`).
  - It lays a regex tree out as VM bytecode. Each node becomes one contiguous
    block of instructions.
  - `Split` and `Jmp` targets are absolute program counters.
  - Greediness is encoded only by the order of a `Split`'s operands.
  - Capture groups are numbered in pre-order.
  - Counted repetition is first rewritten into concatenations of copies of the
    body, its `?` form or its `+` form.
  - The public wrapper compiles `.*?(R).*?`, so the user's pattern becomes
    capture group 0.
  - `find` and `captures` turn the winning VM thread's saved slots into spans.
    Group `g` uses slots `2g` and `2g+1`.
- **The epsilon-NFA simulator** (`nfa.rs`).
  - Rules are either epsilon moves or moves guarded by a symbol predicate.
  - `epsilon_closure` is a worklist computation.
  - The machine tracks a set of current states. `try_update`, `reset`, `run`
    and `accept` advance, restore and test it.

Modules:

- `Wrappers`: `Option`, and `Outcome`, which models a Rust `panic!`.
- `RegexSyntax`: the `Regex` tree, with the measures `Size` and `GroupCount`
  and the well-formedness condition on repetition bounds.
- `VmInst`: the instruction set, and facts about instruction sequences.
- `Expansion`: the desugaring of `r{n}`, `r{n,m}` and `r{n,}`.
- `VmCompiler`: the recursive compiler.
- `CompilerProperties`: per-construct layout facts.
- `CompiledVm`: the whole program and the unanchored wrapper.
- `MatchResults`: `find` and `captures`.
- `NfaRules`: rules and the epsilon closure.
- `EpsilonNfa`: the simulator.

`NotSatisfy(f)` is kept exactly as written. It compiles to the same
`Check(f)` as `Satisfy(f)`, so this compiler performs no negation. The lemma
`CompilerProperties.NotSatisfyCompilesLikeSatisfy` states this.

The epsilon closure has a functional definition, `NfaRules.Closure`: add
epsilon successors until nothing changes. Three things are proved about it:

- It is the least epsilon-closed superset of its seeds.
- It is exactly the set of states reachable from a seed by epsilon moves.
- The worklist method `EpsilonClosure` computes it.

The simulator's `run` is also related to the textbook subset simulation,
which has no early stop. From a nonempty state set, a run succeeds exactly
when the subset simulation ends nonempty, and it then ends in the same
states. `accept` gives the same answer as subset acceptance. A failed run
keeps the states from before the failing symbol, whereas the subset
simulation ends empty.

## Model

| member | source | states |
|---|---|---|
| VmCompiler.CompileRegexIsBlock | common/src/regex/vm/compiler.rs:104-245 | Every node compiles to one gap-free block at `[startPc, endPc]`: its length is `endPc - startPc + 1` and `endPc >= startPc`. Every `Split`/`Jmp` target lies in `[startPc, endPc + 1]`. The block holds no `Match`. It opens exactly the groups `nextGroup, ..., nextGroup + GroupCount(reg) - 1`, in that (pre-)order. It closes as many groups as it opens, all from that range. The returned next index is `nextGroup + GroupCount(reg)`. |
| VmCompiler.CompiledSpan | common/src/regex/vm/compiler.rs:104-245 | The `(insts, end_pc, next_group_index)` triple is consistent: the code fills exactly the pcs `startPc .. endPc`, and the returned group index is the input index plus the number of capture groups in the tree. |
| CompilerProperties.NotSatisfyCompilesLikeSatisfy | common/src/regex/vm/compiler.rs:121-128 | `NotSatisfy(f)` compiles to `[Check(f)]`, the same block as `Satisfy(f)`: no negation is emitted. |
| CompilerProperties.ConcatBackToBack | common/src/regex/vm/compiler.rs:129-138 | `rs` is the block of `r` directly followed by the block of `s`. The block of `s` starts at `r`'s end + 1 and numbers its groups after `r`'s. |
| CompilerProperties.GroupMarkers | common/src/regex/vm/compiler.rs:139-148 | `(r)` is `SaveOpen(g)`, then the block of `r` numbered from `g + 1`, then `SaveClose(g)`. |
| CompilerProperties.NamedGroupMarkers | common/src/regex/vm/compiler.rs:149-158 | `(?<name>r)` is `SaveNamedOpen(name, g)`, then the block of `r` numbered from `g + 1`, then `SaveNamedClose(name, g)`. |
| CompilerProperties.NonCapturingGroupIsTransparent | common/src/regex/vm/compiler.rs:159-166 | `(?:r)` compiles to exactly what `r` does and consumes no group index. |
| CompilerProperties.OrPrefersLeft | common/src/regex/vm/compiler.rs:167-182 | `r\|s` is `Split(start + 1, sStart)`, then the block of `r`, then `Jmp(end + 1)`, then the block of `s` at `sStart`. So the left branch has priority and never falls through into the right one. |
| CompilerProperties.ZeroOrOneGreediness | common/src/regex/vm/compiler.rs:183-196 | Greedy `r?` starts with `Split(body, after)` and lazy `r?` with `Split(after, body)`. Everything after that `Split` is the same body block in both. |
| CompilerProperties.Repeat0Greediness | common/src/regex/vm/compiler.rs:197-212 | `r*` is a `Split`, the body, then `Jmp(start)` back to the `Split`. Greedy and lazy differ only in the `Split`'s operand order: greedy enters the body first. |
| CompilerProperties.Repeat1Greediness | common/src/regex/vm/compiler.rs:213-225 | `r+` is the body, then a `Split` between `start` and `end + 1`. Greedy loops back first and lazy leaves first. Nothing else differs. |
| Expansion.ExpandRepeatNFacts | common/src/regex/vm/compiler.rs:226-233 | The expansion of `r{n}` is well-formed and has the same group count. Compiling `RepeatN` by compiling its expansion therefore numbers groups as the tree's pre-order over the copies. |
| Expansion.ExpandRepeatMinMaxFacts | common/src/regex/vm/compiler.rs:234-241 | The same facts for `r{n,m}` and `r{n,}`. |
| Expansion.Copies | common/src/regex/vm/compiler.rs:248 | `vec![r; n]` has length `n`, and every element is `r`. |
| Expansion.ExpandRepeatNOperands | common/src/regex/vm/compiler.rs:247-250 | `r{n}` splits back into exactly `n` operands, each of them `r`. |
| Expansion.ExpandRepeatMinMaxOperands | common/src/regex/vm/compiler.rs:252-274 | With an upper bound `m`, `r{n,m}` splits into `m` operands: `r` at the first `n` and `r?` (same greediness) at the remaining `m - n`. Without a bound, `r{n,}` splits into `n` operands: `r` at the first `n - 1` and `r+` last. |
| Expansion.ExpandBoundedGroups | common/src/regex/vm/compiler.rs:252-274 | With an upper bound `m`, the expansion of `r{n,m}` is well-formed and holds `m` times the groups of `r`: `n` copies of `r` and `m - n` copies of `r?`. |
| Expansion.UnboundedListSums | common/src/regex/vm/compiler.rs:266-271 | Without an upper bound, the operand list of `r{n,}` is well-formed, holds `n` times the groups of `r`, and its sizes sum to `n - 1` copies of `r` plus one `r+`. |
| Expansion.ConcatRegexListMeasures | common/src/regex/vm/compiler.rs:276-288 | Joining a nonempty list yields a tree whose size is the operands' sizes plus one `Concat` node per extra operand, and whose groups are the sum of the operands' groups. It is well-formed when every operand is. |
| Expansion.ConcatRegexListRoundTrip | common/src/regex/vm/compiler.rs:276-288 | Splitting the joined regex back into `\|regs\|` operands returns `regs`. The left fold keeps every element, in order, with no duplicates. |
| Expansion.ConcatRegexListLeftNested | common/src/regex/vm/compiler.rs:276-288 | For two or more elements, the join is `Concat(join(all but last), last)`: it nests to the left. |
| CompiledVm.CompileRegexToVmInsts | common/src/regex/vm/compiler.rs:97-102 | The program's last instruction is its only `Match`. Every branch target is a valid index of the program. The groups opened are exactly `0 .. GroupCount(reg) - 1`, in order. |
| CompiledVm.Unanchored | common/src/regex/vm/compiler.rs:15-27 | `.*?(R).*?` is well-formed exactly when `R` is, and has one more group than `R`. |
| CompiledVm.Compile | common/src/regex/vm/compiler.rs:8-31 | The program is a lazy any-symbol loop (`Split(3, 1)`, `Check`, `Jmp(0)`), then `SaveOpen(0)`, then the pattern compiled at pc 4 with groups from 1, then `SaveClose(0)`, then a second lazy loop, then `Match`. It is a valid program, and it opens groups `0 .. GroupCount(R)`. So the whole match is group 0. |
| MatchResults.Find | common/src/regex/vm/compiler.rs:47-66 | No winner gives no match. Otherwise the result is the span `saved[0] .. saved[1]`. A missing slot 0 panics with "missing 0th capture". A slot 0 without slot 1 panics with "asymmetric saved position". |
| MatchResults.CaptureLocationsFrom | common/src/regex/vm/compiler.rs:71-84 | On success, the list is the spans of groups `g, g+1, ...`, each with both slots present, and it stops exactly at the first group with no start slot. Otherwise some group before that stop has a start but no end, and the result is the "asymmetric" panic. |
| MatchResults.CapturesOf | common/src/regex/vm/compiler.rs:68-94 | No winner gives `None`. Otherwise the result is the spans of groups `0 .. k-1`, where `k` is the first group with no start slot, together with the thread's name-to-index table. A failure is always the "asymmetric" panic. |
| MatchResults.CapturesPanicsIffAsymmetric | common/src/regex/vm/compiler.rs:71-84 | `captures` panics exactly when some group `j` has its end slot missing while groups `0..j` all have their start slots. |
| MatchResults.FindAgreesWithCaptures | common/src/regex/vm/compiler.rs:47-94 | `find` and `captures` report "no match" together. When both succeed, group 0 of `captures` is the span `find` returns. An asymmetric group 0 makes both fail. With slot 0 absent, `find` panics while `captures` returns an empty list. |
| NfaRules.NewCheck | common/src/regex/nfa.rs:37-43 | Builds a non-epsilon rule carrying the predicate, with `from`/`to` stored unchanged. |
| NfaRules.NewEpsilon | common/src/regex/nfa.rs:45-51 | Builds an epsilon rule, with `from`/`to` stored unchanged. |
| NfaRules.RuleKinds | common/src/regex/nfa.rs:36-55 | `is_epsilon_rule` holds exactly for the rules `new_epsilon` builds, and fails exactly for those `new_check` builds from their endpoints and predicate. |
| NfaRules.ClosureIsLeastFixpoint | common/src/regex/nfa.rs:58-77 | The closure contains every seed and is closed under epsilon rules. It is contained in every epsilon-closed superset of the seeds. |
| NfaRules.ClosureIsReachability | common/src/regex/nfa.rs:58-77 | A state is in the closure exactly when an epsilon-only path reaches it from a seed. |
| NfaRules.ClosureIdempotent | common/src/regex/nfa.rs:58-77 | Closing a closure changes nothing. |
| NfaRules.ClosureEmptyIff | common/src/regex/nfa.rs:58-77 | The closure is empty exactly when there are no seeds. |
| NfaRules.PushEpsilonSuccessors | common/src/regex/nfa.rs:68-73 | One pass over the rules for a popped state adds exactly its epsilon successors to the result. It pushes exactly the states that were new, and pushes nothing when nothing was new. |
| NfaRules.EpsilonClosure | common/src/regex/nfa.rs:58-77 | The worklist, which pops from the end and pushes only newly inserted states, terminates. It returns exactly the least closure of the listed seeds. |
| EpsilonNfa.New | common/src/regex/nfa.rs:108-117 | The initial and current state sets are both the closure of the first state, which contains it. Rules and goals are stored. The machine is valid: both sets are nonempty and epsilon-closed. |
| EpsilonNfa.Update | common/src/regex/nfa.rs:119-137 | Succeeds exactly when some symbol rule out of a current state accepts the input; on failure nothing changes. On success only the current set changes. It becomes exactly the states epsilon-reachable from the fired rules' targets, which is nonempty and epsilon-closed. |
| EpsilonNfa.MatchedNextStates | common/src/regex/nfa.rs:120-129 | The nested loops over current states and rules collect exactly the targets of the firing symbol rules. |
| EpsilonNfa.CollectFiredFrom | common/src/regex/nfa.rs:122-128 | The pass over the rules for one state adds exactly the targets of that state's firing symbol rules. |
| EpsilonNfa.TryUpdate | common/src/regex/nfa.rs:119-137 | The loop-and-closure computation yields the same outcome and machine as `Update`. It succeeds exactly when a symbol rule fires. |
| EpsilonNfa.Reset | common/src/regex/nfa.rs:140-142 | The current set becomes the initial set. Nothing else changes, and validity is kept. |
| EpsilonNfa.Run | common/src/regex/nfa.rs:145-152 | A run never changes the initial set, the rules or the goals, and it keeps the machine valid. |
| EpsilonNfa.RunAppend | common/src/regex/nfa.rs:145-152 | Running `u + v` is running `u`, then, only if that succeeded, running `v` from where it ended. |
| EpsilonNfa.RunStopsAtFirstFailure | common/src/regex/nfa.rs:145-152 | A failed run has a first symbol `inputs[i]` on which nothing fired, after all earlier symbols succeeded. The machine is left exactly as after `inputs[..i]`, so later symbols are not consumed. |
| EpsilonNfa.RunIsSubsetSimulation | common/src/regex/nfa.rs:145-152 | From a nonempty state set, a run succeeds exactly when the early-stop-free subset simulation ends nonempty. It then ends in the same states. |
| EpsilonNfa.Accept | common/src/regex/nfa.rs:155-161 | `accept` leaves the machine where `run` leaves it. It does not reset first. |
| EpsilonNfa.AcceptIsSubsetAcceptance | common/src/regex/nfa.rs:155-161 | From a nonempty state set, `accept` holds exactly when the subset simulation reaches a goal state. |
| EpsilonNfa.ResetUndoesRun | common/src/regex/nfa.rs:140-152 | After any run, `reset` returns the machine to its post-`new` state. A rerun after `reset` therefore does not depend on earlier runs. |

## Left out

- `run_vm`, the Pike-VM thread scheduler, is not part of this model. `find` and `captures` take its result, the winning thread or none, as a parameter.
- `is_match` is only `run_vm(...).is_some()`, so it is left out with the runner.
- `dump_insts` and the `Debug` impls only print.
- The `Clone` impls are left out. `Rc` sharing has no meaning in a value model.
- The NFA compiler submodule (`compile_regex_to_nfa`, `CompiledRegexInNFA`) is not part of this model.
- The crate-root `Regex`, `Match` and `Captures` types are not part of this model. They are re-declared with only the shape used here.
- RegexSyntax.WellFormed: some repetition bounds make `compiler.rs` panic or underflow `usize`: `r{0}`, `r{n,0}`, `r{n,m}` with `n > m`, and `r{0,}`. They are excluded by this precondition rather than modelled as wrap-around. `HasBadRepeat` finds such a node anywhere in the tree.
- VmCompiler.CompileRegexIsBlock: the closing markers are stated weaker than "a permutation of the opened groups". The contract gives their count and that each is in the block's range. Together with `GroupMarkers` for each group node, this pins every close to its own open.
- Integer width: program counters, group indices, input positions and states are unbounded naturals. `usize` overflow is not modelled.
- Symbol predicates are pure, total Dafny functions. Side effects in a predicate are not modelled.
- The order in which `BTreeSet` iterates the current states, and the order of matched targets, are not modelled. Only their set affects the closure, and the model iterates the current set in an unspecified order.
- EpsilonNfa.Run, EpsilonNfa.Accept: `&mut self` methods are modelled as functions from a machine to `Step(ok, machine)`. They are built on `Update`, which `TryUpdate` is proved to compute.
