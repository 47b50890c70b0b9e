/** A whole VM program: the compiled pattern followed by a single `Match`,
    and the unanchored wrapper that makes the pattern capture group 0. */
module CompiledVm {
  import opened RegexSyntax
  import opened VmInst
  import opened VmCompiler
  import opened CompilerProperties

  /** A program the VM can run: its last instruction is its only `Match`,
      and every branch target is an index of the program. */
  predicate IsProgram<I>(prog: seq<Inst<I>>) {
    && |prog| >= 1
    && (forall k :: 0 <= k < |prog| ==> (prog[k].Match? <==> k == |prog| - 1))
    && (forall k :: 0 <= k < |prog| ==> InstTargetsWithin(prog[k], 0, |prog| - 1))
  }

  /** Compiles `reg` from program counter 0 and group 0 and appends `Match`. */
  function CompileRegexToVmInsts<I>(reg: Regex<I>): (prog: seq<Inst<I>>)
    requires WellFormed(reg)
    ensures IsProgram(prog)
    ensures OpenedGroups(prog) == Range(0, GroupCount(reg))
    ensures |ClosedGroups(prog)| == GroupCount(reg)
    ensures GroupsWithin(ClosedGroups(prog), 0, GroupCount(reg))
  {
    var c := CompileRegex(reg, 0, 0);
    CompileRegexIsBlock(reg, 0, 0);
    BlockThenMatch(c, GroupCount(reg));
    c.insts + [Match]
  }

  /** A block spanning pcs `0..c.endPc` that numbers groups `0..groups`,
      followed by `Match`, is a program whose groups are exactly those. */
  lemma BlockThenMatch<I>(c: Compiled<I>, groups: nat)
    requires |c.insts| == c.endPc + 1
    requires Block(c.insts, 0, c.endPc + 1, 0, groups)
    ensures var prog := c.insts + [Match];
      && IsProgram(prog)
      && OpenedGroups(prog) == Range(0, groups)
      && |ClosedGroups(prog)| == groups
      && GroupsWithin(ClosedGroups(prog), 0, groups)
  {
    var prog := c.insts + [Match];
    assert forall k :: 0 <= k < |prog| ==> InstTargetsWithin(prog[k], 0, |prog| - 1) by {
      SingleInst<I>(Match);
      TargetsWithinAppend(c.insts, [Match], 0, c.endPc + 1);
      TargetsWithinAt(prog, 0, |prog| - 1);
    }
    assert forall k :: 0 <= k < |prog| ==> (prog[k].Match? <==> k == |prog| - 1) by {
      MatchFreeAt(c.insts);
      assert forall k :: 0 <= k < |c.insts| ==> prog[k] == c.insts[k];
    }
    assert OpenedGroups(prog) == OpenedGroups(c.insts) && ClosedGroups(prog) == ClosedGroups(c.insts) by {
      SingleInst<I>(Match);
      OpenedGroupsAppend(c.insts, [Match]);
      ClosedGroupsAppend(c.insts, [Match]);
    }
  }

  /** The compiled form of a pattern, ready to be run by the VM. */
  datatype CompiledRegexInVm<!I> = CompiledRegexInVm(insts: seq<Inst<I>>)

  /** The predicate that accepts every symbol: the `.` of the wrapper. */
  function AnySymbol<I>(): I -> bool {
    (x: I) => true
  }

  /** `f*?`: a lazy loop over symbols accepted by `f`. */
  function LazyStar<I>(f: I -> bool): (r: Regex<I>)
    ensures WellFormed(r) && GroupCount(r) == 0
  {
    assert !HasBadRepeat(Satisfy(f));
    Repeat0(Satisfy(f), false)
  }

  /** `f*?(reg)f*?`: lazily skip a prefix of symbols accepted by `f`,
      capture `reg` as a group, lazily accept such a suffix. */
  function SearchWrapper<I>(reg: Regex<I>, f: I -> bool): (w: Regex<I>)
    ensures WellFormed(w) <==> WellFormed(reg)
    ensures GroupCount(w) == GroupCount(reg) + 1
  {
    var loop := LazyStar(f);
    assert HasBadRepeat(Group(reg)) == HasBadRepeat(reg);
    assert HasBadRepeat(Concat(Group(reg), loop)) == HasBadRepeat(reg);
    assert GroupCount(Concat(Group(reg), loop)) == GroupCount(reg) + 1;
    Concat(loop, Concat(Group(reg), loop))
  }

  /** `.*?(reg).*?`: the search wrapper over any symbol, so that a match may
      start and end anywhere. */
  function Unanchored<I>(reg: Regex<I>): (w: Regex<I>)
    ensures WellFormed(w) <==> WellFormed(reg)
    ensures GroupCount(w) == GroupCount(reg) + 1
  {
    SearchWrapper(reg, AnySymbol())
  }

  /** Compiles `reg` for unanchored search. The program is: a lazy loop over
      any symbol (preferring to stop), `SaveOpen(0)`, the pattern itself laid
      out from pc 4 with its groups numbered from 1, `SaveClose(0)`, a second
      lazy loop, and `Match`. So group 0 is the whole match, and the pattern's
      own groups keep their pre-order numbering shifted by one. */
  function Compile<I>(reg: Regex<I>): (c: CompiledRegexInVm<I>)
    requires WellFormed(reg)
    ensures IsProgram(c.insts)
    ensures var u := CompileRegex(reg, 4, 1).insts;
      var n := |u|;
      c.insts == [Split(3, 1), Check(AnySymbol()), Jmp(0)]
                 + ([SaveOpen(0)] + u + [SaveClose(0)] + [Split(n + 8, n + 6), Check(AnySymbol()), Jmp(n + 5)])
                 + [Match]
    ensures OpenedGroups(c.insts) == Range(0, GroupCount(reg) + 1)
  {
    var prog := CompileRegexToVmInsts(Unanchored(reg));
    UnanchoredGroups(reg, prog);
    UnanchoredInsts(reg, prog);
    CompiledRegexInVm(prog)
  }

  lemma UnanchoredInsts<I>(reg: Regex<I>, prog: seq<Inst<I>>)
    requires WellFormed(reg)
    requires prog == CompileRegexToVmInsts(Unanchored(reg))
    ensures var u := CompileRegex(reg, 4, 1).insts;
      var n := |u|;
      prog == [Split(3, 1), Check(AnySymbol()), Jmp(0)]
              + ([SaveOpen(0)] + u + [SaveClose(0)] + [Split(n + 8, n + 6), Check(AnySymbol()), Jmp(n + 5)])
              + [Match]
  {
    assert prog == CompileRegex(Unanchored(reg), 0, 0).insts + [Match];
    UnanchoredLayout(reg);
  }

  lemma UnanchoredGroups<I>(reg: Regex<I>, prog: seq<Inst<I>>)
    requires WellFormed(reg)
    requires prog == CompileRegexToVmInsts(Unanchored(reg))
    ensures OpenedGroups(prog) == Range(0, GroupCount(reg) + 1)
  {
    GroupsOfProgram(prog, GroupCount(Unanchored(reg)), GroupCount(reg) + 1);
  }

  lemma GroupsOfProgram<I>(prog: seq<Inst<I>>, groups: nat, groups': nat)
    requires OpenedGroups(prog) == Range(0, groups) && groups == groups'
    ensures OpenedGroups(prog) == Range(0, groups')
  {
  }

  /** A lazy loop over `f` starting at `pc`: prefer leaving, else consume one
      symbol and jump back. */
  lemma LazyAnyLoop<I>(f: I -> bool, pc: PC, nextGroup: GroupIndex)
    ensures CompileRegex(LazyStar(f), pc, nextGroup)
         == Compiled([Split(pc + 3, pc + 1), Check(f), Jmp(pc)], pc + 2, nextGroup)
  {
    var body := CompileRegex(Satisfy(f), pc + 1, nextGroup);
    assert body == Compiled([Check(f)], pc + 1, nextGroup);
    assert CompileRegex(LazyStar(f), pc, nextGroup) == Repeat0Layout(false, pc, body);
    assert [Split(pc + 3, pc + 1)] + [Check(f)] + [Jmp(pc)] == [Split(pc + 3, pc + 1), Check(f), Jmp(pc)];
  }

  lemma UnanchoredLayout<I>(reg: Regex<I>)
    requires WellFormed(reg)
    ensures var u := CompileRegex(reg, 4, 1).insts;
      var n := |u|;
      CompileRegex(Unanchored(reg), 0, 0).insts
        == [Split(3, 1), Check(AnySymbol()), Jmp(0)]
           + ([SaveOpen(0)] + u + [SaveClose(0)] + [Split(n + 8, n + 6), Check(AnySymbol()), Jmp(n + 5)])
  {
    WrapperLayout(reg, AnySymbol());
  }

  /** How `f*?(reg)f*?` is laid out: a lazy loop at pc 0, then the rest. */
  lemma WrapperLayout<I>(reg: Regex<I>, any: I -> bool)
    requires WellFormed(reg)
    ensures var u := CompileRegex(reg, 4, 1).insts;
      var n := |u|;
      CompileRegex(SearchWrapper(reg, any), 0, 0).insts
        == [Split(3, 1), Check(any), Jmp(0)]
           + ([SaveOpen(0)] + u + [SaveClose(0)] + [Split(n + 8, n + 6), Check(any), Jmp(n + 5)])
  {
    var rest := Concat(Group(reg), LazyStar(any));
    var loop := CompileRegex(LazyStar(any), 0, 0);
    var right := CompileRegex(rest, loop.endPc + 1, loop.nextGroup);
    LazyAnyLoop(any, 0, 0);
    assert loop.endPc == 2 && loop.nextGroup == 0;
    assert SearchWrapper(reg, any) == Concat(LazyStar(any), rest);
    assert CompileRegex(Concat(LazyStar(any), rest), 0, 0).insts == loop.insts + right.insts;
    var u := CompileRegex(reg, 4, 1);
    OuterGroup(reg);
    LoopAfterOuterGroup(u, reg, any);
  }

  /** How `(reg)f*?` is laid out from pc 3 as group 0, given how `reg` is
      laid out from pc 4 (`u`) and that group 0 wraps it. */
  lemma LoopAfterOuterGroup<I>(u: Compiled<I>, reg: Regex<I>, any: I -> bool)
    requires WellFormed(reg)
    requires u == CompileRegex(reg, 4, 1)
    requires CompileRegex(Group(reg), 3, 0) == Compiled([SaveOpen(0)] + u.insts + [SaveClose(0)], |u.insts| + 4, u.nextGroup)
    ensures var n := |u.insts|;
      CompileRegex(Concat(Group(reg), LazyStar(any)), 3, 0).insts
        == [SaveOpen(0)] + u.insts + [SaveClose(0)] + [Split(n + 8, n + 6), Check(any), Jmp(n + 5)]
  {
    var g := Compiled([SaveOpen(0)] + u.insts + [SaveClose(0)], |u.insts| + 4, u.nextGroup);
    ThenLazyLoop(g, Group(reg), any, 3, 0);
  }

  /** Group 0 around `reg`, opened at pc 3. */
  lemma OuterGroup<I>(reg: Regex<I>)
    requires WellFormed(reg)
    ensures var u := CompileRegex(reg, 4, 1);
      CompileRegex(Group(reg), 3, 0) == Compiled([SaveOpen(0)] + u.insts + [SaveClose(0)], |u.insts| + 4, u.nextGroup)
  {
    CompiledSpan(reg, 4, 1);
    GroupMarkers(reg, 3, 0);
  }

  /** A lazy loop placed right after `left`, the block of `r`. */
  lemma ThenLazyLoop<I>(left: Compiled<I>, r: Regex<I>, any: I -> bool, startPc: PC, nextGroup: GroupIndex)
    requires WellFormed(r)
    requires left == CompileRegex(r, startPc, nextGroup)
    ensures var pc := left.endPc + 1;
      CompileRegex(Concat(r, LazyStar(any)), startPc, nextGroup)
        == ConcatLayout(left, Compiled([Split(pc + 3, pc + 1), Check(any), Jmp(pc)], pc + 2, left.nextGroup))
  {
    var pc := left.endPc + 1;
    LazyAnyLoop(any, pc, left.nextGroup);
    assert CompileRegex(Concat(r, LazyStar(any)), startPc, nextGroup)
        == ConcatLayout(left, CompileRegex(LazyStar(any), pc, left.nextGroup));
  }
}
