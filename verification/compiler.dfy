/** The recursive regex-AST to VM-bytecode compiler. Each node is laid out as
    one contiguous block of instructions starting at a given program counter;
    branch targets are absolute program counters. */
module VmCompiler {
  import opened RegexSyntax
  import opened VmInst
  import opened Expansion

  /** What compiling one node yields: its instructions, the program counter
      of its last instruction, and the next unused group index. */
  datatype Compiled<!I> = Compiled(insts: seq<Inst<I>>, endPc: PC, nextGroup: GroupIndex)

  /** The `Split` a quantifier emits: the preferred branch comes first, so a
      greedy quantifier prefers `enter` (the body) and a lazy one `skip`. */
  function PrioritySplit<I>(greedy: bool, enter: PC, skip: PC): Inst<I> {
    if greedy then Split(enter, skip) else Split(skip, enter)
  }

  /** What every compiled block promises about itself: it occupies exactly
      `[startPc, endPc]`; every branch it emits stays inside the block or
      targets the instruction just after it; it contains no `Match`; and the
      groups it numbers are exactly `[nextGroup, nextGroup + GroupCount(reg))`,
      opened in pre-order, and closed once per group, by indices from the
      same range. */
  predicate IsBlockOf<I>(c: Compiled<I>, reg: Regex<I>, startPc: PC, nextGroup: GroupIndex) {
    && startPc <= c.endPc
    && |c.insts| == c.endPc - startPc + 1
    && c.nextGroup == nextGroup + GroupCount(reg)
    && Block(c.insts, startPc, c.endPc + 1, nextGroup, c.nextGroup)
  }

  /** Compiles `reg` so that its first instruction sits at `startPc` and its
      first capturing group (in pre-order) gets index `nextGroup`. What the
      result satisfies is `CompileRegexIsBlock`. */
  function CompileRegex<I>(reg: Regex<I>, startPc: PC, nextGroup: GroupIndex): Compiled<I>
    requires WellFormed(reg)
    decreases Size(reg)
  {
    match reg
    case Begin => Compiled([Inst.Begin], startPc, nextGroup)
    case End => Compiled([Inst.End], startPc, nextGroup)
    case Satisfy(f) => Compiled([Check(f)], startPc, nextGroup)
    case NotSatisfy(f) => Compiled([Check(f)], startPc, nextGroup)
    case Concat(r, s) =>
      var rc := CompileRegex(r, startPc, nextGroup);
      ConcatLayout(rc, CompileRegex(s, rc.endPc + 1, rc.nextGroup))
    case Group(r) =>
      CaptureLayout(SaveOpen(nextGroup), CompileRegex(r, startPc + 1, nextGroup + 1), SaveClose(nextGroup))
    case NamedGroup(name, r) =>
      CaptureLayout(SaveNamedOpen(name, nextGroup), CompileRegex(r, startPc + 1, nextGroup + 1),
                    SaveNamedClose(name, nextGroup))
    case NonCapturingGroup(r) => CompileRegex(r, startPc, nextGroup)
    case Or(r, s) =>
      var rc := CompileRegex(r, startPc + 1, nextGroup);
      AlternationLayout(startPc, rc, CompileRegex(s, rc.endPc + 2, rc.nextGroup))
    case ZeroOrOne(r, greedy) => ZeroOrOneLayout(greedy, startPc, CompileRegex(r, startPc + 1, nextGroup))
    case Repeat0(r, greedy) => Repeat0Layout(greedy, startPc, CompileRegex(r, startPc + 1, nextGroup))
    case Repeat1(r, greedy) => Repeat1Layout(greedy, startPc, CompileRegex(r, startPc, nextGroup))
    case RepeatN(r, n) =>
      ExpandRepeatNFacts(r, n);
      CompileRegex(ExpandRepeatN(r, n), startPc, nextGroup)
    case RepeatMinMax(r, n, m, greedy) =>
      ExpandRepeatMinMaxFacts(r, n, m, greedy);
      CompileRegex(ExpandRepeatMinMax(r, n, m, greedy), startPc, nextGroup)
  }

  /** `rs`: the block of `r` followed directly by the block of `s`. */
  function ConcatLayout<I>(rc: Compiled<I>, sc: Compiled<I>): Compiled<I> {
    Compiled(rc.insts + sc.insts, sc.endPc, sc.nextGroup)
  }

  /** A group: its open marker, the block of its body, its close marker. */
  function CaptureLayout<I>(open: Inst<I>, rc: Compiled<I>, close: Inst<I>): Compiled<I> {
    Compiled([open] + rc.insts + [close], rc.endPc + 1, rc.nextGroup)
  }

  /** `r|s`: a `Split` preferring the block of `r`, that block, a `Jmp` past
      the whole construct, then the block of `s`. */
  function AlternationLayout<I>(startPc: PC, rc: Compiled<I>, sc: Compiled<I>): Compiled<I> {
    Compiled([Split(startPc + 1, rc.endPc + 2)] + rc.insts + [Jmp(sc.endPc + 1)] + sc.insts,
             sc.endPc, sc.nextGroup)
  }

  /** `r?`: a `Split` between entering the block of `r` and skipping it. */
  function ZeroOrOneLayout<I>(greedy: bool, startPc: PC, rc: Compiled<I>): Compiled<I> {
    Compiled([PrioritySplit(greedy, startPc + 1, rc.endPc + 1)] + rc.insts, rc.endPc, rc.nextGroup)
  }

  /** `r*`: a `Split` between entering the block of `r` and leaving, the
      block, then a `Jmp` back to the `Split`. */
  function Repeat0Layout<I>(greedy: bool, startPc: PC, rc: Compiled<I>): Compiled<I> {
    Compiled([PrioritySplit(greedy, startPc + 1, rc.endPc + 2)] + rc.insts + [Jmp(startPc)],
             rc.endPc + 1, rc.nextGroup)
  }

  /** `r+`: the block of `r`, then a `Split` between looping back to its
      start and leaving. */
  function Repeat1Layout<I>(greedy: bool, startPc: PC, rc: Compiled<I>): Compiled<I> {
    Compiled(rc.insts + [PrioritySplit(greedy, startPc, rc.endPc + 2)], rc.endPc + 1, rc.nextGroup)
  }

  /** Every node compiles to a block in the sense of `IsBlockOf`. */
  lemma {:induction false} CompileRegexIsBlock<I>(reg: Regex<I>, startPc: PC, nextGroup: GroupIndex)
    requires WellFormed(reg)
    ensures IsBlockOf(CompileRegex(reg, startPc, nextGroup), reg, startPc, nextGroup)
    decreases Size(reg), 1
  {
    match reg
    case Begin => GlueBlock<I>(Inst.Begin, startPc, startPc + 1, nextGroup);
    case End => GlueBlock<I>(Inst.End, startPc, startPc + 1, nextGroup);
    case Satisfy(f) => GlueBlock(Check(f), startPc, startPc + 1, nextGroup);
    case NotSatisfy(f) => GlueBlock(Check(f), startPc, startPc + 1, nextGroup);
    case Concat(r, s) => ConcatCompilesToBlock(r, s, startPc, nextGroup);
    case Group(r) => GroupCompilesToBlock(reg, startPc, nextGroup);
    case NamedGroup(_, r) => GroupCompilesToBlock(reg, startPc, nextGroup);
    case NonCapturingGroup(r) => CompileRegexIsBlock(r, startPc, nextGroup);
    case Or(r, s) => OrCompilesToBlock(r, s, startPc, nextGroup);
    case ZeroOrOne(r, greedy) => QuantifierCompilesToBlock(reg, startPc, nextGroup);
    case Repeat0(r, greedy) => QuantifierCompilesToBlock(reg, startPc, nextGroup);
    case Repeat1(r, greedy) => QuantifierCompilesToBlock(reg, startPc, nextGroup);
    case RepeatN(r, n) => CountedCompilesToBlock(reg, startPc, nextGroup);
    case RepeatMinMax(r, n, m, greedy) => CountedCompilesToBlock(reg, startPc, nextGroup);
  }

  /** A counted repetition compiles as its expansion, which is smaller. */
  lemma {:induction false} CountedCompilesToBlock<I>(reg: Regex<I>, startPc: PC, nextGroup: GroupIndex)
    requires reg.RepeatN? || reg.RepeatMinMax?
    requires WellFormed(reg)
    ensures IsBlockOf(CompileRegex(reg, startPc, nextGroup), reg, startPc, nextGroup)
    decreases Size(reg), 0
  {
    match reg
    case RepeatN(r, n) =>
      ExpandRepeatNFacts(r, n);
      var e := ExpandRepeatN(r, n);
      assert CompileRegex(reg, startPc, nextGroup) == CompileRegex(e, startPc, nextGroup);
      CompileRegexIsBlock(e, startPc, nextGroup);
    case RepeatMinMax(r, n, m, greedy) =>
      ExpandRepeatMinMaxFacts(r, n, m, greedy);
      var e := ExpandRepeatMinMax(r, n, m, greedy);
      assert CompileRegex(reg, startPc, nextGroup) == CompileRegex(e, startPc, nextGroup);
      CompileRegexIsBlock(e, startPc, nextGroup);
  }

  /** The span of a compiled node: its instructions fill the pcs from
      `startPc` through `endPc`, and it numbers exactly its own groups. */
  lemma CompiledSpan<I>(reg: Regex<I>, startPc: PC, nextGroup: GroupIndex)
    requires WellFormed(reg)
    ensures var c := CompileRegex(reg, startPc, nextGroup);
      c.endPc + 1 == startPc + |c.insts| && c.nextGroup == nextGroup + GroupCount(reg)
  {
    CompileRegexIsBlock(reg, startPc, nextGroup);
  }

  lemma {:induction false} ConcatCompilesToBlock<I>(r: Regex<I>, s: Regex<I>, startPc: PC, nextGroup: GroupIndex)
    requires WellFormed(r) && WellFormed(s)
    ensures IsBlockOf(CompileRegex(Concat(r, s), startPc, nextGroup), Concat(r, s), startPc, nextGroup)
    decreases Size(Concat(r, s)), 0
  {
    var rc := CompileRegex(r, startPc, nextGroup);
    var sc := CompileRegex(s, rc.endPc + 1, rc.nextGroup);
    assert CompileRegex(Concat(r, s), startPc, nextGroup) == ConcatLayout(rc, sc);
    CompileRegexIsBlock(r, startPc, nextGroup);
    CompileRegexIsBlock(s, rc.endPc + 1, rc.nextGroup);
    ConcatIsBlock(r, s, rc, sc, startPc, nextGroup);
  }

  lemma {:induction false} GroupCompilesToBlock<I>(reg: Regex<I>, startPc: PC, nextGroup: GroupIndex)
    requires reg.Group? || reg.NamedGroup?
    requires WellFormed(reg)
    ensures IsBlockOf(CompileRegex(reg, startPc, nextGroup), reg, startPc, nextGroup)
    decreases Size(reg), 0
  {
    var rc := CompileRegex(reg.body, startPc + 1, nextGroup + 1);
    CompileRegexIsBlock(reg.body, startPc + 1, nextGroup + 1);
    if reg.Group? {
      CaptureIsBlock(reg, SaveOpen(nextGroup), rc, SaveClose(nextGroup), startPc, nextGroup);
      assert CompileRegex(reg, startPc, nextGroup) == CaptureLayout(SaveOpen(nextGroup), rc, SaveClose(nextGroup));
    } else {
      var open, close := SaveNamedOpen(reg.name, nextGroup), SaveNamedClose(reg.name, nextGroup);
      CaptureIsBlock(reg, open, rc, close, startPc, nextGroup);
      assert CompileRegex(reg, startPc, nextGroup) == CaptureLayout(open, rc, close);
    }
  }

  lemma {:induction false} OrCompilesToBlock<I>(r: Regex<I>, s: Regex<I>, startPc: PC, nextGroup: GroupIndex)
    requires WellFormed(r) && WellFormed(s)
    ensures IsBlockOf(CompileRegex(Or(r, s), startPc, nextGroup), Or(r, s), startPc, nextGroup)
    decreases Size(Or(r, s)), 0
  {
    var rc := CompileRegex(r, startPc + 1, nextGroup);
    var sc := CompileRegex(s, rc.endPc + 2, rc.nextGroup);
    CompileRegexIsBlock(r, startPc + 1, nextGroup);
    CompileRegexIsBlock(s, rc.endPc + 2, rc.nextGroup);
    AlternationIsBlock(r, s, rc, sc, startPc, nextGroup);
    OrLayout(r, s, startPc, nextGroup, rc, sc);
  }

  /** The alternation node compiles to `AlternationLayout` of its operands' code. */
  lemma OrLayout<I>(r: Regex<I>, s: Regex<I>, startPc: PC, nextGroup: GroupIndex, rc: Compiled<I>, sc: Compiled<I>)
    requires WellFormed(r) && WellFormed(s)
    requires rc == CompileRegex(r, startPc + 1, nextGroup)
    requires sc == CompileRegex(s, rc.endPc + 2, rc.nextGroup)
    ensures CompileRegex(Or(r, s), startPc, nextGroup) == AlternationLayout(startPc, rc, sc)
  {
  }

  lemma {:induction false} QuantifierCompilesToBlock<I>(reg: Regex<I>, startPc: PC, nextGroup: GroupIndex)
    requires reg.ZeroOrOne? || reg.Repeat0? || reg.Repeat1?
    requires WellFormed(reg)
    ensures IsBlockOf(CompileRegex(reg, startPc, nextGroup), reg, startPc, nextGroup)
    decreases Size(reg), 0
  {
    var bodyPc := if reg.Repeat1? then startPc else startPc + 1;
    var rc := CompileRegex(reg.body, bodyPc, nextGroup);
    CompileRegexIsBlock(reg.body, bodyPc, nextGroup);
    match reg
    case ZeroOrOne(r, greedy) =>
      ZeroOrOneIsBlock(r, greedy, rc, startPc, nextGroup);
      assert CompileRegex(reg, startPc, nextGroup) == ZeroOrOneLayout(greedy, startPc, rc);
    case Repeat0(r, greedy) =>
      Repeat0IsBlock(r, greedy, rc, startPc, nextGroup);
      assert CompileRegex(reg, startPc, nextGroup) == Repeat0Layout(greedy, startPc, rc);
    case Repeat1(r, greedy) =>
      Repeat1IsBlock(r, greedy, rc, startPc, nextGroup);
      assert CompileRegex(reg, startPc, nextGroup) == Repeat1Layout(greedy, startPc, rc);
  }

  lemma ConcatIsBlock<I>(r: Regex<I>, s: Regex<I>, rc: Compiled<I>, sc: Compiled<I>,
                         startPc: PC, nextGroup: GroupIndex)
    requires IsBlockOf(rc, r, startPc, nextGroup)
    requires IsBlockOf(sc, s, rc.endPc + 1, rc.nextGroup)
    ensures IsBlockOf(ConcatLayout(rc, sc), Concat(r, s), startPc, nextGroup)
  {
    var hi := sc.endPc + 1;
    BlockWiden(rc.insts, startPc, rc.endPc + 1, startPc, hi, nextGroup, rc.nextGroup);
    BlockWiden(sc.insts, rc.endPc + 1, hi, startPc, hi, rc.nextGroup, sc.nextGroup);
    BlockConcat(rc.insts, sc.insts, startPc, hi, nextGroup, rc.nextGroup, sc.nextGroup);
  }

  lemma CaptureIsBlock<I>(reg: Regex<I>, open: Inst<I>, rc: Compiled<I>, close: Inst<I>,
                          startPc: PC, nextGroup: GroupIndex)
    requires reg.Group? || reg.NamedGroup?
    requires IsBlockOf(rc, reg.body, startPc + 1, nextGroup + 1)
    requires (open.SaveOpen? || open.SaveNamedOpen?) && open.group == nextGroup
    requires (close.SaveClose? || close.SaveNamedClose?) && close.group == nextGroup
    ensures IsBlockOf(CaptureLayout(open, rc, close), reg, startPc, nextGroup)
  {
    var hi := rc.endPc + 2;
    BlockWiden(rc.insts, startPc + 1, rc.endPc + 1, startPc, hi, nextGroup + 1, rc.nextGroup);
    CaptureBlockFacts(open, rc.insts, close, startPc, hi, nextGroup, rc.nextGroup);
  }

  lemma AlternationIsBlock<I>(r: Regex<I>, s: Regex<I>, rc: Compiled<I>, sc: Compiled<I>,
                              startPc: PC, nextGroup: GroupIndex)
    requires IsBlockOf(rc, r, startPc + 1, nextGroup)
    requires IsBlockOf(sc, s, rc.endPc + 2, rc.nextGroup)
    ensures IsBlockOf(AlternationLayout(startPc, rc, sc), Or(r, s), startPc, nextGroup)
  {
    var sStart, hi := rc.endPc + 2, sc.endPc + 1;
    var split, jmp := [Split(startPc + 1, sStart)], [Jmp(hi)];
    GlueBlock(split[0], startPc, hi, nextGroup);
    BlockWiden(rc.insts, startPc + 1, rc.endPc + 1, startPc, hi, nextGroup, rc.nextGroup);
    BlockConcat(split, rc.insts, startPc, hi, nextGroup, nextGroup, rc.nextGroup);
    GlueBlock(jmp[0], startPc, hi, rc.nextGroup);
    BlockConcat(split + rc.insts, jmp, startPc, hi, nextGroup, rc.nextGroup, rc.nextGroup);
    BlockWiden(sc.insts, sStart, hi, startPc, hi, rc.nextGroup, sc.nextGroup);
    BlockConcat(split + rc.insts + jmp, sc.insts, startPc, hi, nextGroup, rc.nextGroup, sc.nextGroup);
  }

  lemma ZeroOrOneIsBlock<I>(r: Regex<I>, greedy: bool, rc: Compiled<I>, startPc: PC, nextGroup: GroupIndex)
    requires IsBlockOf(rc, r, startPc + 1, nextGroup)
    ensures IsBlockOf(ZeroOrOneLayout(greedy, startPc, rc), ZeroOrOne(r, greedy), startPc, nextGroup)
  {
    var hi := rc.endPc + 1;
    var split := [PrioritySplit(greedy, startPc + 1, hi)];
    GlueBlock(split[0], startPc, hi, nextGroup);
    BlockWiden(rc.insts, startPc + 1, hi, startPc, hi, nextGroup, rc.nextGroup);
    BlockConcat(split, rc.insts, startPc, hi, nextGroup, nextGroup, rc.nextGroup);
  }

  lemma Repeat0IsBlock<I>(r: Regex<I>, greedy: bool, rc: Compiled<I>, startPc: PC, nextGroup: GroupIndex)
    requires IsBlockOf(rc, r, startPc + 1, nextGroup)
    ensures IsBlockOf(Repeat0Layout(greedy, startPc, rc), Repeat0(r, greedy), startPc, nextGroup)
  {
    var hi := rc.endPc + 2;
    var split, jmp := [PrioritySplit(greedy, startPc + 1, hi)], [Jmp(startPc)];
    GlueBlock(split[0], startPc, hi, nextGroup);
    BlockWiden(rc.insts, startPc + 1, rc.endPc + 1, startPc, hi, nextGroup, rc.nextGroup);
    BlockConcat(split, rc.insts, startPc, hi, nextGroup, nextGroup, rc.nextGroup);
    GlueBlock(jmp[0], startPc, hi, rc.nextGroup);
    BlockConcat(split + rc.insts, jmp, startPc, hi, nextGroup, rc.nextGroup, rc.nextGroup);
  }

  lemma Repeat1IsBlock<I>(r: Regex<I>, greedy: bool, rc: Compiled<I>, startPc: PC, nextGroup: GroupIndex)
    requires IsBlockOf(rc, r, startPc, nextGroup)
    ensures IsBlockOf(Repeat1Layout(greedy, startPc, rc), Repeat1(r, greedy), startPc, nextGroup)
  {
    var hi := rc.endPc + 2;
    var split := [PrioritySplit(greedy, startPc, hi)];
    BlockWiden(rc.insts, startPc, rc.endPc + 1, startPc, hi, nextGroup, rc.nextGroup);
    GlueBlock(split[0], startPc, hi, rc.nextGroup);
    BlockConcat(rc.insts, split, startPc, hi, nextGroup, rc.nextGroup, rc.nextGroup);
  }
}
