/** Facts about how individual constructs are laid out by the compiler:
    where each `Split` points, how greediness is encoded, and where group
    markers go. */
module CompilerProperties {
  import opened RegexSyntax
  import opened VmInst
  import opened VmCompiler

  /** `NotSatisfy(f)` compiles to the very same `Check(f)` as `Satisfy(f)`:
      the compiler performs no negation. */
  lemma NotSatisfyCompilesLikeSatisfy<I>(f: I -> bool, startPc: PC, nextGroup: GroupIndex)
    ensures CompileRegex(NotSatisfy(f), startPc, nextGroup) == CompileRegex(Satisfy(f), startPc, nextGroup)
    ensures CompileRegex(NotSatisfy(f), startPc, nextGroup).insts == [Check(f)]
  {
  }

  /** `r?`: the greedy and the lazy form differ only in the order of the
      operands of their leading `Split`. The greedy form offers entering the
      body (at `startPc + 1`) first; the lazy form offers skipping past the
      construct first. The body follows the `Split`. */
  lemma ZeroOrOneGreediness<I>(r: Regex<I>, startPc: PC, nextGroup: GroupIndex)
    requires WellFormed(r)
    ensures var greedy := CompileRegex(ZeroOrOne(r, true), startPc, nextGroup);
      var lazy := CompileRegex(ZeroOrOne(r, false), startPc, nextGroup);
      var body := CompileRegex(r, startPc + 1, nextGroup);
      && greedy.endPc == lazy.endPc == body.endPc
      && greedy.insts[0] == Split(startPc + 1, greedy.endPc + 1)
      && lazy.insts[0] == Split(lazy.endPc + 1, startPc + 1)
      && greedy.insts[1..] == lazy.insts[1..] == body.insts
  {
  }

  /** `r*`: a leading `Split` whose operand order is the only difference
      between the greedy and the lazy form (greedy enters the body first),
      the body, and a trailing `Jmp` back to the `Split`. */
  lemma Repeat0Greediness<I>(r: Regex<I>, startPc: PC, nextGroup: GroupIndex)
    requires WellFormed(r)
    ensures var greedy := CompileRegex(Repeat0(r, true), startPc, nextGroup);
      var lazy := CompileRegex(Repeat0(r, false), startPc, nextGroup);
      var body := CompileRegex(r, startPc + 1, nextGroup);
      var n := |greedy.insts|;
      && greedy.endPc == lazy.endPc == body.endPc + 1
      && greedy.insts[0] == Split(startPc + 1, greedy.endPc + 1)
      && lazy.insts[0] == Split(lazy.endPc + 1, startPc + 1)
      && greedy.insts[1..n - 1] == lazy.insts[1..n - 1] == body.insts
      && greedy.insts[n - 1] == lazy.insts[n - 1] == Jmp(startPc)
  {
    var greedy := CompileRegex(Repeat0(r, true), startPc, nextGroup);
    var lazy := CompileRegex(Repeat0(r, false), startPc, nextGroup);
    var body := CompileRegex(r, startPc + 1, nextGroup);
    var n := |greedy.insts|;
    assert greedy.insts[1..n - 1] == body.insts;
    assert lazy.insts[1..n - 1] == body.insts;
  }

  /** `r+`: the body comes first, so it runs at least once; then a trailing
      `Split` whose operand order is the only difference between the greedy
      form (loop back to `startPc` first) and the lazy form (leave first). */
  lemma Repeat1Greediness<I>(r: Regex<I>, startPc: PC, nextGroup: GroupIndex)
    requires WellFormed(r)
    ensures var greedy := CompileRegex(Repeat1(r, true), startPc, nextGroup);
      var lazy := CompileRegex(Repeat1(r, false), startPc, nextGroup);
      var body := CompileRegex(r, startPc, nextGroup);
      var n := |greedy.insts|;
      && greedy.endPc == lazy.endPc == body.endPc + 1
      && greedy.insts[..n - 1] == lazy.insts[..n - 1] == body.insts
      && greedy.insts[n - 1] == Split(startPc, greedy.endPc + 1)
      && lazy.insts[n - 1] == Split(lazy.endPc + 1, startPc)
  {
    var greedy := CompileRegex(Repeat1(r, true), startPc, nextGroup);
    var lazy := CompileRegex(Repeat1(r, false), startPc, nextGroup);
    var body := CompileRegex(r, startPc, nextGroup);
    var n := |greedy.insts|;
    assert greedy.insts[..n - 1] == body.insts;
    assert lazy.insts[..n - 1] == body.insts;
  }

  /** `r|s`: a `Split` whose first (preferred) operand is the left branch's
      block right after it and whose second is the right branch's block; the
      left branch ends in a `Jmp` past the whole construct, so it never falls
      into the right one. The right branch numbers its groups after the left. */
  lemma OrPrefersLeft<I>(r: Regex<I>, s: Regex<I>, startPc: PC, nextGroup: GroupIndex)
    requires WellFormed(r) && WellFormed(s)
    ensures var c := CompileRegex(Or(r, s), startPc, nextGroup);
      var left := CompileRegex(r, startPc + 1, nextGroup);
      var sStart := left.endPc + 2;
      var right := CompileRegex(s, sStart, left.nextGroup);
      && c.insts == [Split(startPc + 1, sStart)] + left.insts + [Jmp(c.endPc + 1)] + right.insts
      && c.endPc == right.endPc
      && c.nextGroup == right.nextGroup
  {
    var left := CompileRegex(r, startPc + 1, nextGroup);
    var right := CompileRegex(s, left.endPc + 2, left.nextGroup);
    var c := CompileRegex(Or(r, s), startPc, nextGroup);
    assert c == AlternationLayout(startPc, left, right);
    AlternationParts(startPc, left, right, c);
  }

  lemma AlternationParts<I>(startPc: PC, left: Compiled<I>, right: Compiled<I>, c: Compiled<I>)
    requires c == AlternationLayout(startPc, left, right)
    ensures c.insts == [Split(startPc + 1, left.endPc + 2)] + left.insts + [Jmp(c.endPc + 1)] + right.insts
    ensures c.endPc == right.endPc && c.nextGroup == right.nextGroup
  {
  }

  /** `(r)` opens group `nextGroup` first and closes it last, and numbers the
      groups inside `r` from `nextGroup + 1`. */
  lemma GroupMarkers<I>(r: Regex<I>, startPc: PC, nextGroup: GroupIndex)
    requires WellFormed(r)
    ensures var c := CompileRegex(Group(r), startPc, nextGroup);
      var body := CompileRegex(r, startPc + 1, nextGroup + 1);
      && c.insts == [SaveOpen(nextGroup)] + body.insts + [SaveClose(nextGroup)]
      && c.endPc == body.endPc + 1
      && c.nextGroup == body.nextGroup
  {
    var body := CompileRegex(r, startPc + 1, nextGroup + 1);
    assert CompileRegex(Group(r), startPc, nextGroup) == CaptureLayout(SaveOpen(nextGroup), body, SaveClose(nextGroup));
  }

  /** `(?<name>r)`: as `(r)`, with both markers carrying `name`. */
  lemma NamedGroupMarkers<I>(name: string, r: Regex<I>, startPc: PC, nextGroup: GroupIndex)
    requires WellFormed(r)
    ensures var c := CompileRegex(NamedGroup(name, r), startPc, nextGroup);
      var body := CompileRegex(r, startPc + 1, nextGroup + 1);
      && c.insts == [SaveNamedOpen(name, nextGroup)] + body.insts + [SaveNamedClose(name, nextGroup)]
      && c.endPc == body.endPc + 1
      && c.nextGroup == body.nextGroup
  {
    var body := CompileRegex(r, startPc + 1, nextGroup + 1);
    assert CompileRegex(NamedGroup(name, r), startPc, nextGroup)
        == CaptureLayout(SaveNamedOpen(name, nextGroup), body, SaveNamedClose(name, nextGroup));
  }

  /** `(?:r)` emits exactly what `r` does and consumes no group index. */
  lemma NonCapturingGroupIsTransparent<I>(r: Regex<I>, startPc: PC, nextGroup: GroupIndex)
    requires WellFormed(r)
    ensures CompileRegex(NonCapturingGroup(r), startPc, nextGroup) == CompileRegex(r, startPc, nextGroup)
    ensures CompileRegex(NonCapturingGroup(r), startPc, nextGroup).nextGroup == nextGroup + GroupCount(r)
  {
    CompileRegexIsBlock(r, startPc, nextGroup);
  }

  /** A concatenation lays its operands out back to back: the right operand
      starts right after the left one ends and numbers its groups after the
      left one's. */
  lemma ConcatBackToBack<I>(r: Regex<I>, s: Regex<I>, startPc: PC, nextGroup: GroupIndex)
    requires WellFormed(r) && WellFormed(s)
    ensures var c := CompileRegex(Concat(r, s), startPc, nextGroup);
      var left := CompileRegex(r, startPc, nextGroup);
      var right := CompileRegex(s, left.endPc + 1, left.nextGroup);
      && c.insts == left.insts + right.insts
      && c.endPc == right.endPc
      && c.nextGroup == right.nextGroup
  {
    var left := CompileRegex(r, startPc, nextGroup);
    var right := CompileRegex(s, left.endPc + 1, left.nextGroup);
    assert CompileRegex(Concat(r, s), startPc, nextGroup) == ConcatLayout(left, right);
  }
}
