/** The instruction set of the regex VM and the facts about instruction
    sequences that the compiler's proofs are phrased in. */
module VmInst {

  /** A program counter: an index into the instruction array. */
  type PC = nat

  /** A capture-group index; group `g` saves into slots `2g` and `2g+1`. */
  type GroupIndex = nat

  /** One VM instruction. `Split(first, second)` forks, giving `first` the
      higher priority; `Jmp` is unconditional; `Check` consumes one symbol. */
  datatype Inst<!I> =
    | Begin
    | End
    | Check(pred: I -> bool)
    | SaveOpen(group: GroupIndex)
    | SaveClose(group: GroupIndex)
    | SaveNamedOpen(name: string, group: GroupIndex)
    | SaveNamedClose(name: string, group: GroupIndex)
    | Split(first: PC, second: PC)
    | Jmp(target: PC)
    | Match

  /** Every branch target of `inst` lies in `[lo, hi]`. */
  predicate InstTargetsWithin<I>(inst: Inst<I>, lo: PC, hi: PC) {
    match inst
    case Split(a, b) => lo <= a <= hi && lo <= b <= hi
    case Jmp(t) => lo <= t <= hi
    case _ => true
  }

  /** Every branch target in `insts` lies in `[lo, hi]`. */
  predicate TargetsWithin<I>(insts: seq<Inst<I>>, lo: PC, hi: PC)
    decreases |insts|
  {
    |insts| == 0 || (InstTargetsWithin(insts[0], lo, hi) && TargetsWithin(insts[1..], lo, hi))
  }

  /** No instruction of `insts` is `Match`. */
  predicate MatchFree<I>(insts: seq<Inst<I>>)
    decreases |insts|
  {
    |insts| == 0 || (!insts[0].Match? && MatchFree(insts[1..]))
  }

  /** The group indices that `insts` opens, in instruction order. */
  function OpenedGroups<I>(insts: seq<Inst<I>>): seq<GroupIndex> {
    if |insts| == 0 then []
    else
      var rest := OpenedGroups(insts[1..]);
      match insts[0]
      case SaveOpen(g) => [g] + rest
      case SaveNamedOpen(_, g) => [g] + rest
      case _ => rest
  }

  /** The group indices that `insts` closes, in instruction order. */
  function ClosedGroups<I>(insts: seq<Inst<I>>): seq<GroupIndex> {
    if |insts| == 0 then []
    else
      var rest := ClosedGroups(insts[1..]);
      match insts[0]
      case SaveClose(g) => [g] + rest
      case SaveNamedClose(_, g) => [g] + rest
      case _ => rest
  }

  /** Every index in `gs` lies in `[lo, hi)`. */
  predicate GroupsWithin(gs: seq<GroupIndex>, lo: GroupIndex, hi: GroupIndex)
    decreases |gs|
  {
    |gs| == 0 || (lo <= gs[0] < hi && GroupsWithin(gs[1..], lo, hi))
  }

  /** The indices `lo, lo+1, ..., hi-1`. */
  function Range(lo: nat, hi: nat): (r: seq<nat>)
    requires lo <= hi
    ensures |r| == hi - lo
    ensures forall k :: 0 <= k < |r| ==> r[k] == lo + k
    decreases hi - lo
  {
    if lo == hi then [] else [lo] + Range(lo + 1, hi)
  }

  /** `insts` is a well-behaved piece of a program: its branch targets lie in
      `[lo, hi]`, it holds no `Match`, it opens exactly the groups
      `g0, ..., g1 - 1` in that order, and it closes as many groups, each
      from the same range. */
  predicate Block<I>(insts: seq<Inst<I>>, lo: PC, hi: PC, g0: GroupIndex, g1: GroupIndex) {
    && g0 <= g1
    && TargetsWithin(insts, lo, hi)
    && MatchFree(insts)
    && OpenedGroups(insts) == Range(g0, g1)
    && |ClosedGroups(insts)| == g1 - g0
    && GroupsWithin(ClosedGroups(insts), g0, g1)
  }

  lemma RangeAppend(lo: nat, mid: nat, hi: nat)
    requires lo <= mid <= hi
    ensures Range(lo, mid) + Range(mid, hi) == Range(lo, hi)
  {
  }

  lemma {:induction false} OpenedGroupsAppend<I>(a: seq<Inst<I>>, b: seq<Inst<I>>)
    ensures OpenedGroups(a + b) == OpenedGroups(a) + OpenedGroups(b)
    decreases |a|
  {
    if |a| > 0 {
      assert (a + b)[1..] == a[1..] + b;
      OpenedGroupsAppend(a[1..], b);
    } else {
      assert a + b == b;
    }
  }

  lemma {:induction false} ClosedGroupsAppend<I>(a: seq<Inst<I>>, b: seq<Inst<I>>)
    ensures ClosedGroups(a + b) == ClosedGroups(a) + ClosedGroups(b)
    decreases |a|
  {
    if |a| > 0 {
      assert (a + b)[1..] == a[1..] + b;
      ClosedGroupsAppend(a[1..], b);
    } else {
      assert a + b == b;
    }
  }

  /** The recursive `TargetsWithin` says the same as its indexwise reading. */
  lemma {:induction false} TargetsWithinAt<I>(insts: seq<Inst<I>>, lo: PC, hi: PC)
    ensures TargetsWithin(insts, lo, hi) <==> forall k :: 0 <= k < |insts| ==> InstTargetsWithin(insts[k], lo, hi)
    decreases |insts|
  {
    if |insts| > 0 {
      TargetsWithinAt(insts[1..], lo, hi);
      assert forall k :: 0 < k < |insts| ==> insts[k] == insts[1..][k - 1];
    }
  }

  /** The recursive `MatchFree` says the same as its indexwise reading. */
  lemma {:induction false} MatchFreeAt<I>(insts: seq<Inst<I>>)
    ensures MatchFree(insts) <==> forall k :: 0 <= k < |insts| ==> !insts[k].Match?
    decreases |insts|
  {
    if |insts| > 0 {
      MatchFreeAt(insts[1..]);
      assert forall k :: 0 < k < |insts| ==> insts[k] == insts[1..][k - 1];
    }
  }

  /** The recursive `GroupsWithin` says the same as its indexwise reading. */
  lemma {:induction false} GroupsWithinAt(gs: seq<GroupIndex>, lo: GroupIndex, hi: GroupIndex)
    ensures GroupsWithin(gs, lo, hi) <==> forall k :: 0 <= k < |gs| ==> lo <= gs[k] < hi
    decreases |gs|
  {
    if |gs| > 0 {
      GroupsWithinAt(gs[1..], lo, hi);
      assert forall k :: 0 < k < |gs| ==> gs[k] == gs[1..][k - 1];
    }
  }

  lemma {:induction false} TargetsWithinAppend<I>(a: seq<Inst<I>>, b: seq<Inst<I>>, lo: PC, hi: PC)
    ensures TargetsWithin(a + b, lo, hi) <==> TargetsWithin(a, lo, hi) && TargetsWithin(b, lo, hi)
    decreases |a|
  {
    if |a| > 0 {
      assert (a + b)[1..] == a[1..] + b;
      TargetsWithinAppend(a[1..], b, lo, hi);
    } else {
      assert a + b == b;
    }
  }

  lemma {:induction false} TargetsWithinWiden<I>(a: seq<Inst<I>>, lo: PC, hi: PC, lo': PC, hi': PC)
    requires TargetsWithin(a, lo, hi)
    requires lo' <= lo && hi <= hi'
    ensures TargetsWithin(a, lo', hi')
    decreases |a|
  {
    if |a| > 0 {
      TargetsWithinWiden(a[1..], lo, hi, lo', hi');
    }
  }

  /** Two adjacent blocks whose targets stay within `[lo, mid]` and
      `[mid, hi]` together target only `[lo, hi]`. */
  lemma TargetsWithinJoin<I>(a: seq<Inst<I>>, b: seq<Inst<I>>, lo: PC, mid: PC, hi: PC)
    requires lo <= mid <= hi
    requires TargetsWithin(a, lo, mid) && TargetsWithin(b, mid, hi)
    ensures TargetsWithin(a + b, lo, hi)
  {
    TargetsWithinWiden(a, lo, mid, lo, hi);
    TargetsWithinWiden(b, mid, hi, lo, hi);
    TargetsWithinAppend(a, b, lo, hi);
  }

  lemma {:induction false} MatchFreeAppend<I>(a: seq<Inst<I>>, b: seq<Inst<I>>)
    ensures MatchFree(a + b) <==> MatchFree(a) && MatchFree(b)
    decreases |a|
  {
    if |a| > 0 {
      assert (a + b)[1..] == a[1..] + b;
      MatchFreeAppend(a[1..], b);
    } else {
      assert a + b == b;
    }
  }

  /** Concatenating two blocks concatenates what they open and close, and
      keeps them free of `Match`. */
  lemma BlocksAppend<I>(a: seq<Inst<I>>, b: seq<Inst<I>>)
    ensures MatchFree(a + b) <==> MatchFree(a) && MatchFree(b)
    ensures OpenedGroups(a + b) == OpenedGroups(a) + OpenedGroups(b)
    ensures ClosedGroups(a + b) == ClosedGroups(a) + ClosedGroups(b)
  {
    MatchFreeAppend(a, b);
    OpenedGroupsAppend(a, b);
    ClosedGroupsAppend(a, b);
  }

  /** Indices of `a` in `[alo, ahi)` and of `b` in `[blo, bhi)` all lie in
      `[lo, hi)` when both ranges do. */
  lemma {:induction false} GroupsWithinAppend(a: seq<GroupIndex>, b: seq<GroupIndex>, lo: GroupIndex, hi: GroupIndex,
                           alo: GroupIndex, ahi: GroupIndex, blo: GroupIndex, bhi: GroupIndex)
    requires lo <= alo && ahi <= hi && lo <= blo && bhi <= hi
    requires GroupsWithin(a, alo, ahi) && GroupsWithin(b, blo, bhi)
    ensures GroupsWithin(a + b, lo, hi)
    decreases |a| + |b|
  {
    if |a| > 0 {
      assert (a + b)[1..] == a[1..] + b;
      GroupsWithinAppend(a[1..], b, lo, hi, alo, ahi, blo, bhi);
    } else if |b| > 0 {
      assert a + b == b;
      assert (a + b)[1..] == [] + b[1..];
      GroupsWithinAppend([], b[1..], lo, hi, alo, ahi, blo, bhi);
    }
  }

  /** What a single instruction opens, closes, targets and whether it is
      `Match`. */
  lemma SingleInst<I>(inst: Inst<I>)
    ensures OpenedGroups([inst]) == (if inst.SaveOpen? || inst.SaveNamedOpen? then [inst.group] else [])
    ensures ClosedGroups([inst]) == (if inst.SaveClose? || inst.SaveNamedClose? then [inst.group] else [])
    ensures MatchFree([inst]) == !inst.Match?
    ensures forall lo: PC, hi: PC :: TargetsWithin([inst], lo, hi) == InstTargetsWithin(inst, lo, hi)
  {
    assert [inst][1..] == [];
  }

  /** Two pieces side by side form one piece that numbers the groups of the
      first and then those of the second. */
  lemma BlockConcat<I>(a: seq<Inst<I>>, b: seq<Inst<I>>, lo: PC, hi: PC,
                       g0: GroupIndex, g1: GroupIndex, g2: GroupIndex)
    requires Block(a, lo, hi, g0, g1) && Block(b, lo, hi, g1, g2)
    ensures Block(a + b, lo, hi, g0, g2)
  {
    assert TargetsWithin(a + b, lo, hi) by {
      TargetsWithinAppend(a, b, lo, hi);
    }
    assert MatchFree(a + b) by {
      MatchFreeAppend(a, b);
    }
    assert OpenedGroups(a + b) == Range(g0, g2) by {
      OpenedGroupsAppend(a, b);
      RangeAppend(g0, g1, g2);
    }
    assert ClosedGroups(a + b) == ClosedGroups(a) + ClosedGroups(b) by {
      ClosedGroupsAppend(a, b);
    }
    GroupsWithinAppend(ClosedGroups(a), ClosedGroups(b), g0, g2, g0, g1, g1, g2);
  }

  /** A piece stays a piece when its allowed target range grows. */
  lemma BlockWiden<I>(a: seq<Inst<I>>, lo: PC, hi: PC, lo': PC, hi': PC, g0: GroupIndex, g1: GroupIndex)
    requires Block(a, lo, hi, g0, g1)
    requires lo' <= lo && hi <= hi'
    ensures Block(a, lo', hi', g0, g1)
  {
    TargetsWithinWiden(a, lo, hi, lo', hi');
  }

  /** A single control instruction (no `Match`, no group marker) whose
      targets lie in `[lo, hi]` is a piece that numbers no group. */
  lemma GlueBlock<I>(x: Inst<I>, lo: PC, hi: PC, g: GroupIndex)
    requires !x.Match? && !x.SaveOpen? && !x.SaveNamedOpen? && !x.SaveClose? && !x.SaveNamedClose?
    requires InstTargetsWithin(x, lo, hi)
    ensures Block([x], lo, hi, g, g)
  {
    SingleInst(x);
  }

  /** An open marker for `g`, a piece numbering `g + 1, ..., g1 - 1`, and a
      close marker for `g` form a piece numbering `g, ..., g1 - 1`. */
  lemma CaptureBlockFacts<I>(open: Inst<I>, body: seq<Inst<I>>, close: Inst<I>, lo: PC, hi: PC,
                             g: GroupIndex, g1: GroupIndex)
    requires (open.SaveOpen? || open.SaveNamedOpen?) && open.group == g
    requires (close.SaveClose? || close.SaveNamedClose?) && close.group == g
    requires Block(body, lo, hi, g + 1, g1)
    ensures Block([open] + body + [close], lo, hi, g, g1)
  {
    var all := [open] + body + [close];
    SingleInst(open);
    SingleInst(close);
    assert TargetsWithin(all, lo, hi) by {
      TargetsWithinAppend([open], body, lo, hi);
      TargetsWithinAppend([open] + body, [close], lo, hi);
    }
    assert MatchFree(all) by {
      MatchFreeAppend([open], body);
      MatchFreeAppend([open] + body, [close]);
    }
    assert OpenedGroups(all) == Range(g, g1) by {
      OpenedGroupsAppend([open], body);
      OpenedGroupsAppend([open] + body, [close]);
      RangeAppend(g, g + 1, g1);
    }
    assert ClosedGroups(all) == ClosedGroups(body) + [g] by {
      ClosedGroupsAppend([open], body);
      ClosedGroupsAppend([open] + body, [close]);
    }
    assert GroupsWithin([g], g, g + 1);
    GroupsWithinAppend(ClosedGroups(body), [g], g, g1, g + 1, g1, g, g + 1);
  }
}
