/** Desugaring of counted repetition: `r{n}`, `r{n,m}` and `r{n,}` become
    left-nested concatenations of copies of `r`, `r?` and `r+`. */
module Expansion {
  import opened Wrappers
  import opened RegexSyntax

  /** `n` copies of `r`, as `vec![r; n]` builds them. */
  function Copies<I>(r: Regex<I>, n: nat): (rs: seq<Regex<I>>)
    ensures |rs| == n
    ensures forall k :: 0 <= k < n ==> rs[k] == r
  {
    if n == 0 then [] else [r] + Copies(r, n - 1)
  }

  /** Folds `rest` into `acc` from the left: each element becomes the right
      operand of a new `Concat` whose left operand is everything so far. */
  function ConcatFold<I>(acc: Regex<I>, rest: seq<Regex<I>>): Regex<I>
    decreases |rest|
  {
    if |rest| == 0 then acc else ConcatFold(Concat(acc, rest[0]), rest[1..])
  }

  /** Joins a non-empty list of regexes into one left-nested `Concat`; a
      singleton list yields its element. `concat_regex_list` reads `regs[0]`
      unconditionally and panics on an empty list, so callers must pass a
      non-empty one. */
  function ConcatRegexList<I>(regs: seq<Regex<I>>): Regex<I>
    requires |regs| >= 1
  {
    if |regs| == 1 then regs[0] else ConcatFold(regs[0], regs[1..])
  }

  /** `r{n}`: `n` copies of `r` in sequence. */
  function ExpandRepeatN<I>(r: Regex<I>, n: nat): Regex<I>
    requires 1 <= n
  {
    ConcatRegexList(Copies(r, n))
  }

  /** The list `r{n,m}` and `r{n,}` are expanded from: with an upper bound
      `m`, `n` copies of `r` then `m - n` copies of `r?`; without one,
      `n - 1` copies of `r` then a single `r+`. */
  function RepeatMinMaxList<I>(r: Regex<I>, n: nat, m: Option<nat>, greedy: bool): (rs: seq<Regex<I>>)
    requires RepeatBoundsOk(n, m)
    ensures |rs| >= 1
  {
    match m
    case Some(mx) => Copies(r, n) + Copies(ZeroOrOne(r, greedy), mx - n)
    case None => Copies(r, n - 1) + [Repeat1(r, greedy)]
  }

  /** `r{n,m}` / `r{n,}` as one left-nested concatenation. */
  function ExpandRepeatMinMax<I>(r: Regex<I>, n: nat, m: Option<nat>, greedy: bool): Regex<I>
    requires RepeatBoundsOk(n, m)
  {
    ConcatRegexList(RepeatMinMaxList(r, n, m, greedy))
  }

  /** The inverse of left-nested concatenation: the `k + 1` operands of a
      left spine of `k` `Concat` nodes, leftmost first. */
  function Operands<I>(reg: Regex<I>, k: nat): seq<Regex<I>>
  {
    if k == 0 then [reg]
    else match reg
      case Concat(a, b) => Operands(a, k - 1) + [b]
      case _ => [reg]
  }

  lemma {:induction false} ConcatFoldOperands<I>(acc: Regex<I>, rest: seq<Regex<I>>, k: nat)
    ensures Operands(ConcatFold(acc, rest), k + |rest|) == Operands(acc, k) + rest
    decreases |rest|
  {
    if |rest| > 0 {
      ConcatFoldOperands(Concat(acc, rest[0]), rest[1..], k + 1);
      assert [rest[0]] + rest[1..] == rest;
    }
  }

  /** Splitting the joined regex back into `|regs|` operands recovers the
      list, in order: the fold neither drops, duplicates nor reorders. */
  lemma {:induction false} ConcatRegexListRoundTrip<I>(regs: seq<Regex<I>>)
    requires |regs| >= 1
    ensures Operands(ConcatRegexList(regs), |regs| - 1) == regs
  {
    if |regs| > 1 {
      ConcatFoldOperands(regs[0], regs[1..], 0);
      assert [regs[0]] + regs[1..] == regs;
    }
  }

  lemma {:induction false} ConcatFoldSnoc<I>(acc: Regex<I>, rest: seq<Regex<I>>)
    requires |rest| >= 1
    ensures ConcatFold(acc, rest) == Concat(ConcatFold(acc, rest[..|rest| - 1]), rest[|rest| - 1])
    decreases |rest|
  {
    if |rest| > 1 {
      ConcatFoldSnoc(Concat(acc, rest[0]), rest[1..]);
      assert rest[1..][..|rest[1..]| - 1] == rest[..|rest| - 1][1..];
    }
  }

  /** A list of two or more is joined as `Concat(join(all but last), last)`:
      the nesting is to the left and the last element is the outermost right
      operand. */
  lemma {:induction false} ConcatRegexListLeftNested<I>(regs: seq<Regex<I>>)
    requires |regs| >= 2
    ensures ConcatRegexList(regs) == Concat(ConcatRegexList(regs[..|regs| - 1]), regs[|regs| - 1])
  {
    ConcatFoldSnoc(regs[0], regs[1..]);
    assert regs[1..][..|regs[1..]| - 1] == regs[..|regs| - 1][1..];
  }

  /** `r{n}` splits into exactly `n` operands, each of them `r`. */
  lemma ExpandRepeatNOperands<I>(r: Regex<I>, n: nat)
    requires 1 <= n
    ensures var ops := Operands(ExpandRepeatN(r, n), n - 1);
      |ops| == n && forall k :: 0 <= k < n ==> ops[k] == r
  {
    ConcatRegexListRoundTrip(Copies(r, n));
  }

  /** `r{n,m}` splits into `m` operands: `r` at the first `n` positions and
      `r?` (with the same greediness) at the remaining `m - n`; `r{n,}` splits
      into `n` operands: `r` at the first `n - 1` and `r+` last. */
  lemma ExpandRepeatMinMaxOperands<I>(r: Regex<I>, n: nat, m: Option<nat>, greedy: bool)
    requires RepeatBoundsOk(n, m)
    ensures m.Some? ==>
      var ops := Operands(ExpandRepeatMinMax(r, n, m, greedy), m.value - 1);
      && |ops| == m.value
      && (forall k :: 0 <= k < n ==> ops[k] == r)
      && (forall k :: n <= k < m.value ==> ops[k] == ZeroOrOne(r, greedy))
    ensures m.None? ==>
      var ops := Operands(ExpandRepeatMinMax(r, n, m, greedy), n - 1);
      && |ops| == n
      && (forall k :: 0 <= k < n - 1 ==> ops[k] == r)
      && ops[n - 1] == Repeat1(r, greedy)
  {
    var regs := RepeatMinMaxList(r, n, m, greedy);
    ConcatRegexListRoundTrip(regs);
    match m
    case Some(mx) =>
      assert forall k :: n <= k < mx ==> regs[k] == Copies(ZeroOrOne(r, greedy), mx - n)[k - n];
    case None =>
  }

  // ---- Measures of joined lists, used by the compiler's termination and
  // ---- group-numbering proofs.

  function SumSize<I>(rs: seq<Regex<I>>): nat {
    if |rs| == 0 then 0 else Size(rs[0]) + SumSize(rs[1..])
  }

  function SumGroups<I>(rs: seq<Regex<I>>): nat {
    if |rs| == 0 then 0 else GroupCount(rs[0]) + SumGroups(rs[1..])
  }

  predicate AllWellFormed<I>(rs: seq<Regex<I>>) {
    forall k :: 0 <= k < |rs| ==> WellFormed(rs[k])
  }

  lemma {:induction false} SumsAppend<I>(a: seq<Regex<I>>, b: seq<Regex<I>>)
    ensures SumSize(a + b) == SumSize(a) + SumSize(b)
    ensures SumGroups(a + b) == SumGroups(a) + SumGroups(b)
    decreases |a|
  {
    if |a| > 0 {
      assert (a + b)[1..] == a[1..] + b;
      SumsAppend(a[1..], b);
    } else {
      assert a + b == b;
    }
  }

  lemma {:induction false} SumsCopies<I>(r: Regex<I>, n: nat)
    ensures SumSize(Copies(r, n)) == Times(n, Size(r))
    ensures SumGroups(Copies(r, n)) == Times(n, GroupCount(r))
  {
    if n > 0 {
      SumsCopies(r, n - 1);
      assert Copies(r, n)[1..] == Copies(r, n - 1);
    }
  }

  lemma {:induction false} ConcatFoldMeasures<I>(acc: Regex<I>, rest: seq<Regex<I>>)
    ensures Size(ConcatFold(acc, rest)) == Size(acc) + SumSize(rest) + |rest|
    ensures GroupCount(ConcatFold(acc, rest)) == GroupCount(acc) + SumGroups(rest)
    ensures WellFormed(acc) && AllWellFormed(rest) ==> WellFormed(ConcatFold(acc, rest))
    decreases |rest|
  {
    if |rest| > 0 {
      ConcatFoldMeasures(Concat(acc, rest[0]), rest[1..]);
    }
  }

  lemma ConcatRegexListMeasures<I>(regs: seq<Regex<I>>)
    requires |regs| >= 1
    ensures Size(ConcatRegexList(regs)) + 1 == SumSize(regs) + |regs|
    ensures GroupCount(ConcatRegexList(regs)) == SumGroups(regs)
    ensures AllWellFormed(regs) ==> WellFormed(ConcatRegexList(regs))
  {
    ConcatFoldMeasures(regs[0], regs[1..]);
  }

  lemma {:induction false} TimesSucc(k: nat, x: nat)
    ensures Times(k, x + 1) == Times(k, x) + k
  {
    if k > 0 {
      TimesSucc(k - 1, x);
    }
  }

  lemma {:induction false} TimesAdd(a: nat, b: nat, x: nat)
    ensures Times(a, x) + Times(b, x) == Times(a + b, x)
  {
    if a > 0 {
      TimesAdd(a - 1, b, x);
    }
  }

  lemma RepeatNArith(n: nat, s: nat, e: nat)
    requires e + 1 == Times(n, s) + n
    ensures e < Times(n, s + 1) + 1
  {
    TimesSucc(n, s);
  }

  lemma BoundedArith(n: nat, mx: nat, s: nat, sum: nat, e: nat)
    requires n <= mx
    requires sum == Times(n, s) + Times(mx - n, s + 1)
    requires e + 1 == sum + mx
    ensures e < Times(mx, s + 2) + 1
  {
    TimesSucc(mx - n, s);
    TimesAdd(n, mx - n, s);
    TimesSucc(mx, s + 1);
    TimesSucc(mx, s);
  }

  lemma UnboundedArith(n: nat, s: nat, sum: nat, e: nat)
    requires 1 <= n
    requires sum == Times(n - 1, s) + (s + 1)
    requires e + 1 == sum + n
    ensures e < Times(n, s + 1) + 1
  {
    TimesSucc(n - 1, s);
  }

  /** `r{n}` expands to a well-formed tree that is smaller than `r{n}` and
      holds `n` times the groups of `r`. */
  lemma ExpandRepeatNFacts<I>(r: Regex<I>, n: nat)
    requires 1 <= n && WellFormed(r)
    ensures Size(ExpandRepeatN(r, n)) < Size(RepeatN(r, n))
    ensures GroupCount(ExpandRepeatN(r, n)) == GroupCount(RepeatN(r, n))
    ensures WellFormed(ExpandRepeatN(r, n))
  {
    var e := ExpandRepeatN(r, n);
    var rs := Copies(r, n);
    assert Size(e) + 1 == SumSize(rs) + n && GroupCount(e) == SumGroups(rs) && WellFormed(e) by {
      ConcatRegexListMeasures(rs);
    }
    assert SumSize(rs) == Times(n, Size(r)) && SumGroups(rs) == Times(n, GroupCount(r)) by {
      SumsCopies(r, n);
    }
    RepeatNArith(n, Size(r), Size(e));
  }

  lemma BoundedListSums<I>(r: Regex<I>, n: nat, mx: nat, greedy: bool)
    requires RepeatBoundsOk(n, Some(mx)) && WellFormed(r)
    ensures SumSize(RepeatMinMaxList(r, n, Some(mx), greedy)) == Times(n, Size(r)) + Times(mx - n, Size(r) + 1)
    ensures SumGroups(RepeatMinMaxList(r, n, Some(mx), greedy)) == Times(n, GroupCount(r)) + Times(mx - n, GroupCount(r))
    ensures AllWellFormed(RepeatMinMaxList(r, n, Some(mx), greedy))
  {
    var z := ZeroOrOne(r, greedy);
    var a, b := Copies(r, n), Copies(z, mx - n);
    assert RepeatMinMaxList(r, n, Some(mx), greedy) == a + b;
    assert Size(z) == Size(r) + 1 && GroupCount(z) == GroupCount(r) && WellFormed(z);
    SumsAppend(a, b);
    SumsCopies(r, n);
    SumsCopies(z, mx - n);
    AllWellFormedAppend(a, b);
  }

  lemma AllWellFormedAppend<I>(a: seq<Regex<I>>, b: seq<Regex<I>>)
    requires AllWellFormed(a) && AllWellFormed(b)
    ensures AllWellFormed(a + b)
  {
    assert forall k :: 0 <= k < |a + b| ==> (a + b)[k] == (if k < |a| then a[k] else b[k - |a|]);
  }

  lemma ExpandBoundedSize<I>(r: Regex<I>, n: nat, mx: nat, greedy: bool)
    requires RepeatBoundsOk(n, Some(mx)) && WellFormed(r)
    ensures Size(ExpandRepeatMinMax(r, n, Some(mx), greedy)) < Size(RepeatMinMax(r, n, Some(mx), greedy))
  {
    var regs := RepeatMinMaxList(r, n, Some(mx), greedy);
    var e := ConcatRegexList(regs);
    assert ExpandRepeatMinMax(r, n, Some(mx), greedy) == e;
    assert Size(RepeatMinMax(r, n, Some(mx), greedy)) == Times(mx, Size(r) + 2) + 1;
    assert |regs| == mx;
    ConcatRegexListMeasures(regs);
    BoundedListSums(r, n, mx, greedy);
    BoundedArith(n, mx, Size(r), SumSize(regs), Size(e));
  }

  lemma ExpandBoundedFacts<I>(r: Regex<I>, n: nat, mx: nat, greedy: bool)
    requires RepeatBoundsOk(n, Some(mx)) && WellFormed(r)
    ensures Size(ExpandRepeatMinMax(r, n, Some(mx), greedy)) < Size(RepeatMinMax(r, n, Some(mx), greedy))
    ensures GroupCount(ExpandRepeatMinMax(r, n, Some(mx), greedy)) == GroupCount(RepeatMinMax(r, n, Some(mx), greedy))
    ensures WellFormed(ExpandRepeatMinMax(r, n, Some(mx), greedy))
  {
    ExpandBoundedSize(r, n, mx, greedy);
    ExpandBoundedGroups(r, n, mx, greedy);
  }

  lemma ExpandBoundedGroups<I>(r: Regex<I>, n: nat, mx: nat, greedy: bool)
    requires RepeatBoundsOk(n, Some(mx)) && WellFormed(r)
    ensures GroupCount(ExpandRepeatMinMax(r, n, Some(mx), greedy)) == Times(mx, GroupCount(r))
    ensures WellFormed(ExpandRepeatMinMax(r, n, Some(mx), greedy))
  {
    var regs := RepeatMinMaxList(r, n, Some(mx), greedy);
    var e := ConcatRegexList(regs);
    assert ExpandRepeatMinMax(r, n, Some(mx), greedy) == e;
    ConcatRegexListMeasures(regs);
    BoundedListSums(r, n, mx, greedy);
    TimesSplit(n, mx, GroupCount(r));
  }

  lemma TimesSplit(n: nat, mx: nat, x: nat)
    requires n <= mx
    ensures Times(n, x) + Times(mx - n, x) == Times(mx, x)
  {
    TimesAdd(n, mx - n, x);
  }

  lemma UnboundedListSums<I>(r: Regex<I>, n: nat, greedy: bool)
    requires RepeatBoundsOk(n, None) && WellFormed(r)
    ensures SumSize(RepeatMinMaxList(r, n, None, greedy)) == Times(n - 1, Size(r)) + (Size(r) + 1)
    ensures SumGroups(RepeatMinMaxList(r, n, None, greedy)) == Times(n, GroupCount(r))
    ensures AllWellFormed(RepeatMinMaxList(r, n, None, greedy))
  {
    var a, b := Copies(r, n - 1), [Repeat1(r, greedy)];
    assert RepeatMinMaxList(r, n, None, greedy) == a + b;
    assert SumSize(a + b) == SumSize(a) + SumSize(b) && SumGroups(a + b) == SumGroups(a) + SumGroups(b) by {
      SumsAppend(a, b);
    }
    assert SumSize(a) == Times(n - 1, Size(r)) && SumGroups(a) == Times(n - 1, GroupCount(r)) by {
      SumsCopies(r, n - 1);
    }
    assert SumSize(b) == Size(r) + 1 && SumGroups(b) == GroupCount(r) by {
      assert b[1..] == [];
    }
    assert Times(n - 1, GroupCount(r)) + GroupCount(r) == Times(n, GroupCount(r)) by {
      TimesAdd(n - 1, 1, GroupCount(r));
    }
    assert AllWellFormed(a + b) by {
      assert forall k :: 0 <= k < |a + b| ==> (a + b)[k] == r || (a + b)[k] == Repeat1(r, greedy);
    }
  }

  lemma ExpandUnboundedFacts<I>(r: Regex<I>, n: nat, greedy: bool)
    requires RepeatBoundsOk(n, None) && WellFormed(r)
    ensures Size(ExpandRepeatMinMax(r, n, None, greedy)) < Size(RepeatMinMax(r, n, None, greedy))
    ensures GroupCount(ExpandRepeatMinMax(r, n, None, greedy)) == GroupCount(RepeatMinMax(r, n, None, greedy))
    ensures WellFormed(ExpandRepeatMinMax(r, n, None, greedy))
  {
    var regs := RepeatMinMaxList(r, n, None, greedy);
    var e := ConcatRegexList(regs);
    assert ExpandRepeatMinMax(r, n, None, greedy) == e;
    assert Size(RepeatMinMax(r, n, None, greedy)) == Times(n, Size(r) + 1) + 1;
    assert |regs| == n;
    ConcatRegexListMeasures(regs);
    UnboundedListSums(r, n, greedy);
    UnboundedArith(n, Size(r), SumSize(regs), Size(e));
  }

  /** `r{n,m}` / `r{n,}` expand to a well-formed tree that is smaller than the
      repetition and holds the groups `GroupCount` assigns to it. */
  lemma ExpandRepeatMinMaxFacts<I>(r: Regex<I>, n: nat, m: Option<nat>, greedy: bool)
    requires RepeatBoundsOk(n, m) && WellFormed(r)
    ensures Size(ExpandRepeatMinMax(r, n, m, greedy)) < Size(RepeatMinMax(r, n, m, greedy))
    ensures GroupCount(ExpandRepeatMinMax(r, n, m, greedy)) == GroupCount(RepeatMinMax(r, n, m, greedy))
    ensures WellFormed(ExpandRepeatMinMax(r, n, m, greedy))
  {
    match m
    case Some(mx) => ExpandBoundedFacts(r, n, mx, greedy);
    case None => ExpandUnboundedFacts(r, n, greedy);
  }
}
