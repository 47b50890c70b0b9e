/** The regex abstract syntax tree consumed by the VM compiler, with the
    measures the compiler's proofs need. */
module RegexSyntax {
  import opened Wrappers

  /** A regex over symbols of type `I`. Symbol tests are caller-supplied
      pure predicates; counted repetitions carry their bounds. */
  datatype Regex<!I> =
    | Begin
    | End
    | Satisfy(pred: I -> bool)
    | NotSatisfy(pred: I -> bool)
    | Concat(left: Regex<I>, right: Regex<I>)
    | Group(body: Regex<I>)
    | NamedGroup(name: string, body: Regex<I>)
    | NonCapturingGroup(body: Regex<I>)
    | Or(left: Regex<I>, right: Regex<I>)
    | ZeroOrOne(body: Regex<I>, greedy: bool)
    | Repeat0(body: Regex<I>, greedy: bool)
    | Repeat1(body: Regex<I>, greedy: bool)
    | RepeatN(body: Regex<I>, n: nat)
    | RepeatMinMax(body: Regex<I>, min: nat, max: Option<nat>, greedy: bool)

  /** Bounds the expansion of counted repetition accepts without a panic or an
      unsigned underflow: `{n}` needs n >= 1, `{n,m}` needs 1 <= m and n <= m,
      and `{n,}` needs n >= 1. */
  predicate RepeatBoundsOk(min: nat, max: Option<nat>) {
    match max
    case Some(m) => 1 <= m && min <= m
    case None => 1 <= min
  }

  /** Every counted repetition in the tree has acceptable bounds. */
  predicate WellFormed<I>(reg: Regex<I>) {
    !HasBadRepeat(reg)
  }

  /** Some counted repetition in the tree has bounds the expansion rejects. */
  predicate HasBadRepeat<I>(reg: Regex<I>) {
    match reg
    case Begin => false
    case End => false
    case Satisfy(_) => false
    case NotSatisfy(_) => false
    case Concat(r, s) => HasBadRepeat(r) || HasBadRepeat(s)
    case Group(r) => HasBadRepeat(r)
    case NamedGroup(_, r) => HasBadRepeat(r)
    case NonCapturingGroup(r) => HasBadRepeat(r)
    case Or(r, s) => HasBadRepeat(r) || HasBadRepeat(s)
    case ZeroOrOne(r, _) => HasBadRepeat(r)
    case Repeat0(r, _) => HasBadRepeat(r)
    case Repeat1(r, _) => HasBadRepeat(r)
    case RepeatN(r, n) => n < 1 || HasBadRepeat(r)
    case RepeatMinMax(r, n, m, _) => !RepeatBoundsOk(n, m) || HasBadRepeat(r)
  }

  /** `k * x`, spelled as repeated addition so that the measures below stay
      in linear arithmetic. */
  function Times(k: nat, x: nat): nat {
    if k == 0 then 0 else x + Times(k - 1, x)
  }

  /** A size in which a counted repetition weighs more than the tree it
      expands to, so that compiling the expansion is a smaller problem. */
  function Size<I>(reg: Regex<I>): nat {
    match reg
    case Begin => 1
    case End => 1
    case Satisfy(_) => 1
    case NotSatisfy(_) => 1
    case Concat(r, s) => Size(r) + Size(s) + 1
    case Group(r) => Size(r) + 1
    case NamedGroup(_, r) => Size(r) + 1
    case NonCapturingGroup(r) => Size(r) + 1
    case Or(r, s) => Size(r) + Size(s) + 1
    case ZeroOrOne(r, _) => Size(r) + 1
    case Repeat0(r, _) => Size(r) + 1
    case Repeat1(r, _) => Size(r) + 1
    case RepeatN(r, n) => Times(n, Size(r) + 1) + 1
    case RepeatMinMax(r, n, Some(m), _) => Times(m, Size(r) + 2) + 1
    case RepeatMinMax(r, n, None, _) => Times(n, Size(r) + 1) + 1
  }

  /** The number of capturing groups (plain or named) in the tree once every
      counted repetition is expanded: a repeated body contributes its groups
      once per copy. */
  function GroupCount<I>(reg: Regex<I>): nat {
    match reg
    case Begin => 0
    case End => 0
    case Satisfy(_) => 0
    case NotSatisfy(_) => 0
    case Concat(r, s) => GroupCount(r) + GroupCount(s)
    case Group(r) => GroupCount(r) + 1
    case NamedGroup(_, r) => GroupCount(r) + 1
    case NonCapturingGroup(r) => GroupCount(r)
    case Or(r, s) => GroupCount(r) + GroupCount(s)
    case ZeroOrOne(r, _) => GroupCount(r)
    case Repeat0(r, _) => GroupCount(r)
    case Repeat1(r, _) => GroupCount(r)
    case RepeatN(r, n) => Times(n, GroupCount(r))
    case RepeatMinMax(r, n, Some(m), _) => Times(m, GroupCount(r))
    case RepeatMinMax(r, n, None, _) => Times(n, GroupCount(r))
  }
}
