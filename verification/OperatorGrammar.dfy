/** The Kotlin expression grammar: the flat binary rule with its precedence table against the
    layered reference rules.

    An expression is a list of operands with one operator between neighbours.  `Legal` says which
    trees the table and `prec.left` admit, `Parse` is the shift-reduce loop that resolves every
    conflict by the table, and `Derives` says which concrete trees the layered grammar derives. */
module OperatorGrammar {

  datatype Kind =
    | Multiplicative | Additive | Range | Infix | Elvis | In | Is
    | Comparison | Equality | Conjunction | Disjunction

  datatype Operator = Operator(kind: Kind, lexeme: string)

  datatype Expr = Operand(text: string) | Binary(left: Expr, op: Operator, right: Expr)

  // ---------- The flat grammar: PREC and prec.left ----------

  function Prec(op: Operator): nat {
    match op.kind
    case Multiplicative => 12
    case Additive => 11
    case Range => 10
    case Infix => 9
    case Elvis => 8
    case In => 7
    case Is => 7
    case Comparison => 6
    case Equality => 5
    case Conjunction => 4
    case Disjunction => 3
  }

  function Ops(t: Expr): seq<Operator> {
    match t
    case Operand(_) => []
    case Binary(l, op, r) => Ops(l) + [op] + Ops(r)
  }

  function Operands(t: Expr): (s: seq<string>)
    ensures |s| == |Ops(t)| + 1
  {
    match t
    case Operand(text) => [text]
    case Binary(l, _, r) => Operands(l) + Operands(r)
  }

  /** No conflict in `t` was resolved against the table: an operator to the left of `op` was reduced
      first only at an equal or higher level, one to its right only at a higher level. */
  predicate Legal(t: Expr) {
    t.Binary? ==>
      && Legal(t.left)
      && Legal(t.right)
      && (t.left.Binary? ==> Prec(t.left.op) >= Prec(t.op))
      && (t.right.Binary? ==> Prec(t.right.op) > Prec(t.op))
  }

  lemma {:induction false} RootBindsLoosest(t: Expr)
    requires Legal(t) && t.Binary?
    ensures forall i :: 0 <= i < |Ops(t)| ==> Prec(Ops(t)[i]) >= Prec(t.op)
    ensures forall i :: 0 <= i < |Ops(t.right)| ==> Prec(Ops(t.right)[i]) > Prec(t.op)
  {
    if t.left.Binary? {
      RootBindsLoosest(t.left);
    }
    if t.right.Binary? {
      RootBindsLoosest(t.right);
    }
  }

  lemma SplitAt<T>(s: seq<T>, a: seq<T>, x: T, b: seq<T>)
    requires s == a + [x] + b
    ensures s[|a|] == x && s[..|a|] == a && s[|a| + 1..] == b
    ensures forall m :: |a| < m < |s| ==> s[m] == b[m - |a| - 1]
  {
  }

  /** Two legal trees of one token string do not split it at different operators. */
  lemma SplitBefore(t: Expr, u: Expr)
    requires Legal(t) && Legal(u) && t.Binary? && u.Binary? && Ops(t) == Ops(u)
    ensures |Ops(t.left)| >= |Ops(u.left)|
  {
    RootBindsLoosest(t);
    RootBindsLoosest(u);
    var i, j := |Ops(t.left)|, |Ops(u.left)|;
    SplitAt(Ops(t), Ops(t.left), t.op, Ops(t.right));
    SplitAt(Ops(u), Ops(u.left), u.op, Ops(u.right));
    assert Prec(Ops(u)[i]) >= Prec(u.op);
  }

  /** A token string has at most one legal tree. */
  lemma {:induction false} LegalTreeUnique(t: Expr, u: Expr)
    requires Legal(t) && Legal(u)
    requires Ops(t) == Ops(u) && Operands(t) == Operands(u)
    ensures t == u
  {
    if t.Binary? && u.Binary? {
      SplitBefore(t, u);
      SplitBefore(u, t);
      SplitAt(Ops(t), Ops(t.left), t.op, Ops(t.right));
      SplitAt(Ops(u), Ops(u.left), u.op, Ops(u.right));
      var n := |Operands(t.left)|;
      assert Operands(t.left) == Operands(t)[..n] && Operands(u.left) == Operands(u)[..n];
      assert Operands(t.right) == Operands(t)[n..] && Operands(u.right) == Operands(u)[n..];
      LegalTreeUnique(t.left, u.left);
      LegalTreeUnique(t.right, u.right);
    } else {
      assert |Ops(t)| == |Ops(u)|;
      assert t == Operand(Operands(t)[0]) && u == Operand(Operands(u)[0]);
    }
  }

  // ---------- The shift-reduce loop ----------

  datatype Frame = Frame(left: Expr, op: Operator)

  /** One run of the parser from a stack, the tree on top of it and the tokens still to read. */
  function Run(stack: seq<Frame>, top: Expr, ops: seq<Operator>, operands: seq<string>): Expr
    requires |ops| == |operands|
    decreases 2 * |ops| + |stack|
  {
    if stack != [] && (ops == [] || Prec(stack[|stack| - 1].op) >= Prec(ops[0])) then
      var f := stack[|stack| - 1];
      Run(stack[..|stack| - 1], Binary(f.left, f.op, top), ops, operands)
    else if ops != [] then
      Run(stack + [Frame(top, ops[0])], Operand(operands[0]), ops[1..], operands[1..])
    else
      top
  }

  function Parse(ops: seq<Operator>, operands: seq<string>): Expr
    requires |operands| == |ops| + 1
  {
    Run([], Operand(operands[0]), ops, operands[1..])
  }

  function StackOps(stack: seq<Frame>): seq<Operator> {
    if stack == [] then []
    else StackOps(stack[..|stack| - 1]) + Ops(stack[|stack| - 1].left) + [stack[|stack| - 1].op]
  }

  function StackOperands(stack: seq<Frame>): seq<string> {
    if stack == [] then []
    else StackOperands(stack[..|stack| - 1]) + Operands(stack[|stack| - 1].left)
  }

  /** `t` may stand to the right of the operator in the topmost frame. */
  predicate FitsOn(stack: seq<Frame>, t: Expr) {
    Legal(t) && (stack != [] && t.Binary? ==> Prec(t.op) > Prec(stack[|stack| - 1].op))
  }

  predicate GoodStack(stack: seq<Frame>) {
    stack != [] ==>
      var below, f := stack[..|stack| - 1], stack[|stack| - 1];
      && GoodStack(below)
      && FitsOn(below, f.left)
      && (f.left.Binary? ==> Prec(f.left.op) >= Prec(f.op))
      && (below != [] ==> Prec(f.op) > Prec(below[|below| - 1].op))
  }

  ghost predicate Ready(stack: seq<Frame>, top: Expr, ops: seq<Operator>) {
    GoodStack(stack) && FitsOn(stack, top) && (top.Binary? && ops != [] ==> Prec(top.op) >= Prec(ops[0]))
  }

  lemma {:induction false} RunIsLegal(stack: seq<Frame>, top: Expr, ops: seq<Operator>, operands: seq<string>)
    requires |ops| == |operands| && Ready(stack, top, ops)
    ensures Legal(Run(stack, top, ops, operands))
    decreases 2 * |ops| + |stack|
  {
    if stack != [] && (ops == [] || Prec(stack[|stack| - 1].op) >= Prec(ops[0])) {
      var f := stack[|stack| - 1];
      RunIsLegal(stack[..|stack| - 1], Binary(f.left, f.op, top), ops, operands);
    } else if ops != [] {
      var stack' := stack + [Frame(top, ops[0])];
      assert stack'[..|stack|] == stack && stack'[|stack|] == Frame(top, ops[0]);
      RunIsLegal(stack', Operand(operands[0]), ops[1..], operands[1..]);
    }
  }

  lemma Regroup<T>(a: seq<T>, b: seq<T>, c: seq<T>, d: seq<T>)
    ensures a + (b + c) + d == (a + b) + c + d
    ensures a + (b + c) == a + b + c
  {
  }

  lemma PushedFrame(stack: seq<Frame>, f: Frame)
    ensures StackOps(stack + [f]) == StackOps(stack) + Ops(f.left) + [f.op]
    ensures StackOperands(stack + [f]) == StackOperands(stack) + Operands(f.left)
  {
    assert (stack + [f])[..|stack|] == stack;
  }

  lemma ShiftedToken<T>(before: seq<T>, tokens: seq<T>)
    requires tokens != []
    ensures before + [tokens[0]] + tokens[1..] == before + tokens
  {
  }

  lemma {:induction false} RunKeepsOps(stack: seq<Frame>, top: Expr, ops: seq<Operator>, operands: seq<string>)
    requires |ops| == |operands|
    ensures Ops(Run(stack, top, ops, operands)) == StackOps(stack) + Ops(top) + ops
    decreases 2 * |ops| + |stack|
  {
    if stack != [] && (ops == [] || Prec(stack[|stack| - 1].op) >= Prec(ops[0])) {
      var below, f := stack[..|stack| - 1], stack[|stack| - 1];
      RunKeepsOps(below, Binary(f.left, f.op, top), ops, operands);
      Regroup(StackOps(below), Ops(f.left), [f.op], Ops(top));
      Regroup(StackOps(below), Ops(f.left) + [f.op], Ops(top), ops);
    } else if ops != [] {
      var f := Frame(top, ops[0]);
      RunKeepsOps(stack + [f], Operand(operands[0]), ops[1..], operands[1..]);
      PushedFrame(stack, f);
      ShiftedToken(StackOps(stack) + Ops(top), ops);
      assert StackOps(stack + [f]) + [] == StackOps(stack + [f]);
    }
  }

  lemma {:induction false} RunKeepsOperands(stack: seq<Frame>, top: Expr, ops: seq<Operator>, operands: seq<string>)
    requires |ops| == |operands|
    ensures Operands(Run(stack, top, ops, operands)) == StackOperands(stack) + Operands(top) + operands
    decreases 2 * |ops| + |stack|
  {
    if stack != [] && (ops == [] || Prec(stack[|stack| - 1].op) >= Prec(ops[0])) {
      var below, f := stack[..|stack| - 1], stack[|stack| - 1];
      RunKeepsOperands(below, Binary(f.left, f.op, top), ops, operands);
      Regroup(StackOperands(below), Operands(f.left), Operands(top), operands);
    } else if ops != [] {
      var f := Frame(top, ops[0]);
      RunKeepsOperands(stack + [f], Operand(operands[0]), ops[1..], operands[1..]);
      PushedFrame(stack, f);
      ShiftedToken(StackOperands(stack) + Operands(top), operands);
    }
  }

  /** Every token string has exactly one legal tree, and the shift-reduce loop builds it. */
  lemma ParseIsTheLegalTree(ops: seq<Operator>, operands: seq<string>, t: Expr)
    requires |operands| == |ops| + 1
    ensures Legal(t) && Ops(t) == ops && Operands(t) == operands <==> t == Parse(ops, operands)
  {
    RunIsLegal([], Operand(operands[0]), ops, operands[1..]);
    RunKeepsOps([], Operand(operands[0]), ops, operands[1..]);
    RunKeepsOperands([], Operand(operands[0]), ops, operands[1..]);
    assert [operands[0]] + operands[1..] == operands;
    assert Ops(Parse(ops, operands)) == ops && Operands(Parse(ops, operands)) == operands;
    if Legal(t) && Ops(t) == ops && Operands(t) == operands {
      LegalTreeUnique(t, Parse(ops, operands));
    }
  }

  /** Three operands: the first operator is applied first exactly when its level is at least that of the second. */
  lemma TwoOperators(o: Operator, p: Operator, a: string, b: string, c: string)
    ensures Parse([o, p], [a, b, c]) ==
            if Prec(o) >= Prec(p) then Binary(Binary(Operand(a), o, Operand(b)), p, Operand(c))
            else Binary(Operand(a), o, Binary(Operand(b), p, Operand(c)))
  {
    var t := if Prec(o) >= Prec(p) then Binary(Binary(Operand(a), o, Operand(b)), p, Operand(c))
             else Binary(Operand(a), o, Binary(Operand(b), p, Operand(c)));
    var l, r := Binary(Operand(a), o, Operand(b)), Binary(Operand(b), p, Operand(c));
    assert Ops(l) == [o] && Operands(l) == [a, b];
    assert Ops(r) == [p] && Operands(r) == [b, c];
    assert Ops(t) == [o, p] && Operands(t) == [a, b, c];
    assert Legal(Operand(a)) && Legal(Operand(b)) && Legal(Operand(c));
    assert Legal(l) && Legal(r);
    assert Legal(t);
    ParseIsTheLegalTree([o, p], [a, b, c], t);
  }

  /** The kinds of operators, the tightest first; those in one place are on one level. */
  const TIGHTEST_FIRST: seq<seq<Kind>> := [
    [Multiplicative], [Additive], [Range], [Infix], [Elvis], [In, Is], [Comparison], [Equality], [Conjunction],
    [Disjunction]]

  lemma LevelsAsListed(i: nat, j: nat, o: Operator, p: Operator)
    requires i < 10 && j < 10 && o.kind in TIGHTEST_FIRST[i] && p.kind in TIGHTEST_FIRST[j]
    ensures Prec(o) > Prec(p) <==> i < j
  {
  }

  // ---------- The layered reference grammar ----------

  const OPERAND_LAYER: nat := 10
  const COMPARISON_LAYER: nat := 3
  const CHECK_LAYER: nat := 4

  /** Nesting depth below `expression` of the reference rule that introduces the operator. */
  function Layer(op: Operator): nat {
    match op.kind
    case Disjunction => 0
    case Conjunction => 1
    case Equality => 2
    case Comparison => 3
    case In => 4
    case Is => 4
    case Elvis => 5
    case Infix => 6
    case Range => 7
    case Additive => 8
    case Multiplicative => 9
  }

  /** `Chain(first, rest)` is one use of a rule `seq(x, repeat(seq(op, x)))`; the repetitions are kept
      with the last one outermost. */
  datatype Cst = Atom(text: string) | Chain(first: Cst, rest: Steps)
  datatype Steps = NoStep | Step(before: Steps, op: Operator, operand: Cst)

  /** `c` is derived by the reference rule at depth `k`.  A comparison takes at most one operator, and
      an `is` check a type, which is a single operand here, on its right. */
  predicate Derives(k: nat, c: Cst)
    requires k <= OPERAND_LAYER
    decreases c
  {
    if k == OPERAND_LAYER then c.Atom?
    else
      && c.Chain?
      && Derives(k + 1, c.first)
      && DerivesSteps(k, c.rest)
      && (k == COMPARISON_LAYER && c.rest.Step? ==> c.rest.before.NoStep?)
  }

  function CstOps(c: Cst): seq<Operator> {
    if c.Atom? then [] else CstOps(c.first) + StepOps(c.rest)
  }

  predicate DerivesSteps(k: nat, steps: Steps)
    requires k < OPERAND_LAYER
    decreases steps
  {
    steps.Step? ==>
      && DerivesSteps(k, steps.before)
      && Layer(steps.op) == k
      && Derives(k + 1, steps.operand)
      && (steps.op.kind.Is? ==> CstOps(steps.operand) == [])
  }

  function StepOps(steps: Steps): seq<Operator> {
    if steps.NoStep? then [] else StepOps(steps.before) + [steps.op] + CstOps(steps.operand)
  }

  function CstOperands(c: Cst): seq<string> {
    if c.Atom? then [c.text] else CstOperands(c.first) + StepOperands(c.rest)
  }

  function StepOperands(steps: Steps): seq<string> {
    if steps.NoStep? then [] else StepOperands(steps.before) + CstOperands(steps.operand)
  }

  /** The left-folded tree of a reference derivation. */
  function Fold(c: Cst): Expr
    decreases c
  {
    if c.Atom? then Operand(c.text) else FoldSteps(Fold(c.first), c.rest)
  }

  function FoldSteps(acc: Expr, steps: Steps): Expr
    decreases steps
  {
    if steps.NoStep? then acc else Binary(FoldSteps(acc, steps.before), steps.op, Fold(steps.operand))
  }

  /** The two ways in which the flat grammar derives more than the reference. */
  predicate InReference(t: Expr) {
    t.Binary? ==>
      && InReference(t.left)
      && InReference(t.right)
      && !(t.op.kind.Comparison? && t.left.Binary? && t.left.op.kind.Comparison?)
      && !(t.op.kind.Is? && t.right.Binary?)
  }

  lemma TableFollowsLayers(a: Operator, b: Operator)
    ensures Prec(a) < Prec(b) <==> Layer(a) < Layer(b)
  {
  }

  ghost predicate FoldFits(k: nat, t: Expr) {
    Legal(t) && InReference(t) && (t.Binary? ==> Layer(t.op) >= k)
  }

  lemma {:induction false} FoldKeepsTokens(c: Cst)
    ensures Ops(Fold(c)) == CstOps(c) && Operands(Fold(c)) == CstOperands(c)
    decreases c
  {
    if c.Chain? {
      FoldKeepsTokens(c.first);
      FoldStepsKeepsTokens(Fold(c.first), c.rest);
    }
  }

  lemma {:induction false} FoldStepsKeepsTokens(acc: Expr, steps: Steps)
    ensures Ops(FoldSteps(acc, steps)) == Ops(acc) + StepOps(steps)
    ensures Operands(FoldSteps(acc, steps)) == Operands(acc) + StepOperands(steps)
    decreases steps
  {
    if steps.Step? {
      FoldStepsKeepsTokens(acc, steps.before);
      FoldKeepsTokens(steps.operand);
      Regroup(Ops(acc), StepOps(steps.before), [steps.op], CstOps(steps.operand));
      Regroup(Ops(acc), StepOps(steps.before) + [steps.op], CstOps(steps.operand), []);
      Regroup(Operands(acc), StepOperands(steps.before), CstOperands(steps.operand), []);
    }
  }

  lemma {:induction false} FoldIsLegal(k: nat, c: Cst)
    requires k <= OPERAND_LAYER && Derives(k, c)
    ensures FoldFits(k, Fold(c))
    decreases c
  {
    if k < OPERAND_LAYER {
      FoldIsLegal(k + 1, c.first);
      FoldStepsIsLegal(k, Fold(c.first), c.rest);
    }
  }

  lemma {:induction false} FoldStepsIsLegal(k: nat, acc: Expr, steps: Steps)
    requires k < OPERAND_LAYER && DerivesSteps(k, steps)
    requires FoldFits(k + 1, acc)
    requires k == COMPARISON_LAYER && steps.Step? ==> steps.before.NoStep?
    ensures FoldFits(k, FoldSteps(acc, steps))
    decreases steps
  {
    if steps.Step? {
      FoldStepsIsLegal(k, acc, steps.before);
      FoldIsLegal(k + 1, steps.operand);
      FoldKeepsTokens(steps.operand);
      var l, r := FoldSteps(acc, steps.before), Fold(steps.operand);
      if l.Binary? {
        TableFollowsLayers(l.op, steps.op);
      }
      if r.Binary? {
        TableFollowsLayers(steps.op, r.op);
        assert |Ops(r)| > 0;
      }
    }
  }

  /** The reference derivation of a legal tree, read off from depth `k` on. */
  function Unfold(k: nat, t: Expr): Cst
    requires k <= OPERAND_LAYER
    decreases t, OPERAND_LAYER - k
  {
    if k == OPERAND_LAYER then
      Atom(if t.Operand? then t.text else "")
    else if t.Binary? && Layer(t.op) == k then
      var c := Unfold(k, t.left);
      if c.Atom? then c else Chain(c.first, Step(c.rest, t.op, Unfold(k + 1, t.right)))
    else
      Chain(Unfold(k + 1, t), NoStep)
  }

  lemma {:induction false} UnfoldDerives(k: nat, t: Expr)
    requires k <= OPERAND_LAYER && FoldFits(k, t)
    ensures Derives(k, Unfold(k, t)) && Fold(Unfold(k, t)) == t
    ensures k < OPERAND_LAYER && !(t.Binary? && Layer(t.op) == k) ==> Unfold(k, t).rest.NoStep?
    decreases t, OPERAND_LAYER - k
  {
    if k == OPERAND_LAYER {
    } else if t.Binary? && Layer(t.op) == k {
      if t.left.Binary? {
        TableFollowsLayers(t.left.op, t.op);
      }
      if t.right.Binary? {
        TableFollowsLayers(t.op, t.right.op);
      }
      UnfoldDerives(k, t.left);
      UnfoldDerives(k + 1, t.right);
      FoldKeepsTokens(Unfold(k + 1, t.right));
    } else {
      UnfoldDerives(k + 1, t);
    }
  }

  lemma {:induction false} UnfoldInvertsFold(k: nat, c: Cst)
    requires k <= OPERAND_LAYER && Derives(k, c)
    ensures Unfold(k, Fold(c)) == c
    decreases c
  {
    if k < OPERAND_LAYER {
      FoldIsLegal(k + 1, c.first);
      UnfoldInvertsFold(k + 1, c.first);
      UnfoldInvertsFoldSteps(k, c.first, c.rest);
    }
  }

  lemma {:induction false} UnfoldInvertsFoldSteps(k: nat, first: Cst, steps: Steps)
    requires k < OPERAND_LAYER && DerivesSteps(k, steps)
    requires FoldFits(k + 1, Fold(first)) && Unfold(k + 1, Fold(first)) == first
    ensures Unfold(k, FoldSteps(Fold(first), steps)) == Chain(first, steps)
    decreases steps
  {
    if steps.Step? {
      UnfoldInvertsFoldSteps(k, first, steps.before);
      UnfoldInvertsFold(k + 1, steps.operand);
    }
  }

  // ---------- The two grammars on token strings ----------

  /** Two comparisons with nothing but tighter operators between them. */
  predicate ChainedAt(ops: seq<Operator>, i: nat, j: nat) {
    && i < j < |ops|
    && ops[i].kind.Comparison? && ops[j].kind.Comparison?
    && forall m :: i < m < j ==> Layer(ops[m]) > COMPARISON_LAYER
  }

  predicate ChainedComparison(ops: seq<Operator>) {
    exists i: nat, j: nat :: i < |ops| && j < |ops| && ChainedAt(ops, i, j)
  }

  predicate OpenIsAt(ops: seq<Operator>, i: nat) {
    i + 1 < |ops| && ops[i].kind.Is? && Layer(ops[i + 1]) > CHECK_LAYER
  }

  /** An `is` whose right-hand side goes on with an operator that binds tighter. */
  predicate OpenIs(ops: seq<Operator>) {
    exists i: nat :: i < |ops| && OpenIsAt(ops, i)
  }

  lemma LayersOfLegal(t: Expr)
    requires Legal(t) && t.Binary?
    ensures forall i :: 0 <= i < |Ops(t.left)| ==> Layer(Ops(t.left)[i]) >= Layer(t.op)
    ensures forall i :: 0 <= i < |Ops(t.right)| ==> Layer(Ops(t.right)[i]) > Layer(t.op)
  {
    RootBindsLoosest(t);
    forall i | 0 <= i < |Ops(t.left)| ensures Layer(Ops(t.left)[i]) >= Layer(t.op) {
      assert Ops(t)[i] == Ops(t.left)[i];
      TableFollowsLayers(Ops(t.left)[i], t.op);
    }
    forall i | 0 <= i < |Ops(t.right)| ensures Layer(Ops(t.right)[i]) > Layer(t.op) {
      TableFollowsLayers(t.op, Ops(t.right)[i]);
    }
  }

  ghost predicate LeftChains(t: Expr)
    requires t.Binary?
  {
    t.op.kind.Comparison? && t.left.Binary? && t.left.op.kind.Comparison?
  }

  lemma ChainShift(s: seq<Operator>, off: nat, a: seq<Operator>, i: nat, j: nat)
    requires off + |a| <= |s| && s[off..off + |a|] == a && i < |a| && j < |a|
    ensures ChainedAt(a, i, j) <==> ChainedAt(s, off + i, off + j)
  {
    assert forall m :: 0 <= m < |a| ==> a[m] == s[off + m];
    if ChainedAt(a, i, j) {
      forall m | off + i < m < off + j ensures Layer(s[m]) > COMPARISON_LAYER {
        assert s[m] == a[m - off];
      }
    }
    if ChainedAt(s, off + i, off + j) {
      forall m | i < m < j ensures Layer(a[m]) > COMPARISON_LAYER {
        assert s[off + m] == a[m];
      }
    }
  }

  /** A chain lies on one side of `op`, or ends there with a comparison to the left. */
  lemma ChainLies(s: seq<Operator>, a: seq<Operator>, op: Operator, b: seq<Operator>, i: nat, j: nat)
    requires s == a + [op] + b && i < |s| && j < |s| && ChainedAt(s, i, j)
    requires forall m :: 0 <= m < |b| ==> Layer(b[m]) > Layer(op)
    ensures ChainedComparison(a) || ChainedComparison(b) || (op.kind.Comparison? && i < |a| && a[i].kind.Comparison?)
  {
    SplitAt(s, a, op, b);
    if j < |a| {
      ChainShift(s, 0, a, i, j);
    } else if i > |a| {
      ChainShift(s, |a| + 1, b, i - |a| - 1, j - |a| - 1);
    }
  }

  /** A comparison to which nothing looser is added belongs to the root's layer. */
  lemma RootOnTheWay(l: Expr)
    requires Legal(l) && l.Binary?
    ensures forall i :: 0 <= i < |Ops(l)| && Ops(l)[i].kind.Comparison? && Layer(l.op) >= COMPARISON_LAYER ==>
                          l.op.kind.Comparison?
  {
    LayersOfLegal(l);
    SplitAt(Ops(l), Ops(l.left), l.op, Ops(l.right));
    assert forall m :: 0 <= m < |Ops(l.left)| ==> Ops(l)[m] == Ops(l.left)[m];
  }

  lemma ChainComesFrom(t: Expr)
    requires Legal(t) && t.Binary? && ChainedComparison(Ops(t))
    ensures ChainedComparison(Ops(t.left)) || ChainedComparison(Ops(t.right)) || LeftChains(t)
  {
    var i: nat, j: nat :| i < |Ops(t)| && j < |Ops(t)| && ChainedAt(Ops(t), i, j);
    LayersOfLegal(t);
    ChainLies(Ops(t), Ops(t.left), t.op, Ops(t.right), i, j);
    if t.left.Binary? {
      RootOnTheWay(t.left);
    }
  }

  lemma ChainInside(s: seq<Operator>, off: nat, a: seq<Operator>)
    requires off + |a| <= |s| && s[off..off + |a|] == a && ChainedComparison(a)
    ensures ChainedComparison(s)
  {
    var i: nat, j: nat :| i < |a| && j < |a| && ChainedAt(a, i, j);
    ChainShift(s, off, a, i, j);
  }

  lemma ChainsOfParts(s: seq<Operator>, a: seq<Operator>, op: Operator, b: seq<Operator>)
    requires s == a + [op] + b
    ensures ChainedComparison(a) || ChainedComparison(b) ==> ChainedComparison(s)
  {
    if ChainedComparison(a) {
      ChainInside(s, 0, a);
    }
    if ChainedComparison(b) {
      ChainInside(s, |a| + 1, b);
    }
  }

  lemma LeftChainsChain(t: Expr)
    requires Legal(t) && t.Binary? && LeftChains(t)
    ensures ChainedComparison(Ops(t))
  {
    var l := t.left;
    LayersOfLegal(l);
    SplitAt(Ops(t), Ops(l), t.op, Ops(t.right));
    SplitAt(Ops(l), Ops(l.left), l.op, Ops(l.right));
    var s, i, j := Ops(t), |Ops(l.left)|, |Ops(l)|;
    assert s[i] == Ops(l)[i];
    forall m | i < m < j ensures Layer(s[m]) > COMPARISON_LAYER {
      assert s[m] == Ops(l)[m];
    }
    assert ChainedAt(s, i, j);
  }

  lemma ChainsOfBinary(t: Expr)
    requires Legal(t) && t.Binary?
    ensures ChainedComparison(Ops(t)) <==>
            ChainedComparison(Ops(t.left)) || ChainedComparison(Ops(t.right)) || LeftChains(t)
  {
    if ChainedComparison(Ops(t)) {
      ChainComesFrom(t);
    }
    ChainsOfParts(Ops(t), Ops(t.left), t.op, Ops(t.right));
    if LeftChains(t) {
      LeftChainsChain(t);
    }
  }

  /** Where an open `is` can lie when `op` is the loosest operator and looser than all to its right. */
  lemma OpenIsParts(s: seq<Operator>, a: seq<Operator>, op: Operator, b: seq<Operator>)
    requires s == a + [op] + b
    requires forall m :: 0 <= m < |a| ==> Layer(a[m]) >= Layer(op)
    requires forall m :: 0 <= m < |b| ==> Layer(b[m]) > Layer(op)
    ensures OpenIs(s) <==> OpenIs(a) || OpenIs(b) || (op.kind.Is? && b != [])
  {
    SplitAt(s, a, op, b);
    assert forall m :: 0 <= m < |a| ==> s[m] == a[m];
    if OpenIs(s) {
      var i: nat :| i < |s| && OpenIsAt(s, i);
      if i + 1 < |a| {
        assert OpenIsAt(a, i);
      } else if i > |a| {
        assert OpenIsAt(b, i - |a| - 1);
      }
    }
    if OpenIs(a) {
      var i: nat :| i < |a| && OpenIsAt(a, i);
      assert OpenIsAt(s, i);
    }
    if OpenIs(b) {
      var i: nat :| i < |b| && OpenIsAt(b, i);
      assert OpenIsAt(s, i + |a| + 1);
    }
    if op.kind.Is? && b != [] {
      assert OpenIsAt(s, |a|);
    }
  }

  lemma OpenIsOfBinary(t: Expr)
    requires Legal(t) && t.Binary?
    ensures OpenIs(Ops(t)) <==>
            OpenIs(Ops(t.left)) || OpenIs(Ops(t.right)) || (t.op.kind.Is? && t.right.Binary?)
  {
    LayersOfLegal(t);
    OpenIsParts(Ops(t), Ops(t.left), t.op, Ops(t.right));
    assert t.right.Binary? <==> Ops(t.right) != [];
  }

  /** Token strings decide whether a legal tree stays inside the reference grammar. */
  lemma {:induction false} InReferenceByTokens(t: Expr)
    requires Legal(t)
    ensures InReference(t) <==> !ChainedComparison(Ops(t)) && !OpenIs(Ops(t))
  {
    if t.Binary? {
      InReferenceByTokens(t.left);
      InReferenceByTokens(t.right);
      LayersOfLegal(t);
      ChainsOfBinary(t);
      OpenIsOfBinary(t);
    }
  }

  ghost predicate IsDerivation(c: Cst, ops: seq<Operator>, operands: seq<string>) {
    Derives(0, c) && CstOps(c) == ops && CstOperands(c) == operands
  }

  /** The rewriting preserves meaning: whatever the reference derives for a token string, its
      left-folded tree is the one the flat grammar builds, and the derivation is the only one. */
  lemma RewritingPreservesMeaning(c: Cst, ops: seq<Operator>, operands: seq<string>)
    requires |operands| == |ops| + 1 && IsDerivation(c, ops, operands)
    ensures Fold(c) == Parse(ops, operands)
    ensures c == Unfold(0, Parse(ops, operands))
  {
    FoldIsLegal(0, c);
    FoldKeepsTokens(c);
    ParseIsTheLegalTree(ops, operands, Fold(c));
    UnfoldInvertsFold(0, c);
  }

  /** The reference derives exactly the token strings without a chained comparison and without an
      `is` check that goes on to the right. */
  lemma ReferenceDerivesExactly(ops: seq<Operator>, operands: seq<string>)
    requires |operands| == |ops| + 1
    ensures (exists c :: IsDerivation(c, ops, operands)) <==> !ChainedComparison(ops) && !OpenIs(ops)
  {
    var t := Parse(ops, operands);
    ParseIsTheLegalTree(ops, operands, t);
    InReferenceByTokens(t);
    if InReference(t) {
      UnfoldDerives(0, t);
      FoldKeepsTokens(Unfold(0, t));
      assert IsDerivation(Unfold(0, t), ops, operands);
    }
    if c :| IsDerivation(c, ops, operands) {
      RewritingPreservesMeaning(c, ops, operands);
      FoldIsLegal(0, c);
    }
  }
}
