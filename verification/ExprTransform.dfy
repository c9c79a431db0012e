/** expr_transform: comparisons of booleans with constants are resolved and every NOT is
    pushed down to a symbol. */
module ExprTransform {
  import opened KconfigExpr

  /** NOT doubles the weight of what it negates, which pays for the two NOTs De Morgan adds. */
  function Weight(e: Expr): (n: nat)
    ensures n >= 1
  {
    match e
    case Sym(_) => 1
    case Cmp(_, _, _) => 3
    case Not(a) => 2 * Weight(a)
    case Bin(_, a, b) => Weight(a) + Weight(b) + 1
  }

  function Flip(rel: Rel): Rel {
    match rel
    case Eq => Neq
    case Neq => Eq
    case Le => Gt
    case Ge => Lt
    case Lt => Ge
    case Gt => Le
  }

  function Dual(op: Conn): Conn { if op == And then Or else And }

  predicate IsConstant(s: Symbol) { s == YES || s == MOD || s == NO }

  /** A boolean symbol tested for equality with y, m or n. */
  predicate BoolTest(rel: Rel, l: Symbol, r: Symbol) {
    (rel == Eq || rel == Neq) && l.typ == Boolean && IsConstant(r)
  }

  function TransformCmp(rel: Rel, l: Symbol, r: Symbol): Expr {
    if !BoolTest(rel, l, r) then Cmp(rel, l, r)
    else if r == MOD then Sym(if rel == Eq then NO else YES)
    else if (rel == Eq) == (r == NO) then Not(Sym(l))
    else Sym(l)
  }

  function TransformNotSymbol(s: Symbol): Expr {
    if s == YES then Sym(NO)
    else if s == NO then Sym(YES)
    else if s == MOD then Sym(MOD)
    else Not(Sym(s))
  }

  lemma DeMorganWeight(op: Conn, x: Expr, y: Expr)
    ensures Weight(Bin(Dual(op), Not(x), Not(y))) < 2 * Weight(Bin(op, x, y))
  {
    assert Weight(Not(x)) == 2 * Weight(x) && Weight(Not(y)) == 2 * Weight(y);
  }

  /** The source transforms the operands, then rewrites the node and, after removing a double
      negation or applying De Morgan, transforms the rewritten node once more. */
  function Transform(e: Expr): (r: Expr)
    ensures Weight(r) <= Weight(e)
    decreases Weight(e)
  {
    match e
    case Sym(_) => e
    case Cmp(rel, l, r) => TransformCmp(rel, l, r)
    case Bin(op, a, b) => Bin(op, Transform(a), Transform(b))
    case Not(a) =>
      match Transform(a)
      case Not(x) => Transform(x)
      case Cmp(rel, l, r) => Cmp(Flip(rel), l, r)
      case Bin(op, x, y) =>
        DeMorganWeight(op, x, y);
        Transform(Bin(Dual(op), Not(x), Not(y)))
      case Sym(s) => TransformNotSymbol(s)
  }

  /** Negation normal form: NOT only on a symbol other than y, m, n, and no boolean symbol
      tested against y, m or n. */
  ghost predicate Normal(e: Expr) {
    match e
    case Sym(_) => true
    case Cmp(rel, l, r) => !BoolTest(rel, l, r)
    case Not(a) => a.Sym? && !IsConstant(a.s)
    case Bin(_, a, b) => Normal(a) && Normal(b)
  }

  lemma {:induction false} TransformNormal(e: Expr)
    ensures Normal(Transform(e))
    decreases Weight(e)
  {
    match e
    case Sym(_) =>
    case Cmp(_, _, _) =>
    case Bin(_, a, b) => TransformNormal(a); TransformNormal(b);
    case Not(a) =>
      TransformNormal(a);
      match Transform(a)
      case Not(x) => TransformNormal(x);
      case Cmp(_, _, _) =>
      case Bin(op, x, y) =>
        DeMorganWeight(op, x, y);
        TransformNormal(Bin(Dual(op), Not(x), Not(y)));
      case Sym(_) =>
  }

  /** The rewritten expression has the same value under every well-formed valuation. */
  lemma {:induction false} TransformPreservesValue(e: Expr, env: Env)
    requires WellFormed(env)
    ensures Eval(Transform(e), env) == Eval(e, env)
    decreases Weight(e)
  {
    match e
    case Sym(_) =>
    case Cmp(rel, l, r) =>
      if BoolTest(rel, l, r) { CompareWithConstant(env, l, r); }
    case Bin(_, a, b) => TransformPreservesValue(a, env); TransformPreservesValue(b, env);
    case Not(a) =>
      TransformPreservesValue(a, env);
      match Transform(a)
      case Not(x) => TransformPreservesValue(x, env);
      case Cmp(_, _, _) =>
      case Bin(op, x, y) =>
        DeMorganWeight(op, x, y);
        TransformPreservesValue(Bin(Dual(op), Not(x), Not(y)), env);
      case Sym(_) =>
  }

  /** Normal forms are exactly the expressions that the transformation leaves alone. */
  lemma {:induction false} NormalIffFixed(e: Expr)
    ensures Normal(e) <==> Transform(e) == e
  {
    if Transform(e) == e { TransformNormal(e); }
    if Normal(e) { NormalIsFixed(e); }
  }

  lemma {:induction false} NormalIsFixed(e: Expr)
    requires Normal(e)
    ensures Transform(e) == e
  {
    match e
    case Sym(_) =>
    case Cmp(_, _, _) =>
    case Not(a) => assert Transform(a) == a;
    case Bin(_, a, b) => NormalIsFixed(a); NormalIsFixed(b);
  }
}
