/** expr_eliminate_yn, expr_eliminate_eq and expr_eq. */
module ExprElim {
  import opened KconfigExpr

  predicate IsBin(e: Expr, op: Conn) { e.Bin? && e.op == op }

  /** The operand that decides an AND or OR on its own. */
  function Absorbing(op: Conn): Expr { Sym(if op == And then NO else YES) }

  /** One node of expr_eliminate_yn, its operands already done. */
  function Prune(op: Conn, a: Expr, b: Expr): (r: Expr)
    ensures Size(r) <= 1 + Size(a) + Size(b)
  {
    if a == Absorbing(op) then Absorbing(op)
    else if a == Identity(op) then b
    else if b == Absorbing(op) then Absorbing(op)
    else if b == Identity(op) then a
    else Bin(op, a, b)
  }

  /** expr_eliminate_yn. It does not look below a NOT. */
  function EliminateYn(e: Expr): (r: Expr)
    ensures Size(r) <= Size(e)
  {
    match e
    case Bin(op, a, b) => Prune(op, EliminateYn(a), EliminateYn(b))
    case _ => e
  }

  /** Some AND or OR above every NOT has y or n as an operand. */
  ghost predicate HasConstant(e: Expr) {
    e.Bin? && (IsYn(e.left) || IsYn(e.right) || HasConstant(e.left) || HasConstant(e.right))
  }

  predicate IsYn(e: Expr) { e == Sym(YES) || e == Sym(NO) }

  lemma {:induction false} EliminateYnPreservesValue(e: Expr, env: Env)
    requires WellFormed(env)
    ensures Eval(EliminateYn(e), env) == Eval(e, env)
  {
    match e
    case Bin(_, a, b) => EliminateYnPreservesValue(a, env); EliminateYnPreservesValue(b, env);
    case _ =>
  }

  /** A constant operand always disappears, so the tree gets smaller, and none is left. */
  lemma {:induction false} EliminateYnShrinks(e: Expr)
    ensures HasConstant(e) ==> Size(EliminateYn(e)) < Size(e)
    ensures !HasConstant(EliminateYn(e))
  {
    match e
    case Bin(_, a, b) => EliminateYnShrinks(a); EliminateYnShrinks(b);
    case _ =>
  }

  // ---- common operands

  /** What is left of two expressions after equal operands were replaced on both sides. */
  datatype Residue = Residue(a: Expr, b: Expr)

  /** Slots holding the same y or n are skipped by __expr_eliminate_eq. */
  predicate SameYn(a: Expr, b: Expr) { a == b && IsYn(a) }

  /** __expr_eliminate_eq. The two slots lie in different trees. */
  function EliminateLeaves(op: Conn, a: Expr, b: Expr): (r: Residue)
    ensures Size(r.a) <= Size(a) && Size(r.b) <= Size(b)
    decreases Size(a) + Size(b), if IsBin(a, op) || IsBin(b, op) then 0 else 4
  {
    if IsBin(a, op) then
      var x := EliminateLeaves(op, a.left, b);
      var y := EliminateLeaves(op, a.right, x.b);
      Residue(Bin(op, x.a, y.a), y.b)
    else if IsBin(b, op) then
      var x := EliminateLeaves(op, a, b.left);
      var y := EliminateLeaves(op, x.a, b.right);
      Residue(y.a, Bin(op, x.b, y.b))
    else if SameYn(a, b) || !ExprEq(a, b) then Residue(a, b)
    else Residue(Identity(op), Identity(op))
  }

  /** The two switch statements of expr_eliminate_eq, before the constants are removed. */
  function EliminateCommon(a: Expr, b: Expr): (r: Residue)
    ensures Size(r.a) <= Size(a) && Size(r.b) <= Size(b)
    decreases Size(a) + Size(b), 1
  {
    var x := if a.Bin? then EliminateLeaves(a.op, a, b) else Residue(a, b);
    if x.b.Bin? && !IsBin(x.a, x.b.op) then EliminateLeaves(x.b.op, x.a, x.b) else x
  }

  /** expr_eliminate_eq on two non-null expressions. */
  function EliminateEq(a: Expr, b: Expr): (r: Residue)
    decreases Size(a) + Size(b), 2
  {
    var x := EliminateCommon(a, b);
    Residue(EliminateYn(x.a), EliminateYn(x.b))
  }

  /** expr_eq on two non-null expressions: AND and OR are compared up to order and nesting. */
  function ExprEq(a: Expr, b: Expr): bool
    decreases Size(a) + Size(b), 3
  {
    match (a, b)
    case (Sym(s), Sym(t)) => s == t
    case (Cmp(_, _, _), Cmp(_, _, _)) => a == b
    case (Not(x), Not(y)) => ExprEq(x, y)
    case (Bin(op, _, _), Bin(op', _, _)) =>
      op == op' && (var r := EliminateEq(a, b); r.a.Sym? && r.b.Sym? && r.a.s == r.b.s)
    case _ => false
  }

  /** Putting the common part back in front of a residue x. */
  function Restore(op1: Conn, c1: Expr, op2: Conn, c2: Expr, x: Expr): Expr {
    Bin(op1, c1, Bin(op2, c2, x))
  }

  /** Both expressions are their residue behind one and the same common part. */
  ghost predicate Splits(op: Conn, c: Expr, a: Expr, b: Expr, r: Residue) {
    Equivalent(a, Bin(op, c, r.a)) && Equivalent(b, Bin(op, c, r.b))
  }

  /** Two splits in a row: u with the left and then the right operand of an op. */
  lemma SplitsCompose(op: Conn, c1: Expr, c2: Expr, l: Expr, l': Expr, r: Expr, r': Expr,
                      u: Expr, u': Expr, u'': Expr)
    requires Equivalent(l, Bin(op, c1, l')) && Equivalent(u, Bin(op, c1, u'))
    requires Equivalent(r, Bin(op, c2, r')) && Equivalent(u', Bin(op, c2, u''))
    ensures Equivalent(Bin(op, l, r), Bin(op, Bin(op, c1, c2), Bin(op, l', r')))
    ensures Equivalent(u, Bin(op, Bin(op, c1, c2), u''))
  {
    forall env: Env | WellFormed(env)
      ensures Eval(Bin(op, l, r), env) == Eval(Bin(op, Bin(op, c1, c2), Bin(op, l', r')), env)
      ensures Eval(u, env) == Eval(Bin(op, Bin(op, c1, c2), u''), env)
    {
      assert Eval(l, env) == Eval(Bin(op, c1, l'), env) && Eval(r, env) == Eval(Bin(op, c2, r'), env);
      assert Eval(u, env) == Eval(Bin(op, c1, u'), env) && Eval(u', env) == Eval(Bin(op, c2, u''), env);
      assert Eval(Bin(op, c1, c2), env) == Combine(op, Eval(c1, env), Eval(c2, env));
      assert Eval(Bin(op, l', r'), env) == Combine(op, Eval(l', env), Eval(r', env));
    }
  }

  lemma IdentityNeutral(op: Conn, e: Expr)
    ensures Equivalent(e, Bin(op, Identity(op), e)) && Equivalent(e, Bin(op, e, Identity(op)))
  {
    forall env: Env | WellFormed(env)
      ensures Eval(e, env) == Eval(Bin(op, Identity(op), e), env) == Eval(Bin(op, e, Identity(op)), env)
    {
      assert Eval(Identity(op), env) == if op == And then Y else N;
    }
  }

  lemma EvalRestore(op1: Conn, c1: Expr, op2: Conn, c2: Expr, x: Expr, env: Env)
    ensures Eval(Restore(op1, c1, op2, c2, x), env)
         == Combine(op1, Eval(c1, env), Combine(op2, Eval(c2, env), Eval(x, env)))
  {
    assert Eval(Bin(op2, c2, x), env) == Combine(op2, Eval(c2, env), Eval(x, env));
  }

  lemma {:induction false} EliminateLeavesSplits(op: Conn, a: Expr, b: Expr) returns (c: Expr)
    ensures Splits(op, c, a, b, EliminateLeaves(op, a, b))
    decreases Size(a) + Size(b), if IsBin(a, op) || IsBin(b, op) then 0 else 4
  {
    if IsBin(a, op) {
      var x := EliminateLeaves(op, a.left, b);
      var c1 := EliminateLeavesSplits(op, a.left, b);
      var y := EliminateLeaves(op, a.right, x.b);
      var c2 := EliminateLeavesSplits(op, a.right, x.b);
      c := Bin(op, c1, c2);
      SplitsCompose(op, c1, c2, a.left, x.a, a.right, y.a, b, x.b, y.b);
    } else if IsBin(b, op) {
      var x := EliminateLeaves(op, a, b.left);
      var c1 := EliminateLeavesSplits(op, a, b.left);
      var y := EliminateLeaves(op, x.a, b.right);
      var c2 := EliminateLeavesSplits(op, x.a, b.right);
      c := Bin(op, c1, c2);
      SplitsCompose(op, c1, c2, b.left, x.b, b.right, y.b, a, x.a, y.a);
    } else if SameYn(a, b) || !ExprEq(a, b) {
      c := Identity(op);
      IdentityNeutral(op, a);
      IdentityNeutral(op, b);
    } else {
      ExprEqSound(a, b);
      c := a;
      IdentityNeutral(op, a);
    }
  }

  /** expr_eliminate_eq splits both sides as the same common part and a residue each. */
  lemma {:induction false} EliminateEqSplits(a: Expr, b: Expr)
    returns (op1: Conn, c1: Expr, op2: Conn, c2: Expr)
    ensures Equivalent(a, Restore(op1, c1, op2, c2, EliminateEq(a, b).a))
    ensures Equivalent(b, Restore(op1, c1, op2, c2, EliminateEq(a, b).b))
    decreases Size(a) + Size(b), 2
  {
    var x := Residue(a, b);
    op1, c1 := And, Identity(And);
    IdentityNeutral(And, a);
    IdentityNeutral(And, b);
    if a.Bin? {
      op1 := a.op;
      x := EliminateLeaves(op1, a, b);
      c1 := EliminateLeavesSplits(op1, a, b);
    }
    op2, c2 := And, Identity(And);
    var y := x;
    IdentityNeutral(And, x.a);
    IdentityNeutral(And, x.b);
    if x.b.Bin? && !IsBin(x.a, x.b.op) {
      op2 := x.b.op;
      y := EliminateLeaves(op2, x.a, x.b);
      c2 := EliminateLeavesSplits(op2, x.a, x.b);
    }
    forall env: Env | WellFormed(env)
      ensures Eval(a, env) == Eval(Restore(op1, c1, op2, c2, EliminateEq(a, b).a), env)
      ensures Eval(b, env) == Eval(Restore(op1, c1, op2, c2, EliminateEq(a, b).b), env)
    {
      EliminateYnPreservesValue(y.a, env);
      EliminateYnPreservesValue(y.b, env);
      EvalRestore(op1, c1, op2, c2, EliminateYn(y.a), env);
      EvalRestore(op1, c1, op2, c2, EliminateYn(y.b), env);
      SplitValue(op1, c1, a, b, x, env);
      SplitValue(op2, c2, x.a, x.b, y, env);
      assert EliminateEq(a, b) == Residue(EliminateYn(y.a), EliminateYn(y.b));
    }
  }

  /** A split in one valuation. */
  lemma SplitValue(op: Conn, c: Expr, a: Expr, b: Expr, r: Residue, env: Env)
    requires WellFormed(env) && Splits(op, c, a, b, r)
    ensures Eval(a, env) == Combine(op, Eval(c, env), Eval(r.a, env))
    ensures Eval(b, env) == Combine(op, Eval(c, env), Eval(r.b, env))
  {
    assert Eval(a, env) == Eval(Bin(op, c, r.a), env) && Eval(b, env) == Eval(Bin(op, c, r.b), env);
  }

  /** expr_eq answers true only for expressions that are equal under every valuation. */
  lemma {:induction false} ExprEqSound(a: Expr, b: Expr)
    requires ExprEq(a, b)
    ensures Equivalent(a, b)
    decreases Size(a) + Size(b), 3
  {
    match (a, b)
    case (Not(x), Not(y)) => ExprEqSound(x, y);
    case (Bin(_, _, _), Bin(_, _, _)) =>
      var op1, c1, op2, c2 := EliminateEqSplits(a, b);
      assert EliminateEq(a, b).a == EliminateEq(a, b).b;
    case _ =>
  }

  /** When elimination reduces b to y, a never exceeds b: the test menu_finalize relies on. */
  lemma ResidueYesImpliesBelow(a: Expr, b: Expr, env: Env)
    requires WellFormed(env) && EliminateEq(a, b).b == Sym(YES)
    ensures Eval(a, env) <= Eval(b, env)
  {
    var op1, c1, op2, c2 := EliminateEqSplits(a, b);
    assert Eval(a, env) == Eval(Restore(op1, c1, op2, c2, EliminateEq(a, b).a), env);
    assert Eval(b, env) == Eval(Restore(op1, c1, op2, c2, EliminateEq(a, b).b), env);
    EvalRestore(op1, c1, op2, c2, EliminateEq(a, b).a, env);
    EvalRestore(op1, c1, op2, c2, EliminateEq(a, b).b, env);
    assert Eval(Sym(YES), env) == Y;
  }
}
