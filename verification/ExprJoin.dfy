/** expr_join_or and expr_join_and: merging two operands of one OR or AND. */
module ExprJoin {
  import opened KconfigExpr
  import opened ExprTransform
  import opened ExprElim
  import opened ExprOrder

  datatype Joined = NoJoin | Join(e: Expr)

  datatype Subject = NoSubject | Subject(s: Symbol)

  predicate IsEquality(e: Expr) { e.Cmp? && (e.rel == Eq || e.rel == Neq) }

  function PlainSubject(e: Expr): Subject {
    if e.Sym? then Subject(e.s) else if IsEquality(e) then Subject(e.l) else NoSubject
  }

  /** The symbol a first operand talks about; it may be negated as a whole. */
  function Subject1(e: Expr): Subject {
    if e.Not? then PlainSubject(e.e) else PlainSubject(e)
  }

  /** A second operand may be a negated symbol but not a negated comparison. */
  function Subject2(e: Expr): Subject {
    if e.Not? then (if e.e.Sym? then Subject(e.e.s) else NoSubject) else PlainSubject(e)
  }

  predicate Is(e: Expr, rel: Rel, c: Symbol) { e.Cmp? && e.rel == rel && e.r == c }

  predicate Pair(e1: Expr, e2: Expr, rel: Rel, c: Symbol, d: Symbol) {
    (Is(e1, rel, c) && Is(e2, rel, d)) || (Is(e1, rel, d) && Is(e2, rel, c))
  }

  /** One operand is the bare symbol, the other the given comparison. */
  predicate SymbolAnd(e1: Expr, e2: Expr, rel: Rel, c: Symbol) {
    (e1.Sym? && Is(e2, rel, c)) || (e2.Sym? && Is(e1, rel, c))
  }

  predicate NotSymbolAndSymbol(e1: Expr, e2: Expr) {
    (e1.Not? && e1.e.Sym? && e2.Sym?) || (e2.Not? && e2.e.Sym? && e1.Sym?)
  }

  function JoinOrRules(a: Symbol, e1: Expr, e2: Expr): Joined {
    if a.typ == Tristate && Pair(e1, e2, Eq, YES, MOD) then Join(Cmp(Neq, a, NO))
    else if a.typ == Tristate && Pair(e1, e2, Eq, YES, NO) then Join(Cmp(Neq, a, MOD))
    else if a.typ == Tristate && Pair(e1, e2, Eq, MOD, NO) then Join(Cmp(Neq, a, YES))
    else if a.typ == Boolean && NotSymbolAndSymbol(e1, e2) then Join(Sym(YES))
    else NoJoin
  }

  /** a = b together with a != c, for constants b and c. */
  function JoinConstants(a: Symbol, b: Symbol, c: Symbol): Joined {
    if b != c then Join(Cmp(Eq, a, b)) else Join(Sym(NO))
  }

  predicate BothConst(e1: Expr, e2: Expr, rel1: Rel, rel2: Rel) {
    e1.Cmp? && e2.Cmp? && e1.rel == rel1 && e2.rel == rel2 && e1.r.isConst && e2.r.isConst
  }

  function JoinAndRules(a: Symbol, e1: Expr, e2: Expr): Joined {
    if SymbolAnd(e1, e2, Eq, YES) then Join(Cmp(Eq, a, YES))
    else if SymbolAnd(e1, e2, Neq, NO) then Join(Sym(a))
    else if SymbolAnd(e1, e2, Neq, MOD) then Join(Cmp(Eq, a, YES))
    else if a.typ != Tristate then NoJoin
    else if BothConst(e1, e2, Eq, Neq) then JoinConstants(a, e1.r, e2.r)
    else if BothConst(e1, e2, Neq, Eq) then JoinConstants(a, e2.r, e1.r)
    else if Pair(e1, e2, Neq, YES, NO) then Join(Cmp(Eq, a, MOD))
    else if Pair(e1, e2, Neq, YES, MOD) then Join(Cmp(Eq, a, NO))
    else if Pair(e1, e2, Neq, MOD, NO) then Join(Cmp(Eq, a, YES))
    else NoJoin
  }

  /** expr_join_or and expr_join_and; the rules apply to two operands about one logical symbol. */
  function JoinOperands(op: Conn, e1: Expr, e2: Expr): Joined {
    if ExprEq(e1, e2) then Join(e1)
    else if Subject1(e1).NoSubject? || Subject1(e1) != Subject2(e2) then NoJoin
    else
      var a := Subject1(e1).s;
      if !IsLogic(a.typ) then NoJoin
      else if op == Or then JoinOrRules(a, e1, e2) else JoinAndRules(a, e1, e2)
  }

  // ---- which operands are joined, without the order of the tests

  predicate OneSymbol(x: Expr, y: Expr) { x.Cmp? && y.Cmp? && x.l == y.l && x.l.typ == Tristate }

  /** Two different constants among y, m, n on the right. */
  predicate TwoConstants(x: Expr, y: Expr, rel: Rel) {
    OneSymbol(x, y) && x.rel == y.rel == rel && IsConstant(x.r) && IsConstant(y.r) && x.r != y.r
  }

  /** a = y or a = m, and so on, for a tristate; a or !a, for a boolean. */
  predicate OrPair(x: Expr, y: Expr) {
    TwoConstants(x, y, Eq) || (x.Sym? && x.s.typ == Boolean && y == Not(x))
  }

  /** a and a = y, a and a != n, a and a != m; and for a tristate a != y and a != n, and so on, and a = b
      and a != c for any constants. */
  predicate AndPair(x: Expr, y: Expr) {
    || (x.Sym? && IsLogic(x.s.typ) && y in {Cmp(Eq, x.s, YES), Cmp(Neq, x.s, NO), Cmp(Neq, x.s, MOD)})
    || TwoConstants(x, y, Neq)
    || (OneSymbol(x, y) && x.rel == Eq && y.rel == Neq && x.r.isConst && y.r.isConst)
  }

  /** Two operands that one operand can replace. */
  predicate NamedPair(op: Conn, x: Expr, y: Expr) {
    if op == Or then OrPair(x, y) || OrPair(y, x) else AndPair(x, y) || AndPair(y, x)
  }

  lemma OrRulesIff(a: Symbol, e1: Expr, e2: Expr)
    requires Subject1(e1) == Subject2(e2) == Subject(a)
    ensures JoinOrRules(a, e1, e2).Join? <==> NamedPair(Or, e1, e2)
  {
    assert YES != MOD && MOD != NO && YES != NO;
  }

  lemma AndRulesIff(a: Symbol, e1: Expr, e2: Expr)
    requires Subject1(e1) == Subject2(e2) == Subject(a) && IsLogic(a.typ)
    ensures JoinAndRules(a, e1, e2).Join? <==> NamedPair(And, e1, e2)
  {
    assert YES != MOD && MOD != NO && YES != NO;
  }

  lemma NamedPairSubjects(op: Conn, e1: Expr, e2: Expr)
    requires NamedPair(op, e1, e2)
    ensures Subject1(e1) == Subject2(e2) && Subject1(e1).Subject? && IsLogic(Subject1(e1).s.typ)
  {
  }

  /** Operands are joined exactly if they are equal in the sense of expr_eq or one of the named pairs. */
  lemma JoinIff(op: Conn, e1: Expr, e2: Expr)
    ensures JoinOperands(op, e1, e2).Join? <==> ExprEq(e1, e2) || NamedPair(op, e1, e2)
  {
    if NamedPair(op, e1, e2) { NamedPairSubjects(op, e1, e2); }
    if Subject1(e1) == Subject2(e2) && Subject1(e1).Subject? && IsLogic(Subject1(e1).s.typ) {
      if op == Or { OrRulesIff(Subject1(e1).s, e1, e2); } else { AndRulesIff(Subject1(e1).s, e1, e2); }
    }
  }

  /** No operand can stand for both: they differ, also up to order and nesting, and are no named pair. */
  ghost predicate Apart(op: Conn, x: Expr, y: Expr) {
    x != y && !NamedPair(op, x, y) && (NoYn(x) && NoYn(y) ==> Forget(x) != Forget(y))
  }

  lemma NotJoinedApart(op: Conn, x: Expr, y: Expr)
    requires JoinOperands(op, x, y).NoJoin?
    ensures Apart(op, x, y)
  {
    JoinIff(op, x, y);
    EqualsItself(x);
    if NoYn(x) && NoYn(y) { ExprEqIff(x, y); }
  }

  // ---- when a comparison of a tristate with a constant is true

  /** A tristate of value v compared with a constant: as text, or as a number if the name is one. */
  predicate EqualsConst(v: Tri, c: Symbol) {
    var p := ParseString(c.name, Unknown);
    if p.NotNumber? then TriName(v) == c.name else v == p.v
  }

  lemma CompareWithConst(env: Env, s: Symbol, c: Symbol)
    requires WellFormed(env) && IsLogic(s.typ) && c.typ == Unknown
    ensures (Compare(env, s, c) == 0) <==> EqualsConst(env(s).tri, c)
  {
    StrCmpZero(StringValue(s, env(s)), c.name);
  }

  /** The constants tristates are compared with for equality. */
  function Constants(e: Expr): set<Symbol> {
    match e
    case Sym(_) => {}
    case Cmp(rel, l, r) => if IsEquality(e) && l.typ == Tristate && r.isConst then {r} else {}
    case Not(a) => Constants(a)
    case Bin(_, a, b) => Constants(a) + Constants(b)
  }

  /** No tristate value equals two different constants. True whenever only y, m, n and
      strings that are not numbers are used; false for "2" beside y. */
  ghost predicate Separated(cs: set<Symbol>) {
    && (forall c <- cs :: c.typ == Unknown)
    && (forall c, d <- cs + {YES, MOD, NO}, v: Tri :: c != d && EqualsConst(v, c) ==> !EqualsConst(v, d))
  }

  lemma SeparatedSubset(small: set<Symbol>, large: set<Symbol>)
    requires Separated(large) && small <= large + {YES, MOD, NO}
    ensures Separated(small)
  {
  }

  /** What a join by rule looks like: a bare symbol, or a comparison of the subject. */
  ghost predicate RuleShape(a: Symbol, t: Expr, cs: set<Symbol>) {
    t.Sym? || (t.Cmp? && t.l == a && (t.rel == Eq || t.rel == Neq)
               && (t.r in {YES, MOD, NO} || (a.typ == Tristate && t.r.isConst && t.r in cs)))
  }

  lemma JoinOrShape(a: Symbol, e1: Expr, e2: Expr, cs: set<Symbol>)
    requires JoinOrRules(a, e1, e2).Join?
    ensures RuleShape(a, JoinOrRules(a, e1, e2).e, cs)
    ensures a.typ == Boolean ==> JoinOrRules(a, e1, e2).e.Sym?
  {
  }

  lemma JoinAndShape(a: Symbol, e1: Expr, e2: Expr)
    requires JoinAndRules(a, e1, e2).Join? && Subject1(e1) == Subject(a) == Subject2(e2)
    ensures RuleShape(a, JoinAndRules(a, e1, e2).e, Constants(e1) + Constants(e2))
  {
  }

  lemma RuleShapeFits(a: Symbol, t: Expr, cs: set<Symbol>)
    requires RuleShape(a, t, cs)
    ensures Size(t) == 1 && !t.Bin? && Constants(t) <= cs + {YES, MOD, NO}
  {
  }

  lemma {:induction false} SizePositive(e: Expr)
    ensures Size(e) >= 1
  {
  }

  lemma JoinNormal(op: Conn, e1: Expr, e2: Expr)
    requires JoinOperands(op, e1, e2).Join? && Normal(e1) && Normal(e2)
    ensures Normal(JoinOperands(op, e1, e2).e)
  {
  }

  /** A join keeps the node count down, keeps the operand kind, brings in no new constants
      besides y, m, n, and keeps the normal form. */
  lemma JoinShape(op: Conn, e1: Expr, e2: Expr)
    requires JoinOperands(op, e1, e2).Join?
    ensures var t := JoinOperands(op, e1, e2).e;
      && Size(t) < Size(e1) + Size(e2)
      && (t == e1 || !t.Bin?)
      && Constants(t) <= Constants(e1) + Constants(e2) + {YES, MOD, NO}
      && (Normal(e1) && Normal(e2) ==> Normal(t))
  {
    if Normal(e1) && Normal(e2) { JoinNormal(op, e1, e2); }
    SizePositive(e1);
    SizePositive(e2);
    if !ExprEq(e1, e2) {
      var a, t := Subject1(e1).s, JoinOperands(op, e1, e2).e;
      if op == Or { JoinOrShape(a, e1, e2, Constants(e1) + Constants(e2)); } else { JoinAndShape(a, e1, e2); }
      RuleShapeFits(a, t, Constants(e1) + Constants(e2));
    }
  }

  /** The value of a test of a logical symbol against a constant. */
  function TestValue(rel: Rel, equal: bool): Tri {
    if (rel == Eq) == equal then Y else N
  }

  lemma EvalTest(env: Env, rel: Rel, a: Symbol, c: Symbol)
    requires WellFormed(env) && IsLogic(a.typ) && c in {YES, MOD, NO} && (rel == Eq || rel == Neq)
    ensures Eval(Cmp(rel, a, c), env) == TestValue(rel, env(a).tri == env(c).tri)
  {
    CompareWithConstant(env, a, c);
  }

  lemma EvalConstTest(env: Env, rel: Rel, a: Symbol, c: Symbol)
    requires WellFormed(env) && IsLogic(a.typ) && c.typ == Unknown && (rel == Eq || rel == Neq)
    ensures Eval(Cmp(rel, a, c), env) == TestValue(rel, EqualsConst(env(a).tri, c))
  {
    CompareWithConst(env, a, c);
  }

  lemma JoinOrRulesExact(a: Symbol, e1: Expr, e2: Expr, env: Env)
    requires WellFormed(env) && IsLogic(a.typ)
    requires Subject1(e1) == Subject2(e2) == Subject(a) && JoinOrRules(a, e1, e2).Join?
    ensures Eval(JoinOrRules(a, e1, e2).e, env) == Combine(Or, Eval(e1, env), Eval(e2, env))
  {
    if a.typ == Tristate {
      EvalTest(env, Eq, a, e1.r);
      EvalTest(env, Eq, a, e2.r);
      EvalTest(env, Neq, a, JoinOrRules(a, e1, e2).e.r);
    }
  }

  lemma SymbolAndExact(a: Symbol, rel: Rel, c: Symbol, e1: Expr, e2: Expr, env: Env)
    requires WellFormed(env) && IsLogic(a.typ) && c in {YES, MOD, NO} && (rel == Eq || rel == Neq)
    requires Subject1(e1) == Subject2(e2) == Subject(a) && SymbolAnd(e1, e2, rel, c)
    ensures Combine(And, Eval(e1, env), Eval(e2, env))
         == Combine(And, env(a).tri, TestValue(rel, env(a).tri == env(c).tri))
  {
    EvalTest(env, rel, a, c);
    assert (e1 == Sym(a) && e2 == Cmp(rel, a, c)) || (e2 == Sym(a) && e1 == Cmp(rel, a, c));
  }

  lemma JoinConstantsExact(a: Symbol, b: Symbol, c: Symbol, env: Env)
    requires WellFormed(env) && a.typ == Tristate && b.isConst && c.isConst && Separated({b, c})
    ensures Eval(JoinConstants(a, b, c).e, env)
         == Combine(And, Eval(Cmp(Eq, a, b), env), Eval(Cmp(Neq, a, c), env))
  {
    EvalConstTest(env, Eq, a, b);
    EvalConstTest(env, Neq, a, c);
  }

  lemma PairNeqExact(a: Symbol, c: Symbol, d: Symbol, rest: Symbol, e1: Expr, e2: Expr, env: Env)
    requires WellFormed(env) && a.typ == Tristate && {c, d, rest} == {YES, MOD, NO}
    requires Subject1(e1) == Subject2(e2) == Subject(a) && Pair(e1, e2, Neq, c, d)
    ensures Eval(Cmp(Eq, a, rest), env) == Combine(And, Eval(e1, env), Eval(e2, env))
  {
    assert YES != MOD && YES != NO && MOD != NO;
    assert c in {YES, MOD, NO} && d in {YES, MOD, NO} && rest in {YES, MOD, NO};
    assert YES in {c, d, rest} && MOD in {c, d, rest} && NO in {c, d, rest};
    EvalTest(env, Neq, a, e1.r);
    EvalTest(env, Neq, a, e2.r);
    EvalTest(env, Eq, a, rest);
  }

  lemma JoinAndRulesExact(a: Symbol, e1: Expr, e2: Expr, env: Env)
    requires WellFormed(env) && IsLogic(a.typ) && Separated(Constants(e1) + Constants(e2))
    requires Subject1(e1) == Subject2(e2) == Subject(a) && JoinAndRules(a, e1, e2).Join?
    ensures Eval(JoinAndRules(a, e1, e2).e, env) == Combine(And, Eval(e1, env), Eval(e2, env))
  {
    if SymbolAnd(e1, e2, Eq, YES) {
      SymbolAndExact(a, Eq, YES, e1, e2, env);
      EvalTest(env, Eq, a, YES);
    } else if SymbolAnd(e1, e2, Neq, NO) {
      SymbolAndExact(a, Neq, NO, e1, e2, env);
    } else if SymbolAnd(e1, e2, Neq, MOD) {
      SymbolAndExact(a, Neq, MOD, e1, e2, env);
      EvalTest(env, Eq, a, YES);
    } else if BothConst(e1, e2, Eq, Neq) {
      assert Constants(e1) + Constants(e2) == {e1.r, e2.r};
      JoinConstantsExact(a, e1.r, e2.r, env);
    } else if BothConst(e1, e2, Neq, Eq) {
      assert Constants(e1) + Constants(e2) == {e2.r, e1.r};
      JoinConstantsExact(a, e2.r, e1.r, env);
    } else if Pair(e1, e2, Neq, YES, NO) {
      PairNeqExact(a, YES, NO, MOD, e1, e2, env);
    } else if Pair(e1, e2, Neq, YES, MOD) {
      PairNeqExact(a, YES, MOD, NO, e1, e2, env);
    } else {
      PairNeqExact(a, MOD, NO, YES, e1, e2, env);
    }
  }

  /** The merged operand has the value of the two it replaces. */
  lemma JoinExact(op: Conn, e1: Expr, e2: Expr, env: Env)
    requires WellFormed(env) && JoinOperands(op, e1, e2).Join?
    requires Separated(Constants(e1) + Constants(e2))
    ensures Eval(JoinOperands(op, e1, e2).e, env) == Combine(op, Eval(e1, env), Eval(e2, env))
  {
    if ExprEq(e1, e2) {
      ExprEqSound(e1, e2);
    } else if op == Or {
      JoinOrRulesExact(Subject1(e1).s, e1, e2, env);
    } else {
      JoinAndRulesExact(Subject1(e1).s, e1, e2, env);
    }
  }

  // ---- the rule for constants, exactly

  /** A valuation in which the tristate a has the value v. */
  function SampleEnv(a: Symbol, v: Tri): Env {
    (s: Symbol) => if s == YES then Val(Y, "y") else if s == MOD then Val(M, "m")
                   else if s == NO then Val(N, "n") else if s == a then Val(v, s.name) else Val(N, s.name)
  }

  /** (a = b) && (a != c) becomes (a = b): right in every valuation if and only if no tristate
      value equals both constants. */
  lemma ConstantRuleExactIff(a: Symbol, b: Symbol, c: Symbol)
    requires a.typ == Tristate && b != c
    requires b.isConst && c.isConst && b.typ == Unknown && c.typ == Unknown
    ensures JoinOperands(And, Cmp(Eq, a, b), Cmp(Neq, a, c)) == Join(Cmp(Eq, a, b))
    ensures Equivalent(Cmp(Eq, a, b), Bin(And, Cmp(Eq, a, b), Cmp(Neq, a, c)))
       <==> (forall v: Tri :: EqualsConst(v, b) ==> !EqualsConst(v, c))
  {
    var e := Bin(And, Cmp(Eq, a, b), Cmp(Neq, a, c));
    forall env: Env | WellFormed(env)
      ensures Eval(Cmp(Eq, a, b), env) != Eval(e, env)
         <==> EqualsConst(env(a).tri, b) && EqualsConst(env(a).tri, c)
    {
      CompareWithConst(env, a, b);
      CompareWithConst(env, a, c);
    }
    forall v: Tri | EqualsConst(v, b) && EqualsConst(v, c)
      ensures !Equivalent(Cmp(Eq, a, b), e)
    {
      var env := SampleEnv(a, v);
      assert WellFormed(env) && env(a).tri == v;
      assert Eval(Cmp(Eq, a, b), env) != Eval(e, env);
    }
  }

  /** The rule fails for a = "2" && a != y: both sides are true of a = y, so the operands are
      contradictory, but a = "2" is kept. */
  lemma ConstantRuleCounterexample(a: Symbol)
    requires a.typ == Tristate
    ensures var two := Symbol(7, "2", Unknown, true);
      && JoinOperands(And, Cmp(Eq, a, two), Cmp(Neq, a, YES)) == Join(Cmp(Eq, a, two))
      && !Equivalent(Cmp(Eq, a, two), Bin(And, Cmp(Eq, a, two), Cmp(Neq, a, YES)))
  {
    var two := Symbol(7, "2", Unknown, true);
    assert Digits("2", 10, 0) == Digits("", 10, 2) == 2 by { assert "2"[1..] == ""; }
    assert SkipSpace("2") == "2";
    assert ParseString("2", Unknown) == Signed(2);
    assert EqualsConst(Y, two) && EqualsConst(Y, YES);
    ConstantRuleExactIff(a, two, YES);
  }
}
