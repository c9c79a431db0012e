/** How menu_finalize combines, simplifies and compares dependencies. */
module ExprMenuDeps {
  import opened KconfigExpr
  import opened ExprTransform
  import opened ExprElim
  import opened ExprOrder
  import opened ExprJoin
  import opened ExprDups

  /** An expression pointer; NULL stands for "no condition" and evaluates to y. */
  datatype Ptr = Null | Ptr(e: Expr)

  function EvalPtr(p: Ptr, env: Env): Tri {
    if p.Null? then Y else Eval(p.e, env)
  }

  function PtrConstants(p: Ptr): set<Symbol> { if p.Null? then {} else Constants(p.e) }

  ghost predicate NormalPtr(p: Ptr) { p.Null? || Normal(p.e) }

  function AllocAnd(a: Ptr, b: Ptr): Ptr {
    if a.Null? then b else if b.Null? then a else Ptr(Bin(And, a.e, b.e))
  }

  lemma AllocAndValue(a: Ptr, b: Ptr, env: Env)
    ensures EvalPtr(AllocAnd(a, b), env) == Combine(And, EvalPtr(a, env), EvalPtr(b, env))
  {
  }

  // ---- rewrite_m

  function RewriteM(e: Expr, modules: Symbol): Expr {
    match e
    case Sym(s) => if s == MOD then Bin(And, e, Sym(modules)) else e
    case Cmp(_, _, _) => e
    case Not(a) => Not(RewriteM(a, modules))
    case Bin(op, a, b) => Bin(op, RewriteM(a, modules), RewriteM(b, modules))
  }

  /** The valuation in which the literal m is capped by the value of the modules symbol. */
  function CapM(env: Env, modules: Symbol): Env {
    (s: Symbol) => if s == MOD then Val(Combine(And, M, env(modules).tri), env(s).str) else env(s)
  }

  /** After rewrite_m a literal m counts as n when modules are off, and nothing else changes. */
  lemma {:induction false} RewriteMMeaning(e: Expr, modules: Symbol, env: Env)
    requires WellFormed(env)
    ensures Eval(RewriteM(e, modules), env) == Eval(e, CapM(env, modules))
    ensures Constants(RewriteM(e, modules)) == Constants(e)
  {
    match e
    case Sym(s) => assert Eval(Sym(MOD), env) == M;
    case Cmp(_, _, _) =>
    case Not(a) => RewriteMMeaning(a, modules, env);
    case Bin(_, a, b) => RewriteMMeaning(a, modules, env); RewriteMMeaning(b, modules, env);
  }

  lemma {:induction false} TransformConstants(e: Expr)
    ensures Constants(Transform(e)) <= Constants(e)
    decreases Weight(e)
  {
    match e
    case Sym(_) =>
    case Cmp(_, _, _) =>
    case Bin(_, a, b) => TransformConstants(a); TransformConstants(b);
    case Not(a) =>
      TransformConstants(a);
      match Transform(a)
      case Not(x) => TransformConstants(x);
      case Cmp(_, _, _) =>
      case Bin(op, x, y) =>
        DeMorganWeight(op, x, y);
        TransformConstants(Bin(Dual(op), Not(x), Not(y)));
        assert Constants(Not(x)) == Constants(x) && Constants(Not(y)) == Constants(y);
      case Sym(_) =>
  }

  // ---- expr_trans_bool

  function TransBool(e: Expr): Expr {
    match e
    case Sym(_) => e
    case Cmp(rel, l, r) => if rel == Neq && l.typ == Tristate && r == NO then Sym(l) else e
    case Not(a) => Not(TransBool(a))
    case Bin(op, a, b) => Bin(op, TransBool(a), TransBool(b))
  }

  function Promote(v: Tri): Tri { if v == M then Y else v }

  /** On normal forms the value changes at most from y to m. */
  lemma {:induction false} TransBoolValue(e: Expr, env: Env)
    requires WellFormed(env) && Normal(e)
    ensures Promote(Eval(TransBool(e), env)) == Promote(Eval(e, env))
    ensures Eval(TransBool(e), env) <= Eval(e, env)
  {
    match e
    case Sym(_) =>
    case Cmp(rel, l, r) => if l.typ == Tristate && r == NO { CompareWithConstant(env, l, r); }
    case Not(a) =>
    case Bin(op, a, b) => TransBoolValue(a, env); TransBoolValue(b, env);
  }

  /** Below a NOT the rewriting would be wrong: !(a != n) is n for a = m, but !a is m. menu_finalize,
      the only caller, passes normal forms, which have no such NOT. */
  lemma TransBoolNeedsNormalForm(a: Symbol)
    requires a.typ == Tristate
    ensures var e := Not(Cmp(Neq, a, NO));
      exists env: Env :: WellFormed(env) && Promote(Eval(TransBool(e), env)) != Promote(Eval(e, env))
  {
    var env := SampleEnv(a, M);
    assert WellFormed(env);
    CompareWithConstant(env, a, NO);
    assert Eval(Cmp(Neq, a, NO), env) == Y && Eval(Sym(a), env) == M;
    assert TransBool(Not(Cmp(Neq, a, NO))) == Not(Sym(a));
    assert Eval(Not(Sym(a)), env) == M;
  }

  /** Below the NOT of a normal form it is right in a valuation exactly if it does not lower the
      operand there. */
  lemma TransBoolUnderNotIff(a: Expr, env: Env)
    requires WellFormed(env) && Normal(a)
    ensures Promote(Eval(TransBool(Not(a)), env)) == Promote(Eval(Not(a), env))
       <==> Eval(TransBool(a), env) == Eval(a, env)
  {
    TransBoolValue(a, env);
  }

  // ---- dependency propagation

  ghost predicate SeparatedPtrs(a: Ptr, b: Ptr) { Separated(PtrConstants(a) + PtrConstants(b)) }

  /** expr_eliminate_dups on a pointer, as the rest of the program calls it. */
  method EliminateDuplicates(p: Ptr) returns (r: Ptr)
    requires Separated(PtrConstants(p))
    ensures forall env: Env :: WellFormed(env) ==> EvalPtr(r, env) == EvalPtr(p, env)
    ensures r.Null? == p.Null? && (r.Ptr? ==> DupFree(r.e) && Irredundant(r.e))
    ensures NormalPtr(p) ==> NormalPtr(r)
    ensures PtrConstants(r) <= PtrConstants(p) + {YES, MOD, NO}
  {
    if p.Null? {
      r := p;
    } else {
      var w := new Rewriter(p.e, 0);
      w.EliminateDups();
      r := Ptr(w.root);
    }
  }

  function RewriteAndTransform(p: Ptr, modules: Symbol): Ptr {
    if p.Null? then p else Ptr(Transform(RewriteM(p.e, modules)))
  }

  /** How a child's or property's own condition is combined with the inherited one: the result
      is y, m or n as both allow, in normal form and free of duplicates. For a symbol that is not
      a tristate, m may stand in for y. */
  method Propagate(inherited: Ptr, own: Ptr, modules: Symbol, toBool: bool) returns (dep: Ptr)
    requires NormalPtr(inherited) && SeparatedPtrs(inherited, own)
    ensures forall env: Env :: WellFormed(env) ==>
      var both := Combine(And, EvalPtr(inherited, env), EvalPtr(own, CapM(env, modules)));
      if toBool then EvalPtr(dep, env) <= both && Promote(EvalPtr(dep, env)) == Promote(both)
      else EvalPtr(dep, env) == both
    ensures !toBool ==> NormalPtr(dep) && (dep.Ptr? ==> DupFree(dep.e) && Irredundant(dep.e))
    ensures !toBool ==> PtrConstants(dep) <= PtrConstants(inherited) + PtrConstants(own) + {YES, MOD, NO}
  {
    var t := RewriteAndTransform(own, modules);
    var joined := AllocAnd(inherited, t);
    if own.Ptr? {
      TransformNormal(RewriteM(own.e, modules));
      TransformConstants(RewriteM(own.e, modules));
      var env0 := SampleEnv(YES, Y);
      assert WellFormed(env0);
      RewriteMMeaning(own.e, modules, env0);
    }
    SeparatedSubset(PtrConstants(joined), PtrConstants(inherited) + PtrConstants(own));
    var reduced := EliminateDuplicates(joined);
    dep := if toBool && reduced.Ptr? then Ptr(TransBool(reduced.e)) else reduced;
    forall env: Env | WellFormed(env)
      ensures var both := Combine(And, EvalPtr(inherited, env), EvalPtr(own, CapM(env, modules)));
        && EvalPtr(reduced, env) == both
        && EvalPtr(dep, env) <= both && Promote(EvalPtr(dep, env)) == Promote(both)
    {
      if own.Ptr? {
        RewriteMMeaning(own.e, modules, env);
        TransformPreservesValue(RewriteM(own.e, modules), env);
      }
      AllocAndValue(inherited, t, env);
      if toBool && reduced.Ptr? { TransBoolValue(reduced.e, env); }
    }
  }

  // ---- automatic submenus

  /** expr_trans_compare against n or y. */
  function TransCompare(e: Expr, rel: Rel, c: Symbol): Expr
    requires (rel == Eq || rel == Neq) && (c == YES || c == NO)
  {
    match e
    case Sym(s) => Cmp(rel, s, c)
    case Cmp(_, _, _) => if (rel == Eq) == (c == YES) then e else Not(e)
    case Not(a) => TransCompare(a, Flip(rel), c)
    case Bin(op, a, b) =>
      var both := Bin(if c == YES then op else Dual(op), TransCompare(a, Eq, c), TransCompare(b, Eq, c));
      if rel == Eq then both else Not(both)
  }

  function NotNo(p: Ptr): Expr {
    if p.Null? then Not(Sym(NO)) else TransCompare(p.e, Neq, NO)
  }

  /** Only logical symbols and y, m, n appear as operands, and nothing that is negated is m. */
  ghost predicate Comparable(e: Expr, env: Env) {
    match e
    case Sym(s) => IsLogic(s.typ) || IsConstant(s)
    case Cmp(_, _, _) => true
    case Not(a) => Comparable(a, env) && Eval(a, env) != M
    case Bin(_, a, b) => Comparable(a, env) && Comparable(b, env)
  }

  /** The comparison of an expression with n or y says what it should. */
  lemma {:induction false} TransCompareExact(e: Expr, rel: Rel, c: Symbol, env: Env)
    requires WellFormed(env) && Comparable(e, env) && (rel == Eq || rel == Neq) && (c == YES || c == NO)
    ensures Eval(TransCompare(e, rel, c), env) == TestValue(rel, Eval(e, env) == env(c).tri)
  {
    match e
    case Sym(s) =>
      if IsLogic(s.typ) { CompareWithConstant(env, s, c); } else { StrCmpZero(s.name, c.name); }
    case Cmp(_, _, _) =>
    case Not(a) => TransCompareExact(a, Flip(rel), c, env);
    case Bin(_, a, b) =>
      TransCompareExact(a, Eq, c, env);
      TransCompareExact(b, Eq, c, env);
  }

  /** Under a negation it is exact in a valuation exactly if the negated operand is not m there. */
  lemma TransCompareNotExactIff(a: Expr, rel: Rel, c: Symbol, env: Env)
    requires WellFormed(env) && Comparable(a, env) && (rel == Eq || rel == Neq) && (c == YES || c == NO)
    ensures Eval(TransCompare(Not(a), rel, c), env) == TestValue(rel, Eval(Not(a), env) == env(c).tri)
       <==> Eval(a, env) != M
  {
    TransCompareExact(a, Flip(rel), c, env);
  }

  /** Under a negated m it is not exact: !a is m for a = m, but "!a != n" becomes "a = n". */
  lemma TransCompareNegatedM(a: Symbol)
    requires a.typ == Tristate
    ensures TransCompare(Not(Sym(a)), Neq, NO) == Cmp(Eq, a, NO)
    ensures var e := Not(Sym(a));
      exists env: Env :: WellFormed(env) && Eval(e, env) != N && Eval(TransCompare(e, Neq, NO), env) == N
  {
    assert TransCompare(Not(Sym(a)), Neq, NO) == TransCompare(Sym(a), Eq, NO);
    var env := SampleEnv(a, M);
    assert WellFormed(env);
    CompareWithConstant(env, a, NO);
    assert Eval(Sym(a), env) == M;
    assert Eval(Cmp(Eq, a, NO), env) == N;
  }

  lemma {:induction false} TransCompareConstants(e: Expr, rel: Rel)
    requires rel == Eq || rel == Neq
    ensures Constants(TransCompare(e, rel, NO)) <= Constants(e) + {NO}
  {
    match e
    case Sym(_) =>
    case Cmp(_, _, _) => assert Constants(Not(e)) == Constants(e);
    case Not(a) => TransCompareConstants(a, Flip(rel));
    case Bin(op, a, b) =>
      TransCompareConstants(a, Eq);
      TransCompareConstants(b, Eq);
      var both := Bin(Dual(op), TransCompare(a, Eq, NO), TransCompare(b, Eq, NO));
      assert Constants(Not(both)) == Constants(both);
  }

  /** The simplified "dependency is not n" that menu_finalize compares. */
  method SimplifiedNotNo(p: Ptr) returns (r: Expr)
    requires Separated(PtrConstants(p))
    ensures Equivalent(r, NotNo(p)) && Irredundant(r)
  {
    var e := NotNo(p);
    if p.Ptr? { TransCompareConstants(p.e, Neq); }
    TransformConstants(e);
    SeparatedSubset(Constants(Transform(e)), PtrConstants(p));
    var q := EliminateDuplicates(Ptr(Transform(e)));
    r := q.e;
    forall env: Env | WellFormed(env)
      ensures Eval(r, env) == Eval(e, env)
    {
      TransformPreservesValue(e, env);
      assert EvalPtr(q, env) == EvalPtr(Ptr(Transform(e)), env);
    }
  }

  /** The simplified comparisons of an element's condition and of the symbol's prompt condition. */
  ghost predicate Simplified(dep: Ptr, basedep: Ptr, d: Expr, base: Expr) {
    Equivalent(d, NotNo(dep)) && Irredundant(d) && Equivalent(base, NotNo(basedep)) && Irredundant(base)
  }

  /** The first is an AND, and neither has y or n as an operand. */
  ghost predicate Conjunction(d: Expr, base: Expr) { IsBin(d, And) && NoYn(d) && NoYn(base) && !IsYn(base) }

  /** The superset test for an element after a symbol: dep is the element's condition, basedep the
      symbol's prompt condition. A positive answer means the element needs what the symbol needs; for a
      conjunction the answer is positive exactly if every operand on the symbol's side is also one on
      the element's, up to order and nesting. */
  method IsSuperset(dep: Ptr, basedep: Ptr) returns (superset: bool, ghost d: Expr, ghost base: Expr)
    requires Separated(PtrConstants(dep)) && Separated(PtrConstants(basedep))
    ensures superset ==> forall env: Env :: WellFormed(env) ==> Eval(NotNo(dep), env) <= Eval(NotNo(basedep), env)
    ensures Simplified(dep, basedep, d, base)
    ensures Conjunction(d, base) ==> (superset <==> Operands(And, base) <= Operands(And, d))
  {
    var dep2 := SimplifiedNotNo(basedep);
    var dep1 := SimplifiedNotNo(dep);
    d, base := dep1, dep2;
    var r := EliminateEq(dep1, dep2);
    superset := r.b == Sym(YES);
    if Conjunction(d, base) { ReducedToYesIff(d, base); }
    if superset {
      forall env: Env | WellFormed(env)
        ensures Eval(NotNo(dep), env) <= Eval(NotNo(basedep), env)
      {
        ResidueYesImpliesBelow(d, base, env);
        assert Eval(d, env) == Eval(NotNo(dep), env) && Eval(base, env) == Eval(NotNo(basedep), env);
      }
    }
  }

  /** What the order of the comparisons says about the conditions: the element is visible only
      where the symbol's prompt is. */
  lemma SupersetMeaning(dep: Expr, basedep: Expr, env: Env)
    requires WellFormed(env) && Comparable(dep, env) && Comparable(basedep, env)
    ensures Eval(NotNo(Ptr(dep)), env) <= Eval(NotNo(Ptr(basedep)), env)
       <==> (Eval(dep, env) != N ==> Eval(basedep, env) != N)
  {
    TransCompareExact(dep, Neq, NO, env);
    TransCompareExact(basedep, Neq, NO, env);
  }

  function ContainsSymbol(e: Expr, s: Symbol): bool {
    match e
    case Sym(t) => t == s
    case Cmp(_, l, r) => l == s || r == s
    case Not(a) => ContainsSymbol(a, s)
    case Bin(_, a, b) => ContainsSymbol(a, s) || ContainsSymbol(b, s)
  }

  /** expr_depends_symbol: the symbol stands as an operand of the outermost AND. */
  function DependsSymbol(e: Expr, s: Symbol): bool {
    match e
    case Sym(t) => t == s
    case Cmp(rel, l, r) => l == s && ((rel == Eq && (r == YES || r == MOD)) || (rel == Neq && r == NO))
    case Not(_) => false
    case Bin(op, a, b) => op == And && (DependsSymbol(a, s) || DependsSymbol(b, s))
  }

  /** What a dependency on a symbol looks like: the symbol, or the symbol compared with y, m or n. */
  ghost predicate Demand(u: Unordered, s: Symbol) {
    u in {Single(Sym(s)), Single(Cmp(Eq, s, YES)), Single(Cmp(Eq, s, MOD)), Single(Cmp(Neq, s, NO))}
  }

  /** A condition depends on a symbol in this sense exactly if such a demand is one of the operands of its
      outermost AND, or all of it. */
  lemma {:induction false} DependsSymbolIff(e: Expr, s: Symbol)
    ensures DependsSymbol(e, s) <==> exists u <- Operands(And, e) :: Demand(u, s)
  {
    if IsBin(e, And) {
      DependsSymbolIff(e.left, s);
      DependsSymbolIff(e.right, s);
      assert forall u :: u in Operands(And, e) <==> u in Operands(And, e.left) || u in Operands(And, e.right);
    } else {
      assert Forget(e) in Operands(And, e);
    }
  }

  /** A condition that depends on a symbol in this sense is n whenever the symbol is. */
  lemma {:induction false} DependsSymbolSound(e: Expr, s: Symbol, env: Env)
    requires WellFormed(env) && IsLogic(s.typ) && DependsSymbol(e, s) && env(s).tri == N
    ensures Eval(e, env) == N
  {
    match e
    case Sym(_) =>
    case Cmp(_, l, r) => CompareWithConstant(env, l, r);
    case Bin(_, a, b) =>
      if DependsSymbol(a, s) { DependsSymbolSound(a, s, env); } else { DependsSymbolSound(b, s, env); }
  }

  /** Whether menu_finalize puts an element with condition dep into the submenu of s. */
  method InSubmenu(dep: Ptr, s: Symbol, basedep: Ptr) returns (yes: bool, ghost d: Expr, ghost base: Expr)
    requires Separated(PtrConstants(dep)) && Separated(PtrConstants(basedep))
    ensures yes ==> dep.Ptr? && ContainsSymbol(dep.e, s)
    ensures dep.Ptr? && DependsSymbol(dep.e, s) ==> yes
    ensures dep.Ptr? && ContainsSymbol(dep.e, s) && !DependsSymbol(dep.e, s) ==>
      Simplified(dep, basedep, d, base) &&
      (Conjunction(d, base) ==> (yes <==> Operands(And, base) <= Operands(And, d)))
    ensures yes && (IsLogic(s.typ) || !DependsSymbol(dep.e, s)) ==> forall env: Env ::
      (WellFormed(env) && Comparable(dep.e, env) && (basedep.Ptr? ==> Comparable(basedep.e, env))
       && EvalPtr(dep, env) != N) ==> env(s).tri != N || EvalPtr(basedep, env) != N
  {
    d, base := NotNo(dep), NotNo(basedep);
    if dep.Null? || !ContainsSymbol(dep.e, s) {
      if dep.Ptr? && DependsSymbol(dep.e, s) { DependsImpliesContains(dep.e, s); }
      yes := false;
      return;
    }
    if DependsSymbol(dep.e, s) {
      forall env: Env | IsLogic(s.typ) && WellFormed(env) && env(s).tri == N ensures EvalPtr(dep, env) == N {
        DependsSymbolSound(dep.e, s, env);
      }
      yes := true;
      return;
    }
    yes, d, base := IsSuperset(dep, basedep);
    if yes && basedep.Ptr? {
      forall env: Env | WellFormed(env) && Comparable(dep.e, env) && Comparable(basedep.e, env)
        ensures Eval(dep.e, env) != N ==> Eval(basedep.e, env) != N
      {
        SupersetMeaning(dep.e, basedep.e, env);
      }
    }
  }

  lemma {:induction false} DependsImpliesContains(e: Expr, s: Symbol)
    requires DependsSymbol(e, s)
    ensures ContainsSymbol(e, s)
  {
    match e
    case Sym(_) =>
    case Cmp(_, _, _) =>
    case Bin(_, a, b) => if DependsSymbol(a, s) { DependsImpliesContains(a, s); } else { DependsImpliesContains(b, s); }
  }
}
