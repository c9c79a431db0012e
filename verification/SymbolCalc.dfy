/** sym_calc_value: the recursive evaluator with its VALID flags, and setting a user value. */
module SymbolCalc {
  import opened KconfigExpr
  import opened ExprMenuDeps
  import opened SymbolSpec
  import opened SymbolDeps

  class Calculator {
    const cfg: Config
    const modules: Tri
    var user: UserValues
    /** SYMBOL_VALID, and the curr field of the symbols that have it. */
    var valid: set<Symbol>
    var curr: map<Symbol, Val>
    /** The visible and rev_dep.tri fields that sym_calc_visibility leaves behind. */
    var visible: map<Symbol, Tri>
    var revDep: map<Symbol, Tri>

    constructor (cfg: Config, modules: Tri, user: UserValues)
      ensures this.cfg == cfg && this.modules == modules && this.user == user && valid == {}
    {
      this.cfg, this.modules, this.user := cfg, modules, user;
      valid, curr, visible, revDep := {}, map[], map[], map[];
    }

    /** The fields of one symbol hold what the solution v says. */
    ghost predicate Finished(s: Symbol, v: Env)
      reads this
    {
      && s in curr && curr[s] == v(s)
      && (IsLogic(s.typ) ==>
            && s in visible && visible[s] == Visible(s, DefOf(cfg, s), modules, v)
            && s in revDep && revDep[s] == Reverse(s, DefOf(cfg, s).revDep, modules, v))
    }

    /** Every valid symbol is finished, except the busy ones, which hold a placeholder. */
    ghost predicate Correct(v: Env, busy: set<Symbol>)
      reads this
    {
      busy <= valid && forall s <- valid :: s !in busy ==> Finished(s, v)
    }

    /** Symbols of rank below k may be calculated: none of them is busy. */
    ghost predicate Ready(v: Env, rank: Symbol -> nat, busy: set<Symbol>, k: nat)
      reads this
    {
      Ranked(cfg, rank) && Solution(cfg, user, modules, v) && Correct(v, busy) && forall b <- busy :: rank(b) >= k
    }

    ghost predicate Below(rank: Symbol -> nat, on: set<Symbol>, k: nat) { forall t <- on :: rank(t) < k }

    /** sym_calc_value. */
    method CalcValue(s: Symbol, ghost v: Env, ghost rank: Symbol -> nat, ghost busy: set<Symbol>)
      requires Ready(v, rank, busy, rank(s) + 1)
      modifies this`valid, this`curr, this`visible, this`revDep
      ensures Ready(v, rank, busy, rank(s) + 1) && old(valid) <= valid
      ensures s in valid && Finished(s, v)
      decreases rank(s), 3, 0
    {
      if s in valid {
        return;
      }
      Begin(s, v, busy);
      if s.typ == Unknown {
        UnknownSolution(s, v);
        Finish(s, if s == YES then Val(Y, "y") else if s == MOD then Val(M, "m") else Val(N, s.name), N, N, v, busy);
      } else if IsLogic(s.typ) {
        var tri, vis, rev := CalcLogic(s, v, rank, busy + {s});
        Finish(s, Val(tri, "n"), vis, rev, v, busy);
      } else {
        var text := CalcText(s, v, rank, busy + {s});
        Finish(s, Val(N, text), N, N, v, busy);
      }
    }

    /** The VALID flag is set first, with a placeholder that a recursive call would see. */
    method Begin(s: Symbol, ghost v: Env, ghost busy: set<Symbol>)
      requires Correct(v, busy) && s !in valid
      modifies this`valid, this`curr
      ensures Correct(v, busy + {s}) && valid == old(valid) + {s}
    {
      valid := valid + {s};
      curr := curr[s := Val(N, if IsLogic(s.typ) then "n" else "")];
    }

    /** The fields of s are filled in; it is not busy any more. */
    method Finish(s: Symbol, newval: Val, vis: Tri, rev: Tri, ghost v: Env, ghost busy: set<Symbol>)
      requires Correct(v, busy + {s}) && newval == v(s)
      requires IsLogic(s.typ) ==> vis == Visible(s, DefOf(cfg, s), modules, v)
      requires IsLogic(s.typ) ==> rev == Reverse(s, DefOf(cfg, s).revDep, modules, v)
      modifies this`curr, this`visible, this`revDep
      ensures Correct(v, busy) && s in valid && Finished(s, v)
    {
      if IsLogic(s.typ) {
        visible, revDep := visible[s := vis], revDep[s := rev];
      }
      curr := curr[s := newval];
    }

    lemma UnknownSolution(s: Symbol, v: Env)
      requires Solution(cfg, user, modules, v) && s.typ == Unknown
      ensures v(s) == if s == YES then Val(Y, "y") else if s == MOD then Val(M, "m") else Val(N, s.name)
    {
      assert v(s) == Calculated(cfg, user, modules, s, v);
    }

    /** The value of a boolean or tristate, with its visibility and reverse dependency. */
    method CalcLogic(s: Symbol, ghost v: Env, ghost rank: Symbol -> nat, ghost busy: set<Symbol>)
      returns (tri: Tri, vis: Tri, rev: Tri)
      requires IsLogic(s.typ) && s.typ != Unknown && Ready(v, rank, busy, rank(s))
      modifies this`valid, this`curr, this`visible, this`revDep
      ensures Ready(v, rank, busy, rank(s)) && old(valid) <= valid
      ensures v(s) == Val(tri, "n")
      ensures vis == Visible(s, DefOf(cfg, s), modules, v) && rev == Reverse(s, DefOf(cfg, s).revDep, modules, v)
      decreases rank(s), 2, 5
    {
      var d := DefOf(cfg, s);
      DepsBelow(s, rank);
      var dir, implied;
      vis, dir, rev, implied := CalcVisibility(s, d, v, rank, busy, rank(s));
      if vis != N && s in user {
        tri := Combine(And, user[s].tri, vis);
      } else {
        tri := CalcDefault(s, d, dir, implied, v, rank, busy, rank(s));
      }
      tri := PromoteFor(TypeOf(s, modules), Combine(Or, tri, rev));
      LogicSolution(s, v);
    }

    lemma DepsBelow(s: Symbol, rank: Symbol -> nat)
      requires Ranked(cfg, rank)
      ensures var d := DefOf(cfg, s);
        && Below(rank, PtrSymbols(d.dirDep), rank(s)) && Below(rank, PtrSymbols(d.revDep), rank(s))
        && Below(rank, PtrSymbols(d.implied), rank(s)) && Below(rank, PropsSymbols(d.props), rank(s))
    {
      var d := DefOf(cfg, s);
      assert Deps(cfg, s) ==
        PtrSymbols(d.dirDep) + PtrSymbols(d.revDep) + PtrSymbols(d.implied) + PropsSymbols(d.props);
    }

    lemma LogicSolution(s: Symbol, v: Env)
      requires Solution(cfg, user, modules, v) && IsLogic(s.typ)
      ensures v(s) == Val(LogicValue(s, DefOf(cfg, s), user, modules, v), "n")
    {
      assert v(s) == Calculated(cfg, user, modules, s, v);
    }

    lemma TextSolution(s: Symbol, v: Env)
      requires Solution(cfg, user, modules, v) && !IsLogic(s.typ) && s.typ != Unknown
      ensures v(s) == Val(N, TextValue(s, DefOf(cfg, s), user, modules, v))
    {
      assert v(s) == Calculated(cfg, user, modules, s, v);
    }

    /** sym_calc_visibility: the four conditions it evaluates. */
    method CalcVisibility(s: Symbol, d: Def, ghost v: Env, ghost rank: Symbol -> nat, ghost busy: set<Symbol>,
                          ghost k: nat)
      returns (vis: Tri, dir: Tri, rev: Tri, implied: Tri)
      requires Ready(v, rank, busy, k)
      requires Below(rank, PtrSymbols(d.dirDep), k) && Below(rank, PtrSymbols(d.revDep), k)
      requires Below(rank, PtrSymbols(d.implied), k) && Below(rank, PropsSymbols(d.props), k)
      modifies this`valid, this`curr, this`visible, this`revDep
      ensures Ready(v, rank, busy, k) && old(valid) <= valid
      ensures vis == Visible(s, d, modules, v) && dir == DirDep(s, d, modules, v)
      ensures rev == Reverse(s, d.revDep, modules, v) && implied == Reverse(s, d.implied, modules, v)
      decreases k, 2, 0
    {
      vis := CalcPrompts(d.props, v, rank, busy, k);
      if s.typ != Tristate || modules == N { vis := Promote(vis); }
      dir := CalcPtr(d.dirDep, v, rank, busy, k);
      dir := PromoteFor(TypeOf(s, modules), dir);
      rev := CalcReverse(s, d.revDep, v, rank, busy, k);
      implied := CalcReverse(s, d.implied, v, rank, busy, k);
    }

    method CalcReverse(s: Symbol, p: Ptr, ghost v: Env, ghost rank: Symbol -> nat, ghost busy: set<Symbol>,
                       ghost k: nat)
      returns (tri: Tri)
      requires Ready(v, rank, busy, k) && Below(rank, PtrSymbols(p), k)
      modifies this`valid, this`curr, this`visible, this`revDep
      ensures Ready(v, rank, busy, k) && old(valid) <= valid
      ensures tri == Reverse(s, p, modules, v)
      decreases k, 1, 0
    {
      tri := N;
      if p.Ptr? { tri := CalcExpr(p.e, v, rank, busy, k); }
      tri := PromoteFor(TypeOf(s, modules), tri);
    }

    /** The default of a boolean or tristate, raised by what implies it. */
    method CalcDefault(s: Symbol, d: Def, dir: Tri, implied: Tri, ghost v: Env,
      ghost rank: Symbol -> nat, ghost busy: set<Symbol>, ghost k: nat)
      returns (tri: Tri)
      requires Ready(v, rank, busy, k) && Below(rank, PropsSymbols(d.props), k)
      requires dir == DirDep(s, d, modules, v) && implied == Reverse(s, d.implied, modules, v)
      modifies this`valid, this`curr, this`visible, this`revDep
      ensures Ready(v, rank, busy, k) && old(valid) <= valid
      ensures tri == DefaultTri(s, d, modules, v)
      decreases k, 2, 0
    {
      var f := CalcFirstDefault(d.props, v, rank, busy, k);
      tri := N;
      if f.DefaultProp? {
        tri := CalcPtr(f.value, v, rank, busy, k);
        tri := Combine(And, tri, f.cond);
      }
      if implied != N {
        tri := Combine(And, Combine(Or, tri, implied), dir);
      }
    }

    /** The value of a string, int or hex symbol. */
    method CalcText(s: Symbol, ghost v: Env, ghost rank: Symbol -> nat, ghost busy: set<Symbol>) returns (text: string)
      requires !IsLogic(s.typ) && s.typ != Unknown && Ready(v, rank, busy, rank(s))
      modifies this`valid, this`curr, this`visible, this`revDep
      ensures Ready(v, rank, busy, rank(s)) && old(valid) <= valid
      ensures v(s) == Val(N, text)
      decreases rank(s), 2, 5
    {
      var d := DefOf(cfg, s);
      DepsBelow(s, rank);
      var vis, dir, rev, implied := CalcVisibility(s, d, v, rank, busy, rank(s));
      if vis != N && s in user {
        text := user[s].str;
      } else {
        var f := CalcFirstDefault(d.props, v, rank, busy, rank(s));
        text := "";
        if f.DefaultProp? && f.value.Ptr? && f.value.e.Sym? {
          CalcValue(f.value.e.s, v, rank, busy);
          text := curr[f.value.e.s].str;
        }
      }
      TextSolution(s, v);
    }

    /** The loop over the prompts. */
    method CalcPrompts(props: seq<Prop>, ghost v: Env, ghost rank: Symbol -> nat, ghost busy: set<Symbol>, ghost k: nat)
      returns (tri: Tri)
      requires Ready(v, rank, busy, k) && Below(rank, PropsSymbols(props), k)
      modifies this`valid, this`curr, this`visible, this`revDep
      ensures Ready(v, rank, busy, k) && old(valid) <= valid
      ensures tri == PromptsValue(props, v)
      decreases k, 1, 1
    {
      tri := N;
      for i := 0 to |props|
        invariant Ready(v, rank, busy, k) && old(valid) <= valid
        invariant Below(rank, PropsSymbols(props[i..]), k)
        invariant Combine(Or, tri, PromptsValue(props[i..], v)) == PromptsValue(props, v)
      {
        assert props[i..][1..] == props[i + 1..];
        if props[i].kind == Prompt {
          var c := CalcPtr(props[i].visible, v, rank, busy, k);
          tri := Combine(Or, tri, c);
        }
      }
    }

    /** sym_get_default_prop. */
    method CalcFirstDefault(props: seq<Prop>, ghost v: Env, ghost rank: Symbol -> nat, ghost busy: set<Symbol>,
                            ghost k: nat)
      returns (f: DefaultProp)
      requires Ready(v, rank, busy, k) && Below(rank, PropsSymbols(props), k)
      modifies this`valid, this`curr, this`visible, this`revDep
      ensures Ready(v, rank, busy, k) && old(valid) <= valid
      ensures f == FirstDefault(props, v)
      ensures f.DefaultProp? ==> Below(rank, PtrSymbols(f.value), k)
      decreases k, 1, 1
    {
      for i := 0 to |props|
        invariant Ready(v, rank, busy, k) && old(valid) <= valid
        invariant Below(rank, PropsSymbols(props[i..]), k)
        invariant FirstDefault(props[i..], v) == FirstDefault(props, v)
      {
        assert props[i..][1..] == props[i + 1..];
        if props[i].kind == Default {
          var c := CalcPtr(props[i].visible, v, rank, busy, k);
          if c != N {
            return DefaultProp(c, props[i].value);
          }
        }
      }
      return NoDefault;
    }

    method CalcPtr(p: Ptr, ghost v: Env, ghost rank: Symbol -> nat, ghost busy: set<Symbol>,
                   ghost k: nat) returns (tri: Tri)
      requires Ready(v, rank, busy, k) && Below(rank, PtrSymbols(p), k)
      modifies this`valid, this`curr, this`visible, this`revDep
      ensures Ready(v, rank, busy, k) && old(valid) <= valid
      ensures tri == EvalPtr(p, v)
      decreases k, 1, 0
    {
      tri := Y;
      if p.Ptr? { tri := CalcExpr(p.e, v, rank, busy, k); }
    }

    /** expr_calc_value. */
    method CalcExpr(e: Expr, ghost v: Env, ghost rank: Symbol -> nat, ghost busy: set<Symbol>, ghost k: nat)
      returns (tri: Tri)
      requires Ready(v, rank, busy, k) && Below(rank, ExprSymbols(e), k)
      modifies this`valid, this`curr, this`visible, this`revDep
      ensures Ready(v, rank, busy, k) && old(valid) <= valid
      ensures tri == Eval(e, v)
      decreases k, 0, Size(e)
    {
      match e
      case Sym(s) =>
        CalcValue(s, v, rank, busy);
        tri := curr[s].tri;
      case Cmp(rel, l, r) =>
        CalcValue(l, v, rank, busy);
        CalcValue(r, v, rank, busy);
        var now := curr;
        var values: Env := (t: Symbol) => if t in now then now[t] else Val(N, "");
        assert values(l) == v(l) && values(r) == v(r);
        tri := if Holds(rel, Compare(values, l, r)) then Y else N;
      case Not(a) =>
        tri := CalcExpr(a, v, rank, busy, k);
        tri := 2 - tri;
      case Bin(op, a, b) =>
        tri := CalcExpr(a, v, rank, busy, k);
        var tri2 := CalcExpr(b, v, rank, busy, k);
        tri := Combine(op, tri, tri2);
    }

    /** sym_set_tristate_value on a symbol outside choices whose value has been calculated. */
    method SetTristateValue(s: Symbol, val: Tri, ghost v: Env) returns (ok: bool)
      requires IsLogic(s.typ) && s in valid && Finished(s, v)
      modifies this`user, this`valid
      ensures ok <==> val == v(s).tri || WithinRange(s, modules, visible[s], revDep[s], val)
      ensures user == if ok then old(user)[s := Val(val, "")] else old(user)
      ensures valid == if ok && val != v(s).tri then {} else old(valid)
    {
      var oldval := curr[s].tri;
      if oldval != val && !WithinRange(s, modules, visible[s], revDep[s], val) {
        return false;
      }
      user := user[s := Val(val, "")];
      if oldval != val {
        valid := {};
      }
      return true;
    }

    /** Setting a value within range and calculating the symbol again gives that value. */
    method SetAndCalculate(s: Symbol, val: Tri, ghost v: Env, ghost rank: Symbol -> nat) returns (now: Tri)
      requires Ranked(cfg, rank) && Solution(cfg, user, modules, v) && Correct(v, {})
      requires IsLogic(s.typ) && s in valid
      requires WithinRange(s, modules, Visible(s, DefOf(cfg, s), modules, v),
                           Reverse(s, DefOf(cfg, s).revDep, modules, v), val)
      modifies this
      ensures now == val
    {
      assert Finished(s, v);
      var ok := SetTristateValue(s, val, v);
      assert ok;
      ghost var v' := v;
      if val == v(s).tri {
        ConfirmKeepsSolution(cfg, old(user), modules, v, s, Val(val, ""));
      } else {
        v' := Values(cfg, user, modules, rank);
        ValueIsSolution(cfg, user, modules, rank);
        SetThenRecalculate(cfg, old(user), modules, rank, v, v', s, Val(val, ""));
      }
      CalcValue(s, v', rank, {});
      now := curr[s].tri;
    }

    /** Calculating symbols in any order and any number of times. */
    method CalcAll(calls: seq<Symbol>, ghost v: Env, ghost rank: Symbol -> nat)
      requires Ranked(cfg, rank) && Solution(cfg, user, modules, v) && Correct(v, {})
      modifies this`valid, this`curr, this`visible, this`revDep
      ensures forall s <- calls :: s in curr && curr[s] == v(s)
    {
      for i := 0 to |calls|
        invariant Correct(v, {}) && forall s <- calls[..i] :: s in valid
      {
        CalcValue(calls[i], v, rank, {});
      }
      assert calls[..|calls|] == calls;
      forall s <- calls ensures s in curr && curr[s] == v(s) {
        assert Finished(s, v);
      }
    }
  }

  /** Checking a configuration and then calculating its symbols, in any order and any number of
      times, gives every one of them its value under the plain recursive definition. */
  method CheckAndCalculate(cfg: Config, modules: Tri, user: UserValues, symbols: seq<Symbol>, calls: seq<Symbol>)
    returns (errors: nat, values: map<Symbol, Val>)
    requires forall s: Symbol :: s in cfg ==> s in symbols
    requires forall s: Symbol, t: Symbol :: s in symbols && t in Deps(cfg, s) ==> t in symbols
    ensures errors == 0 <==> !Cyclic(DepGraph(cfg))
    ensures errors == 0 ==> forall v: Env, s: Symbol :: Solution(cfg, user, modules, v) && s in calls ==>
      s in values && values[s] == v(s)
  {
    ghost var rank: Symbol -> nat;
    errors, rank := CheckConfiguration(cfg, symbols);
    values := map[];
    if errors > 0 {
      return;
    }
    var calculator := new Calculator(cfg, modules, user);
    ghost var v := Values(cfg, user, modules, rank);
    ValueIsSolution(cfg, user, modules, rank);
    calculator.CalcAll(calls, v, rank);
    values := calculator.curr;
    forall w: Env, s: Symbol | Solution(cfg, user, modules, w) && s in calls
      ensures s in values && values[s] == w(s)
    {
      SolutionUnique(cfg, user, modules, rank, v, w, s);
    }
  }
}
