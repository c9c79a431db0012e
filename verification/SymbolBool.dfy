/** What expr_trans_bool, applied by menu_finalize to the conditions of all symbols that are no
    tristates, does to their values and to those of the symbols they select. */
module SymbolBool {
  import opened KconfigExpr
  import opened ExprTransform
  import opened ExprMenuDeps
  import opened SymbolSpec

  function TransBoolPtr(p: Ptr): Ptr { if p.Null? then p else Ptr(TransBool(p.e)) }

  lemma TransBoolPtrValue(p: Ptr, env: Env)
    requires WellFormed(env) && NormalPtr(p)
    ensures Promote(EvalPtr(TransBoolPtr(p), env)) == Promote(EvalPtr(p, env))
    ensures EvalPtr(TransBoolPtr(p), env) <= EvalPtr(p, env)
  {
    if p.Ptr? { TransBoolValue(p.e, env); }
  }

  // ---- prompts and defaults

  function BoolProps(props: seq<Prop>): seq<Prop> {
    if props == [] then []
    else [props[0].(visible := TransBoolPtr(props[0].visible))] + BoolProps(props[1..])
  }

  function BoolDef(d: Def): Def { d.(props := BoolProps(d.props)) }

  /** The configuration that menu_finalize makes of one with transformed conditions. */
  function BoolConfig(cfg: Config): Config {
    map s | s in cfg :: if s.typ != Tristate then BoolDef(cfg[s]) else cfg[s]
  }

  ghost predicate NormalProps(props: seq<Prop>) { forall p <- props :: NormalPtr(p.visible) }

  ghost predicate NormalConfig(cfg: Config) { forall s <- cfg :: NormalProps(cfg[s].props) }

  lemma {:induction false} BoolPromptsValue(props: seq<Prop>, env: Env)
    requires WellFormed(env) && NormalProps(props)
    ensures Promote(PromptsValue(BoolProps(props), env)) == Promote(PromptsValue(props, env))
  {
    if props != [] {
      assert props[0] in props && BoolProps(props)[1..] == BoolProps(props[1..]);
      TransBoolPtrValue(props[0].visible, env);
      BoolPromptsValue(props[1..], env);
    }
  }

  lemma {:induction false} BoolFirstDefault(props: seq<Prop>, env: Env)
    requires WellFormed(env) && NormalProps(props)
    ensures var f, g := FirstDefault(props, env), FirstDefault(BoolProps(props), env);
      (f.NoDefault? && g.NoDefault?) ||
      (f.DefaultProp? && g.DefaultProp? && f.value == g.value && Promote(f.cond) == Promote(g.cond))
  {
    if props != [] {
      assert props[0] in props && BoolProps(props)[1..] == BoolProps(props[1..]);
      TransBoolPtrValue(props[0].visible, env);
      BoolFirstDefault(props[1..], env);
    }
  }

  /** Prompts keep the visibility of a symbol that is no tristate. */
  lemma VisibilityUnchanged(s: Symbol, d: Def, modules: Tri, env: Env)
    requires WellFormed(env) && s.typ != Tristate && NormalProps(d.props)
    ensures Visible(s, BoolDef(d), modules, env) == Visible(s, d, modules, env)
  {
    BoolPromptsValue(d.props, env);
  }

  /** Prompts and defaults together keep its value. */
  lemma CalculatedUnchanged(cfg: Config, user: UserValues, modules: Tri, s: Symbol, env: Env)
    requires WellFormed(env) && NormalConfig(cfg)
    ensures Calculated(BoolConfig(cfg), user, modules, s, env) == Calculated(cfg, user, modules, s, env)
  {
    if s in cfg && s.typ != Tristate {
      VisibilityUnchanged(s, cfg[s], modules, env);
      BoolFirstDefault(cfg[s].props, env);
    }
  }

  /** So both configurations have the same solutions. */
  lemma SameSolutions(cfg: Config, user: UserValues, modules: Tri, v: Env)
    requires NormalConfig(cfg)
    ensures Solution(BoolConfig(cfg), user, modules, v) <==> Solution(cfg, user, modules, v)
  {
    if Solution(cfg, user, modules, v) {
      SolutionWellFormed(cfg, user, modules, v);
      forall s: Symbol ensures v(s) == Calculated(BoolConfig(cfg), user, modules, s, v) {
        CalculatedUnchanged(cfg, user, modules, s, v);
        assert v(s) == Calculated(cfg, user, modules, s, v);
      }
    }
    if Solution(BoolConfig(cfg), user, modules, v) {
      SolutionWellFormed(BoolConfig(cfg), user, modules, v);
      forall s: Symbol ensures v(s) == Calculated(cfg, user, modules, s, v) {
        CalculatedUnchanged(cfg, user, modules, s, v);
        assert v(s) == Calculated(BoolConfig(cfg), user, modules, s, v);
      }
    }
  }

  // ---- selects and implies

  function AllocOr(a: Ptr, b: Ptr): Ptr {
    if a.Null? then b else if b.Null? then a else Ptr(Bin(Or, a.e, b.e))
  }

  /** What a select or imply of a symbol with some condition adds to another symbol. */
  function Contribution(a: Symbol, cond: Ptr): Ptr { AllocAnd(Ptr(Sym(a)), cond) }

  /** rev_dep or implied of that symbol, with what others have added before. */
  function WithSelect(others: Ptr, a: Symbol, cond: Ptr): Ptr { AllocOr(others, Contribution(a, cond)) }

  /** The rewriting changes m to y here: the selecting symbol and the condition are y, the rewritten
      condition is m, and no other symbol selects with y. */
  predicate Weakened(others: Ptr, a: Symbol, cond: Ptr, env: Env) {
    && env(a).tri == Y && EvalPtr(cond, env) == Y && EvalPtr(TransBoolPtr(cond), env) == M
    && (others.Null? || Eval(others.e, env) != Y)
  }

  /** A select by a symbol that is no tristate has the effect that its condition says exactly if the
      selected symbol is none either, or the rewriting does not weaken the condition there; otherwise
      the reverse dependency is m instead of y. The same holds for implies. */
  lemma SelectKeptIff(t: Symbol, others: Ptr, a: Symbol, cond: Ptr, modules: Tri, env: Env)
    requires WellFormed(env) && NormalPtr(cond) && a.typ != Tristate
    ensures var meant := Reverse(t, WithSelect(others, a, cond), modules, env);
      var stored := Reverse(t, WithSelect(others, a, TransBoolPtr(cond)), modules, env);
      && (stored == meant <==> TypeOf(t, modules) == Boolean || !Weakened(others, a, cond, env))
      && (stored != meant ==> stored == M && meant == Y)
  {
    TransBoolPtrValue(cond, env);
    AllocAndValue(Ptr(Sym(a)), cond, env);
    AllocAndValue(Ptr(Sym(a)), TransBoolPtr(cond), env);
  }

  /** select T if X != n, in a boolean that is y, with X = m: T is m, where the condition says y. */
  lemma SelectWeakened(t: Symbol, a: Symbol, x: Symbol, env: Env)
    requires WellFormed(env) && t.typ == x.typ == Tristate && a.typ == Boolean
    requires env(a).tri == Y && env(x).tri == M
    ensures var cond := Ptr(Cmp(Neq, x, NO));
      var meant := map[t := Def(Null, WithSelect(Null, a, cond), Null, [])];
      var stored := map[t := Def(Null, WithSelect(Null, a, TransBoolPtr(cond)), Null, [])];
      && NormalPtr(cond)
      && Calculated(meant, map[], Y, t, env).tri == Y && Calculated(stored, map[], Y, t, env).tri == M
  {
    CompareWithConstant(env, x, NO);
    var cond := Ptr(Cmp(Neq, x, NO));
    assert NormalPtr(cond);
    assert EvalPtr(cond, env) == Y && EvalPtr(TransBoolPtr(cond), env) == M;
    SelectedValue(t, WithSelect(Null, a, cond), env);
    SelectedValue(t, WithSelect(Null, a, TransBoolPtr(cond)), env);
  }

  /** A tristate with nothing but a reverse dependency has its value. */
  lemma SelectedValue(t: Symbol, rev: Ptr, env: Env)
    requires t.typ == Tristate && rev.Ptr?
    ensures Calculated(map[t := Def(Null, rev, Null, [])], map[], Y, t, env).tri == Eval(rev.e, env)
  {
    assert DefOf(map[t := Def(Null, rev, Null, [])], t) == Def(Null, rev, Null, []);
  }
}
