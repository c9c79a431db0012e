/** What the value of a configuration symbol is, as a plain definition over the values of the
    symbols it depends on. Choices and ranges are not part of this model. */
module SymbolSpec {
  import opened KconfigExpr
  import opened ExprMenuDeps

  /** Prompt stands for every property with a text: prompt, menu, comment. */
  datatype PropKind = Prompt | Default | Select | Imply | SymbolAt

  datatype Prop = Prop(kind: PropKind, visible: Ptr, value: Ptr)

  datatype Def = Def(dirDep: Ptr, revDep: Ptr, implied: Ptr, props: seq<Prop>)

  /** The definitions read from the Kconfig files. Other symbols have no dependencies. */
  type Config = map<Symbol, Def>

  /** The values a user has given: S_DEF_USER of the symbols that have it. */
  type UserValues = map<Symbol, Val>

  function DefOf(cfg: Config, s: Symbol): Def {
    if s in cfg then cfg[s] else Def(Null, Null, Null, [])
  }

  // ---- dependencies, as sym_check_sym_deps follows them

  function ExprSymbols(e: Expr): set<Symbol> {
    match e
    case Sym(s) => {s}
    case Cmp(_, l, r) => {l, r}
    case Not(a) => ExprSymbols(a)
    case Bin(_, a, b) => ExprSymbols(a) + ExprSymbols(b)
  }

  function PtrSymbols(p: Ptr): set<Symbol> { if p.Null? then {} else ExprSymbols(p.e) }

  function PropSymbols(p: Prop): set<Symbol> {
    if p.kind == Select || p.kind == Imply then {}
    else if p.kind == Default then PtrSymbols(p.visible) + PtrSymbols(p.value)
    else PtrSymbols(p.visible)
  }

  function PropsSymbols(props: seq<Prop>): set<Symbol> {
    if props == [] then {} else PropSymbols(props[0]) + PropsSymbols(props[1..])
  }

  function Deps(cfg: Config, s: Symbol): set<Symbol> {
    var d := DefOf(cfg, s);
    PtrSymbols(d.dirDep) + PtrSymbols(d.revDep) + PtrSymbols(d.implied) + PropsSymbols(d.props)
  }

  // ---- the value of a symbol from the values of others

  /** sym_get_type. */
  function TypeOf(s: Symbol, modules: Tri): SymType {
    if s.typ == Tristate && modules == N then Boolean else s.typ
  }

  function PromoteFor(t: SymType, v: Tri): Tri { if t == Boolean then Promote(v) else v }

  function PromptsValue(props: seq<Prop>, env: Env): Tri {
    if props == [] then N
    else if props[0].kind == Prompt then Combine(Or, EvalPtr(props[0].visible, env), PromptsValue(props[1..], env))
    else PromptsValue(props[1..], env)
  }

  function Visible(s: Symbol, d: Def, modules: Tri, env: Env): Tri {
    var v := PromptsValue(d.props, env);
    if s.typ != Tristate || modules == N then Promote(v) else v
  }

  function DirDep(s: Symbol, d: Def, modules: Tri, env: Env): Tri {
    PromoteFor(TypeOf(s, modules), EvalPtr(d.dirDep, env))
  }

  /** rev_dep and implied: a missing expression counts as n. */
  function Reverse(s: Symbol, p: Ptr, modules: Tri, env: Env): Tri {
    if p.Null? then N else PromoteFor(TypeOf(s, modules), Eval(p.e, env))
  }

  datatype DefaultProp = NoDefault | DefaultProp(cond: Tri, value: Ptr)

  /** sym_get_default_prop: the first default whose condition is not n. */
  function FirstDefault(props: seq<Prop>, env: Env): DefaultProp {
    if props == [] then NoDefault
    else if props[0].kind == Default && EvalPtr(props[0].visible, env) != N
    then DefaultProp(EvalPtr(props[0].visible, env), props[0].value)
    else FirstDefault(props[1..], env)
  }

  /** The value of a boolean or tristate that the user does not decide. */
  function DefaultTri(s: Symbol, d: Def, modules: Tri, env: Env): Tri {
    var f := FirstDefault(d.props, env);
    var v := if f.NoDefault? then N else Combine(And, EvalPtr(f.value, env), f.cond);
    var imp := Reverse(s, d.implied, modules, env);
    if imp != N then Combine(And, Combine(Or, v, imp), DirDep(s, d, modules, env)) else v
  }

  function LogicValue(s: Symbol, d: Def, user: UserValues, modules: Tri, env: Env): Tri {
    var vis := Visible(s, d, modules, env);
    var v := if vis != N && s in user then Combine(And, user[s].tri, vis) else DefaultTri(s, d, modules, env);
    PromoteFor(TypeOf(s, modules), Combine(Or, v, Reverse(s, d.revDep, modules, env)))
  }

  function TextValue(s: Symbol, d: Def, user: UserValues, modules: Tri, env: Env): string {
    if Visible(s, d, modules, env) != N && s in user then user[s].str
    else
      var f := FirstDefault(d.props, env);
      if f.DefaultProp? && f.value.Ptr? && f.value.e.Sym? then env(f.value.e.s).str else ""
  }

  /** sym_calc_value of one symbol, given everybody else's value. */
  function Calculated(cfg: Config, user: UserValues, modules: Tri, s: Symbol, env: Env): Val {
    if s == YES then Val(Y, "y") else if s == MOD then Val(M, "m") else if s == NO then Val(N, "n")
    else if s.typ == Unknown then Val(N, s.name)
    else if IsLogic(s.typ) then Val(LogicValue(s, DefOf(cfg, s), user, modules, env), "n")
    else Val(N, TextValue(s, DefOf(cfg, s), user, modules, env))
  }

  /** Every symbol has the value calculated from the values of the others. */
  ghost predicate Solution(cfg: Config, user: UserValues, modules: Tri, v: Env) {
    forall s: Symbol {:trigger Calculated(cfg, user, modules, s, v)} :: v(s) == Calculated(cfg, user, modules, s, v)
  }

  // ---- only the values of dependencies matter

  ghost predicate Agree(v: Env, w: Env, on: set<Symbol>) { forall s <- on :: v(s) == w(s) }

  lemma {:induction false} EvalAgrees(e: Expr, v: Env, w: Env)
    requires Agree(v, w, ExprSymbols(e))
    ensures Eval(e, v) == Eval(e, w)
  {
    match e
    case Sym(_) =>
    case Cmp(_, l, r) => assert v(l) == w(l) && v(r) == w(r);
    case Not(a) => EvalAgrees(a, v, w);
    case Bin(_, a, b) => EvalAgrees(a, v, w); EvalAgrees(b, v, w);
  }

  lemma PtrAgrees(p: Ptr, v: Env, w: Env)
    requires Agree(v, w, PtrSymbols(p))
    ensures EvalPtr(p, v) == EvalPtr(p, w)
  {
    if p.Ptr? { EvalAgrees(p.e, v, w); }
  }

  lemma {:induction false} PropsAgree(props: seq<Prop>, v: Env, w: Env)
    requires Agree(v, w, PropsSymbols(props))
    ensures PromptsValue(props, v) == PromptsValue(props, w)
    ensures FirstDefault(props, v) == FirstDefault(props, w)
    ensures var f := FirstDefault(props, v);
      f.DefaultProp? ==> EvalPtr(f.value, v) == EvalPtr(f.value, w) && PtrSymbols(f.value) <= PropsSymbols(props)
  {
    if props != [] {
      var p := props[0];
      PropsAgree(props[1..], v, w);
      if p.kind == Prompt || p.kind == Default { PtrAgrees(p.visible, v, w); }
      if p.kind == Default { PtrAgrees(p.value, v, w); }
    }
  }

  /** Everything the definition of a symbol is evaluated to is the same under both valuations. */
  ghost predicate SameParts(d: Def, v: Env, w: Env) {
    && PromptsValue(d.props, v) == PromptsValue(d.props, w)
    && EvalPtr(d.dirDep, v) == EvalPtr(d.dirDep, w)
    && EvalPtr(d.revDep, v) == EvalPtr(d.revDep, w)
    && EvalPtr(d.implied, v) == EvalPtr(d.implied, w)
    && SameDefault(FirstDefault(d.props, v), FirstDefault(d.props, w), v, w)
  }

  ghost predicate SameDefault(f: DefaultProp, g: DefaultProp, v: Env, w: Env) {
    && f == g
    && (f.DefaultProp? ==> EvalPtr(f.value, v) == EvalPtr(f.value, w))
    && (f.DefaultProp? && f.value.Ptr? && f.value.e.Sym? ==> v(f.value.e.s) == w(f.value.e.s))
  }

  lemma PartsAgree(d: Def, v: Env, w: Env)
    requires Agree(v, w, PtrSymbols(d.dirDep)) && Agree(v, w, PtrSymbols(d.revDep))
    requires Agree(v, w, PtrSymbols(d.implied))
    requires Agree(v, w, PropsSymbols(d.props))
    ensures SameParts(d, v, w)
  {
    PropsAgree(d.props, v, w);
    PtrAgrees(d.dirDep, v, w);
    PtrAgrees(d.revDep, v, w);
    PtrAgrees(d.implied, v, w);
  }

  lemma SamePartsSameValue(cfg: Config, user: UserValues, modules: Tri, s: Symbol, v: Env, w: Env)
    requires SameParts(DefOf(cfg, s), v, w)
    ensures Calculated(cfg, user, modules, s, v) == Calculated(cfg, user, modules, s, w)
    ensures Visible(s, DefOf(cfg, s), modules, v) == Visible(s, DefOf(cfg, s), modules, w)
    ensures Reverse(s, DefOf(cfg, s).revDep, modules, v) == Reverse(s, DefOf(cfg, s).revDep, modules, w)
  {
  }

  lemma CalculatedAgrees(cfg: Config, user: UserValues, modules: Tri, s: Symbol, v: Env, w: Env)
    requires Agree(v, w, Deps(cfg, s))
    ensures Calculated(cfg, user, modules, s, v) == Calculated(cfg, user, modules, s, w)
    ensures Visible(s, DefOf(cfg, s), modules, v) == Visible(s, DefOf(cfg, s), modules, w)
    ensures Reverse(s, DefOf(cfg, s).revDep, modules, v) == Reverse(s, DefOf(cfg, s).revDep, modules, w)
  {
    PartsAgree(DefOf(cfg, s), v, w);
    SamePartsSameValue(cfg, user, modules, s, v, w);
  }

  // ---- acyclic configurations have exactly one solution

  /** Every dependency has a smaller rank. */
  ghost predicate Ranked(cfg: Config, rank: Symbol -> nat) {
    forall s: Symbol, t: Symbol :: t in Deps(cfg, s) ==> rank(t) < rank(s)
  }

  /** The plain recursive definition of a symbol's value. */
  ghost function Value(cfg: Config, user: UserValues, modules: Tri, rank: Symbol -> nat, s: Symbol): Val
    requires Ranked(cfg, rank)
    decreases rank(s)
  {
    Calculated(cfg, user, modules, s,
      (t: Symbol) => if rank(t) < rank(s) then Value(cfg, user, modules, rank, t) else Val(N, ""))
  }

  ghost function Values(cfg: Config, user: UserValues, modules: Tri, rank: Symbol -> nat): Env
    requires Ranked(cfg, rank)
  {
    (s: Symbol) => Value(cfg, user, modules, rank, s)
  }

  lemma ValueIsSolution(cfg: Config, user: UserValues, modules: Tri, rank: Symbol -> nat)
    requires Ranked(cfg, rank)
    ensures Solution(cfg, user, modules, Values(cfg, user, modules, rank))
  {
    var v := Values(cfg, user, modules, rank);
    forall s: Symbol
      ensures v(s) == Calculated(cfg, user, modules, s, v)
    {
      var below: Env := (t: Symbol) => if rank(t) < rank(s) then Value(cfg, user, modules, rank, t) else Val(N, "");
      CalculatedAgrees(cfg, user, modules, s, v, below);
    }
  }

  /** There is no other solution, so the rank does not matter. */
  lemma {:induction false} SolutionUnique(cfg: Config, user: UserValues, modules: Tri, rank: Symbol -> nat, v: Env,
                                          w: Env, s: Symbol)
    requires Ranked(cfg, rank) && Solution(cfg, user, modules, v) && Solution(cfg, user, modules, w)
    ensures v(s) == w(s)
    decreases rank(s)
  {
    forall t <- Deps(cfg, s)
      ensures v(t) == w(t)
    {
      SolutionUnique(cfg, user, modules, rank, v, w, t);
    }
    CalculatedAgrees(cfg, user, modules, s, v, w);
    assert v(s) == Calculated(cfg, user, modules, s, v) && w(s) == Calculated(cfg, user, modules, s, w);
  }

  /** Calculated values are well-formed valuations: the assumption of the expression rewriting. */
  lemma SolutionWellFormed(cfg: Config, user: UserValues, modules: Tri, v: Env)
    requires Solution(cfg, user, modules, v)
    ensures WellFormed(v)
    ensures modules == N ==> forall s: Symbol :: IsLogic(s.typ) ==> v(s).tri != M
  {
    forall s: Symbol
      ensures v(s) == Calculated(cfg, user, modules, s, v)
    {
      assert Calculated(cfg, user, modules, s, v) == Calculated(cfg, user, modules, s, v);
    }
  }

  // ---- setting a value

  /** sym_tristate_within_range. */
  predicate WithinRange(s: Symbol, modules: Tri, visible: Tri, rev: Tri, val: Tri) {
    && visible != N
    && IsLogic(TypeOf(s, modules))
    && !(TypeOf(s, modules) == Boolean && val == M)
    && visible > rev
    && rev <= val <= visible
  }

  /** The user value of s changes nothing that s depends on. */
  lemma {:induction false} UserValueIndependent(cfg: Config, user: UserValues, user': UserValues, modules: Tri,
                               rank: Symbol -> nat, v: Env, v': Env, s: Symbol, t: Symbol)
    requires Ranked(cfg, rank) && Solution(cfg, user, modules, v) && Solution(cfg, user', modules, v')
    requires user.Keys - {s} == user'.Keys - {s} && forall u <- user.Keys - {s} :: user[u] == user'[u]
    requires rank(t) < rank(s)
    ensures v(t) == v'(t)
    decreases rank(t)
  {
    forall u <- Deps(cfg, t)
      ensures v(u) == v'(u)
    {
      UserValueIndependent(cfg, user, user', modules, rank, v, v', s, u);
    }
    CalculatedAgrees(cfg, user, modules, t, v, v');
    assert t in user <==> t in user' by {
      assert t in user ==> t in user.Keys - {s};
      assert t in user' ==> t in user'.Keys - {s};
    }
    assert t in user ==> user[t] == user'[t];
    assert v(t) == Calculated(cfg, user, modules, t, v) && v'(t) == Calculated(cfg, user', modules, t, v');
  }

  /** A value in range, once set, is the value that recalculation gives; more exactly, for a
      visible symbol the recalculated value is the wanted one if and only if it is not below the
      reverse dependency, not above the visibility unless forced there, and not an m that a
      boolean cannot have; an invisible symbol keeps the value it had. */
  lemma SetThenRecalculate(cfg: Config, user: UserValues, modules: Tri, rank: Symbol -> nat,
                           v: Env, v': Env, s: Symbol, val: Val)
    requires Ranked(cfg, rank) && IsLogic(s.typ)
    requires Solution(cfg, user, modules, v) && Solution(cfg, user[s := val], modules, v')
    ensures var d := DefOf(cfg, s);
      var visible, rev := Visible(s, d, modules, v), Reverse(s, d.revDep, modules, v);
      && visible == Visible(s, d, modules, v') && rev == Reverse(s, d.revDep, modules, v')
      && (WithinRange(s, modules, visible, rev, val.tri) ==> v'(s).tri == val.tri)
      && (visible != N ==>
            (v'(s).tri == val.tri <==>
               && rev <= val.tri && (val.tri <= visible || val.tri == rev)
               && !(TypeOf(s, modules) == Boolean && val.tri == M)))
      && (visible == N ==> v'(s) == v(s))
  {
    forall t <- Deps(cfg, s)
      ensures v(t) == v'(t)
    {
      UserValueIndependent(cfg, user, user[s := val], modules, rank, v, v', s, t);
    }
    CalculatedAgrees(cfg, user, modules, s, v, v');
    assert v'(s) == Calculated(cfg, user[s := val], modules, s, v') && v(s) == Calculated(cfg, user, modules, s, v);
  }

  /** Confirming the current value when it is in range changes no value at all. */
  lemma ConfirmKeepsSolution(cfg: Config, user: UserValues, modules: Tri, v: Env, s: Symbol, val: Val)
    requires IsLogic(s.typ) && Solution(cfg, user, modules, v) && v(s).tri == val.tri
    requires WithinRange(s, modules, Visible(s, DefOf(cfg, s), modules, v),
                         Reverse(s, DefOf(cfg, s).revDep, modules, v), val.tri)
    ensures Solution(cfg, user[s := val], modules, v)
  {
    forall t: Symbol
      ensures v(t) == Calculated(cfg, user[s := val], modules, t, v)
    {
      assert v(t) == Calculated(cfg, user, modules, t, v);
    }
  }

  // ---- saving all values and reading them back

  /** saved holds current values, among them those of all visible symbols that the user has set. */
  ghost predicate Saves(cfg: Config, user: UserValues, modules: Tri, v: Env, saved: UserValues) {
    && (forall s <- saved :: saved[s] == v(s))
    && (forall s <- user :: Visible(s, DefOf(cfg, s), modules, v) != N ==> s in saved)
  }

  /** A value taken from a saved configuration is cut down to the visibility unless it is forced. */
  ghost predicate KeptWhenSaved(cfg: Config, modules: Tri, v: Env, s: Symbol) {
    var d := DefOf(cfg, s);
    IsLogic(s.typ) && Visible(s, d, modules, v) != N ==>
      v(s).tri <= Visible(s, d, modules, v) || v(s).tri == Reverse(s, d.revDep, modules, v)
  }

  lemma SavedValue(cfg: Config, user: UserValues, modules: Tri, v: Env, saved: UserValues, s: Symbol)
    requires Saves(cfg, user, modules, v, saved) && v(s) == Calculated(cfg, user, modules, s, v)
    ensures v(s) == Calculated(cfg, saved, modules, s, v) <==> s !in saved || KeptWhenSaved(cfg, modules, v, s)
  {
  }

  /** The values are a solution for what was saved exactly if no saved value exceeds its visibility
      without being forced. */
  lemma SavedSolutionIff(cfg: Config, user: UserValues, modules: Tri, v: Env, saved: UserValues)
    requires Solution(cfg, user, modules, v) && Saves(cfg, user, modules, v, saved)
    ensures Solution(cfg, saved, modules, v) <==> forall s <- saved :: KeptWhenSaved(cfg, modules, v, s)
  {
    forall s: Symbol
      ensures v(s) == Calculated(cfg, saved, modules, s, v) <==> s !in saved || KeptWhenSaved(cfg, modules, v, s)
    {
      assert v(s) == Calculated(cfg, user, modules, s, v);
      SavedValue(cfg, user, modules, v, saved, s);
    }
  }

  /** So in an acyclic configuration saving, reading back and calculating again gives every symbol the
      value it had exactly under this condition. */
  lemma ReloadGivesSameValues(cfg: Config, user: UserValues, modules: Tri, rank: Symbol -> nat, v: Env,
                              saved: UserValues, v': Env)
    requires Ranked(cfg, rank) && Solution(cfg, user, modules, v) && Saves(cfg, user, modules, v, saved)
    requires Solution(cfg, saved, modules, v')
    ensures (forall s: Symbol :: v'(s) == v(s)) <==> forall s <- saved :: KeptWhenSaved(cfg, modules, v, s)
  {
    SavedSolutionIff(cfg, user, modules, v, saved);
    if forall s <- saved :: KeptWhenSaved(cfg, modules, v, s) {
      forall s: Symbol ensures v'(s) == v(s) {
        SolutionUnique(cfg, saved, modules, rank, v', v, s);
      }
    }
    if forall s: Symbol :: v'(s) == v(s) {
      forall s: Symbol ensures v(s) == Calculated(cfg, saved, modules, s, v) {
        assert v'(s) == Calculated(cfg, saved, modules, s, v');
        CalculatedAgrees(cfg, saved, modules, s, v, v');
      }
    }
  }

  /** A value equal to the current one is accepted without the range test, and then recalculation
      may give another: a default of y shows through a prompt that only allows m, but a user's y
      is cut down to m. */
  lemma EqualValueNotKept(s: Symbol, v: Env, v': Env)
    requires s.typ == Tristate
    requires var props := [Prop(Prompt, Ptr(Sym(MOD)), Null), Prop(Default, Null, Ptr(Sym(YES)))];
      var cfg := map[s := Def(Null, Null, Null, props)];
      Solution(cfg, map[], Y, v) && Solution(cfg, map[s := Val(Y, "")], Y, v')
    ensures v(s).tri == Y && v'(s).tri == M
  {
    var d := Def(Null, Null, Null, [Prop(Prompt, Ptr(Sym(MOD)), Null), Prop(Default, Null, Ptr(Sym(YES)))]);
    var cfg := map[s := d];
    assert DefOf(cfg, s) == d;
    assert v(s) == Calculated(cfg, map[], Y, s, v) && v'(s) == Calculated(cfg, map[s := Val(Y, "")], Y, s, v');
    forall w: Env | w == v || w == v'
      ensures PromptsValue(d.props, w) == w(MOD).tri && FirstDefault(d.props, w) == DefaultProp(Y, Ptr(Sym(YES)))
    {
      assert d.props[1..][1..] == [];
      assert PromptsValue(d.props[1..][1..], w) == N;
      assert PromptsValue(d.props[1..], w) == N;
    }
    assert v(YES) == Calculated(cfg, map[], Y, YES, v) && v(MOD) == Calculated(cfg, map[], Y, MOD, v);
    assert v'(MOD) == Calculated(cfg, map[s := Val(Y, "")], Y, MOD, v');
  }
}
