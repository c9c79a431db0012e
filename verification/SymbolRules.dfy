/** What prompts, defaults, implies and selects do to a symbol in every solution, said about the
    properties themselves. */
module SymbolRules {
  import opened KconfigExpr
  import opened ExprMenuDeps
  import opened SymbolSpec

  function Min(a: Tri, b: Tri): Tri { if a < b then a else b }

  function Max(a: Tri, b: Tri): Tri { if a > b then a else b }

  function Condition(p: Prop, v: Env): Tri { EvalPtr(p.visible, v) }

  /** best is what the most visible prompt allows, n without any. */
  ghost predicate BestPrompt(props: seq<Prop>, v: Env, best: Tri) {
    && (forall p <- props :: p.kind == Prompt ==> Condition(p, v) <= best)
    && (best != N ==> exists p <- props :: p.kind == Prompt && Condition(p, v) == best)
  }

  /** Default number k is the first whose condition is not n. */
  ghost predicate FirstToHold(props: seq<Prop>, v: Env, k: nat) {
    && k < |props| && props[k].kind == Default && Condition(props[k], v) != N
    && forall j :: 0 <= j < k && props[j].kind == Default ==> Condition(props[j], v) == N
  }

  ghost predicate NoneHolds(props: seq<Prop>, v: Env) {
    forall p <- props :: p.kind == Default ==> Condition(p, v) == N
  }

  /** The first default that holds gives its value, but no more than its condition. */
  ghost predicate DefaultGives(props: seq<Prop>, v: Env, t: Tri) {
    || (NoneHolds(props, v) && t == N)
    || exists k: nat :: FirstToHold(props, v, k) && t == Min(EvalPtr(props[k].value, v), Condition(props[k], v))
  }

  lemma {:induction false} BestPromptIs(props: seq<Prop>, v: Env, best: Tri)
    requires BestPrompt(props, v, best)
    ensures PromptsValue(props, v) == best
  {
    PromptsBound(props, v);
  }

  lemma {:induction false} PromptsBound(props: seq<Prop>, v: Env)
    ensures BestPrompt(props, v, PromptsValue(props, v))
  {
    if props != [] {
      var rest := props[1..];
      PromptsBound(rest, v);
      var best := PromptsValue(props, v);
      forall p <- props | p.kind == Prompt
        ensures Condition(p, v) <= best
      {
        assert p == props[0] || p in rest;
      }
      if best != N {
        if props[0].kind == Prompt && Condition(props[0], v) == best {
          assert props[0] in props;
        } else {
          var p :| p in rest && p.kind == Prompt && Condition(p, v) == best;
          assert p in props;
        }
      }
    }
  }

  lemma {:induction false} FirstToHoldIs(props: seq<Prop>, v: Env, k: nat)
    requires FirstToHold(props, v, k)
    ensures FirstDefault(props, v) == DefaultProp(Condition(props[k], v), props[k].value)
  {
    if k > 0 {
      assert forall j :: 0 <= j < k - 1 ==> props[1..][j] == props[j + 1];
      FirstToHoldIs(props[1..], v, k - 1);
    }
  }

  lemma {:induction false} NoneHoldsIs(props: seq<Prop>, v: Env)
    requires NoneHolds(props, v)
    ensures FirstDefault(props, v) == NoDefault
  {
    if props != [] {
      assert props[0] in props;
      NoneHoldsIs(props[1..], v);
    }
  }

  /** What the default part of a value is. */
  lemma DefaultPart(props: seq<Prop>, v: Env, t: Tri)
    requires DefaultGives(props, v, t)
    ensures var f := FirstDefault(props, v);
      t == if f.NoDefault? then N else Combine(And, EvalPtr(f.value, v), f.cond)
  {
    if NoneHolds(props, v) && t == N {
      NoneHoldsIs(props, v);
    } else {
      var k: nat :| FirstToHold(props, v, k) && t == Min(EvalPtr(props[k].value, v), Condition(props[k], v));
      FirstToHoldIs(props, v, k);
    }
  }

  /** rev_dep or implied: nothing selects or implies if it is missing. */
  function Pull(p: Ptr, v: Env): Tri { if p.Null? then N else Eval(p.e, v) }

  /** The value for a tristate, modules being on: a user's value as far as a prompt allows; else the
      default, lifted by implies but then no higher than the direct dependency; never below a select. */
  function Ruled(user: UserValues, s: Symbol, d: Def, v: Env, best: Tri, default: Tri): Tri {
    var own :=
      if best != N && s in user then Min(user[s].tri, best)
      else if Pull(d.implied, v) == N then default
      else Min(Max(default, Pull(d.implied, v)), EvalPtr(d.dirDep, v));
    Max(own, Pull(d.revDep, v))
  }

  /** Symbols that can only be n or y have y for m. */
  predicate TwoValued(s: Symbol, modules: Tri) { s.typ == Boolean || (s.typ == Tristate && modules == N) }

  /** In every solution each boolean or tristate has this value, whatever best prompt and default are. */
  lemma ValueRuled(cfg: Config, user: UserValues, modules: Tri, v: Env, s: Symbol, best: Tri, default: Tri)
    requires Solution(cfg, user, modules, v) && IsLogic(s.typ)
    requires BestPrompt(DefOf(cfg, s).props, v, best) && DefaultGives(DefOf(cfg, s).props, v, default)
    ensures var t := Ruled(user, s, DefOf(cfg, s), v, best, default);
      v(s).tri == if TwoValued(s, modules) && t == M then Y else t
  {
    assert v(s) == Calculated(cfg, user, modules, s, v);
    BestPromptIs(DefOf(cfg, s).props, v, best);
    DefaultPart(DefOf(cfg, s).props, v, default);
    LogicRuled(s, DefOf(cfg, s), user, modules, v, best, default);
  }

  lemma LogicRuled(s: Symbol, d: Def, user: UserValues, modules: Tri, v: Env, best: Tri, default: Tri)
    requires IsLogic(s.typ) && PromptsValue(d.props, v) == best
    requires var f := FirstDefault(d.props, v);
      default == if f.NoDefault? then N else Combine(And, EvalPtr(f.value, v), f.cond)
    ensures var t := Ruled(user, s, d, v, best, default);
      LogicValue(s, d, user, modules, v) == if TwoValued(s, modules) && t == M then Y else t
  {
  }

  /** Such a best prompt and default exist, so the rule decides every value. */
  lemma {:induction false} PartsExist(props: seq<Prop>, v: Env) returns (best: Tri, default: Tri)
    ensures BestPrompt(props, v, best) && DefaultGives(props, v, default)
  {
    best := PromptsValue(props, v);
    PromptsBound(props, v);
    var k := FindDefault(props, v);
    default := if k == |props| then N else Min(EvalPtr(props[k].value, v), Condition(props[k], v));
  }

  lemma {:induction false} FindDefault(props: seq<Prop>, v: Env) returns (k: nat)
    ensures if k == |props| then NoneHolds(props, v) else FirstToHold(props, v, k)
  {
    k := 0;
    while k < |props| && !(props[k].kind == Default && Condition(props[k], v) != N)
      invariant k <= |props|
      invariant forall j :: 0 <= j < k && props[j].kind == Default ==> Condition(props[j], v) == N
    {
      k := k + 1;
    }
  }

  // ---- what the cycle check follows

  lemma {:induction false} SymbolsOccur(e: Expr, t: Symbol)
    ensures t in ExprSymbols(e) <==> ContainsSymbol(e, t)
  {
    match e
    case Sym(_) =>
    case Cmp(_, _, _) =>
    case Not(a) => SymbolsOccur(a, t);
    case Bin(_, a, b) => SymbolsOccur(a, t); SymbolsOccur(b, t);
  }

  predicate Occurs(t: Symbol, p: Ptr) { p.Ptr? && ContainsSymbol(p.e, t) }

  /** t stands in the condition of a property other than select and imply, or in the value of a default. */
  predicate InProperty(t: Symbol, p: Prop) {
    (p.kind !in {Select, Imply} && Occurs(t, p.visible)) || (p.kind == Default && Occurs(t, p.value))
  }

  lemma {:induction false} PropsOccur(props: seq<Prop>, t: Symbol)
    ensures t in PropsSymbols(props) <==> exists p <- props :: InProperty(t, p)
  {
    if props != [] {
      PropsOccur(props[1..], t);
      assert forall p :: p in props <==> p == props[0] || p in props[1..];
      PropOccurs(props[0], t);
    }
  }

  lemma PropOccurs(p: Prop, t: Symbol)
    ensures t in PropSymbols(p) <==> InProperty(t, p)
  {
    if p.visible.Ptr? { SymbolsOccur(p.visible.e, t); }
    if p.value.Ptr? { SymbolsOccur(p.value.e, t); }
  }

  /** The dependencies of a symbol: what stands in its direct dependency, its reverse dependency, its
      implies, or one of its properties. */
  lemma DepsIff(cfg: Config, s: Symbol, t: Symbol)
    ensures var d := DefOf(cfg, s);
      t in Deps(cfg, s) <==>
        Occurs(t, d.dirDep) || Occurs(t, d.revDep) || Occurs(t, d.implied) || exists p <- d.props :: InProperty(t, p)
  {
    var d := DefOf(cfg, s);
    PropsOccur(d.props, t);
    if d.dirDep.Ptr? { SymbolsOccur(d.dirDep.e, t); }
    if d.revDep.Ptr? { SymbolsOccur(d.revDep.e, t); }
    if d.implied.Ptr? { SymbolsOccur(d.implied.e, t); }
  }

  // ---- in particular

  /** A tristate with nothing but defaults has the lesser of value and condition of the first that holds. */
  lemma DefaultIsCut(cfg: Config, user: UserValues, modules: Tri, v: Env, s: Symbol, k: nat)
    requires Solution(cfg, user, modules, v) && s.typ == Tristate && modules != N
    requires var d := DefOf(cfg, s);
      && (forall p <- d.props :: p.kind != Prompt) && Pull(d.implied, v) == N && Pull(d.revDep, v) == N
      && FirstToHold(d.props, v, k)
    ensures var p := DefOf(cfg, s).props[k];
      v(s).tri == Min(EvalPtr(p.value, v), Condition(p, v))
  {
    var p := DefOf(cfg, s).props[k];
    ValueRuled(cfg, user, modules, v, s, N, Min(EvalPtr(p.value, v), Condition(p, v)));
  }

  /** A select is obeyed, and an imply does not lift a value above the direct dependency. */
  lemma SelectsAndImplies(cfg: Config, user: UserValues, modules: Tri, v: Env, s: Symbol)
    requires Solution(cfg, user, modules, v) && IsLogic(s.typ)
    ensures var d := DefOf(cfg, s);
      && v(s).tri >= Pull(d.revDep, v)
      && (!TwoValued(s, modules) && s !in user && Pull(d.implied, v) != N ==>
           && v(s).tri <= Max(EvalPtr(d.dirDep, v), Pull(d.revDep, v))
           && v(s).tri >= Min(Pull(d.implied, v), EvalPtr(d.dirDep, v)))
  {
    var best, default := PartsExist(DefOf(cfg, s).props, v);
    ValueRuled(cfg, user, modules, v, s, best, default);
  }

  /** A string or number is the user's if a prompt holds, else the text of the symbol that the first
      default that holds names, else empty. */
  lemma TextRuled(cfg: Config, user: UserValues, modules: Tri, v: Env, s: Symbol, best: Tri)
    requires Solution(cfg, user, modules, v) && s.typ in {Int, Hex, Str}
    requires BestPrompt(DefOf(cfg, s).props, v, best)
    ensures best != N && s in user ==> v(s).str == user[s].str
    ensures (best == N || s !in user) && NoneHolds(DefOf(cfg, s).props, v) ==> v(s).str == ""
    ensures var props := DefOf(cfg, s).props;
      best == N || s !in user ==>
        forall k: nat, t: Symbol :: FirstToHold(props, v, k) && props[k].value == Ptr(Sym(t)) ==> v(s).str == v(t).str
  {
    var props := DefOf(cfg, s).props;
    assert v(s) == Calculated(cfg, user, modules, s, v);
    BestPromptIs(props, v, best);
    if NoneHolds(props, v) { NoneHoldsIs(props, v); }
    forall k: nat, t: Symbol | FirstToHold(props, v, k) && props[k].value == Ptr(Sym(t)) && (best == N || s !in user)
      ensures v(s).str == v(t).str
    {
      FirstToHoldIs(props, v, k);
    }
  }
}
