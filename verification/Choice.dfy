/** symbol.cpp: a choice and its choice values, of which at most one is y. */
module Choice {
  import opened Options
  import opened KconfigExpr
  import opened ExprJoin
  import opened ExprMenuDeps
  import opened SymbolSpec

  /** A choice symbol with its values in menu order, its defaults (each a condition and the index of a
      value), and the value that the user has picked. */
  datatype Choice = Choice(sym: Symbol, members: seq<Symbol>, defaults: seq<Pick>, picked: Option<nat>)

  datatype Pick = Pick(cond: Ptr, member: nat)

  /** Definitions, user values, MODULES, and the values of all symbols outside the choice. */
  datatype World = World(cfg: Config, user: UserValues, modules: Tri, env: Env)

  ghost predicate ValidChoice(c: Choice) {
    && IsLogic(c.sym.typ)
    && (forall m :: m in c.members ==> IsLogic(m.typ))
    && (forall i, j :: 0 <= i < j < |c.members| ==> c.members[i] != c.members[j])
    && (forall d :: d in c.defaults ==> d.member < |c.members|)
    && (c.picked.Some? ==> c.picked.value < |c.members|)
  }

  /** The choice itself counts with the value that it has at the moment. */
  function With(w: World, c: Choice, t: Tri): Env {
    s => if s == c.sym then Val(t, "n") else w.env(s)
  }

  // ---- what is calculated

  /** A prompt of a tristate value that is only m is hidden while the choice is y. */
  function PromptValue(m: Symbol, p: Prop, t: Tri, env: Env): Tri {
    var v := EvalPtr(p.visible, env);
    if m.typ == Tristate && v == M && t == Y then N else v
  }

  function MemberPrompts(m: Symbol, props: seq<Prop>, t: Tri, env: Env): Tri {
    if props == [] then N
    else if props[0].kind == Prompt then
      Combine(Or, PromptValue(m, props[0], t, env), MemberPrompts(m, props[1..], t, env))
    else MemberPrompts(m, props[1..], t, env)
  }

  /** sym_calc_visibility of a choice value, while the choice is t. */
  function MemberVisible(w: World, c: Choice, m: Symbol, t: Tri): Tri {
    var v := MemberPrompts(m, DefOf(w.cfg, m).props, t, With(w, c, t));
    if m.typ != Tristate || w.modules == N then Promote(v) else v
  }

  predicate Shown(w: World, c: Choice, k: nat)
    requires k < |c.members|
  {
    MemberVisible(w, c, c.members[k], Y) != N
  }

  /** The first default whose condition holds and whose value is visible. */
  function FirstPick(w: World, c: Choice, k: nat): Option<nat>
    requires k <= |c.defaults| && forall d :: d in c.defaults ==> d.member < |c.members|
    decreases |c.defaults| - k
  {
    if k == |c.defaults| then None
    else if EvalPtr(c.defaults[k].cond, With(w, c, Y)) != N && Shown(w, c, c.defaults[k].member)
    then Some(c.defaults[k].member)
    else FirstPick(w, c, k + 1)
  }

  function FirstShown(w: World, c: Choice, k: nat): (r: Option<nat>)
    requires k <= |c.members|
    ensures r.Some? ==> k <= r.value < |c.members| && Shown(w, c, r.value)
    ensures r.None? ==> forall i :: k <= i < |c.members| ==> !Shown(w, c, i)
    decreases |c.members| - k
  {
    if k == |c.members| then None else if Shown(w, c, k) then Some(k) else FirstShown(w, c, k + 1)
  }

  /** sym_calc_choice: the user's pick, else a default, else the first visible value. */
  ghost function Chosen(w: World, c: Choice): Option<nat>
    requires ValidChoice(c)
  {
    if c.picked.Some? && Shown(w, c, c.picked.value) then c.picked
    else if FirstPick(w, c, 0).Some? then FirstPick(w, c, 0)
    else FirstShown(w, c, 0)
  }

  lemma {:induction false} FirstPickShown(w: World, c: Choice, k: nat)
    requires ValidChoice(c) && k <= |c.defaults|
    ensures var r := FirstPick(w, c, k);
      r.Some? ==> r.value < |c.members| && Shown(w, c, r.value)
    decreases |c.defaults| - k
  {
    if k < |c.defaults| {
      assert c.defaults[k] in c.defaults;
      FirstPickShown(w, c, k + 1);
    }
  }

  // ---- the order of the tests

  /** Default j names a visible value and its condition holds. */
  ghost predicate Applies(w: World, c: Choice, j: nat)
    requires ValidChoice(c) && j < |c.defaults|
  {
    && EvalPtr(c.defaults[j].cond, With(w, c, Y)) != N
    && c.defaults[j] in c.defaults && MemberVisible(w, c, c.members[c.defaults[j].member], Y) != N
  }

  lemma {:induction false} FirstPickIs(w: World, c: Choice, from: nat, j: nat)
    requires ValidChoice(c) && from <= j <= |c.defaults|
    requires forall i :: from <= i < j ==> !Applies(w, c, i)
    requires j < |c.defaults| ==> Applies(w, c, j)
    ensures FirstPick(w, c, from) == if j < |c.defaults| then Some(c.defaults[j].member) else None
    decreases j - from
  {
    if from < |c.defaults| { assert c.defaults[from] in c.defaults; }
    if from < j {
      assert !Applies(w, c, from);
      FirstPickIs(w, c, from + 1, j);
    }
  }

  lemma {:induction false} FirstShownIs(w: World, c: Choice, from: nat, k: nat)
    requires from <= k <= |c.members|
    requires forall i :: from <= i < k ==> MemberVisible(w, c, c.members[i], Y) == N
    requires k < |c.members| ==> MemberVisible(w, c, c.members[k], Y) != N
    ensures FirstShown(w, c, from) == if k < |c.members| then Some(k) else None
    decreases k - from
  {
    if from < k { FirstShownIs(w, c, from + 1, k); }
  }

  /** The user's pick is chosen if it is visible, whatever the defaults say; else the value of the first
      default that applies; else the first visible value in menu order. */
  lemma ChosenIs(w: World, c: Choice, j: nat, k: nat)
    requires ValidChoice(c) && j <= |c.defaults| && k <= |c.members|
    requires (forall i :: 0 <= i < j ==> !Applies(w, c, i)) && (j < |c.defaults| ==> Applies(w, c, j))
    requires forall i :: 0 <= i < k ==> MemberVisible(w, c, c.members[i], Y) == N
    requires k < |c.members| ==> MemberVisible(w, c, c.members[k], Y) != N
    ensures
      if c.picked.Some? && MemberVisible(w, c, c.members[c.picked.value], Y) != N then Chosen(w, c) == c.picked
      else if j < |c.defaults| then Chosen(w, c) == Some(c.defaults[j].member)
      else if k < |c.members| then Chosen(w, c) == Some(k)
      else Chosen(w, c) == None
  {
    FirstPickIs(w, c, 0, j);
    FirstShownIs(w, c, 0, k);
  }

  /** A choice that would be y is n if no value is visible. */
  ghost function ChoiceTri(w: World, c: Choice, newval: Tri): Tri
    requires ValidChoice(c)
  {
    if newval == Y && Chosen(w, c).None? then N else newval
  }

  /** The value a default gives to a choice value. */
  function MemberDefault(w: World, c: Choice, m: Symbol, t: Tri): Tri {
    var f := FirstDefault(DefOf(w.cfg, m).props, With(w, c, t));
    if f.NoDefault? then N else Combine(And, EvalPtr(f.value, With(w, c, t)), f.cond)
  }

  /** The value of a choice value that is not fully visible. Reverse dependencies and implications of
      choice values are never calculated, so they count as n. */
  function Unchosen(w: World, c: Choice, m: Symbol, t: Tri): Tri {
    var vis := MemberVisible(w, c, m, t);
    var v := if vis != N && m in w.user then Combine(And, w.user[m].tri, vis) else MemberDefault(w, c, m, t);
    PromoteFor(TypeOf(m, w.modules), v)
  }

  ghost function MemberValue(w: World, c: Choice, newval: Tri, k: nat): Tri
    requires ValidChoice(c) && k < |c.members|
  {
    var m, t := c.members[k], ChoiceTri(w, c, newval);
    if MemberVisible(w, c, m, t) == Y then if newval == Y && Chosen(w, c) == Some(k) then Y else N
    else Unchosen(w, c, m, t)
  }

  // ---- at most one value is y

  /** While the choice is y, a value is fully visible or not at all. */
  lemma {:induction false} PromptsNotMod(m: Symbol, props: seq<Prop>, env: Env)
    requires m.typ == Tristate
    ensures MemberPrompts(m, props, Y, env) != M
  {
    if props != [] { PromptsNotMod(m, props[1..], env); }
  }

  lemma VisibleOrNot(w: World, c: Choice, m: Symbol)
    ensures MemberVisible(w, c, m, Y) != M
  {
    if m.typ == Tristate { PromptsNotMod(m, DefOf(w.cfg, m).props, With(w, c, Y)); }
  }

  /** The value is y although it is not chosen: a default, against what the parser warns about. */
  ghost predicate ByDefault(w: World, c: Choice, newval: Tri, k: nat)
    requires ValidChoice(c) && k < |c.members|
  {
    var m, t := c.members[k], ChoiceTri(w, c, newval);
    var vis := MemberVisible(w, c, m, t);
    && vis != Y && !(vis == M && m in w.user)
    && PromoteFor(TypeOf(m, w.modules), MemberDefault(w, c, m, t)) == Y
  }

  lemma ChosenIsShown(w: World, c: Choice)
    requires ValidChoice(c) && Chosen(w, c).Some?
    ensures Chosen(w, c).value < |c.members| && MemberVisible(w, c, c.members[Chosen(w, c).value], Y) == Y
  {
    FirstPickShown(w, c, 0);
    VisibleOrNot(w, c, c.members[Chosen(w, c).value]);
  }

  /** Which values are y: the chosen one if the choice is y, and those with an unsupported default. */
  lemma MemberIsY(w: World, c: Choice, newval: Tri, k: nat)
    requires ValidChoice(c) && k < |c.members|
    ensures MemberValue(w, c, newval, k) == Y <==>
      (ChoiceTri(w, c, newval) == Y && Chosen(w, c) == Some(k)) || ByDefault(w, c, newval, k)
  {
    var m, t := c.members[k], ChoiceTri(w, c, newval);
    if newval == Y && Chosen(w, c) == Some(k) { ChosenIsShown(w, c); }
    if MemberVisible(w, c, m, t) == M { NotPromoted(w, c, m, t); }
  }

  /** A value with visibility m is a tristate and stays below y unless a default raises it. */
  lemma NotPromoted(w: World, c: Choice, m: Symbol, t: Tri)
    requires IsLogic(m.typ) && MemberVisible(w, c, m, t) == M
    ensures TypeOf(m, w.modules) == Tristate
  {
  }

  /** A choice that is y has a value that is y: the chosen one. It is the only one exactly if no other
      value is y by default. */
  lemma ExactlyOne(w: World, c: Choice, newval: Tri)
    requires ValidChoice(c) && ChoiceTri(w, c, newval) == Y
    ensures Chosen(w, c).Some? && Chosen(w, c).value < |c.members|
    ensures MemberValue(w, c, newval, Chosen(w, c).value) == Y
    ensures (forall k :: 0 <= k < |c.members| && k != Chosen(w, c).value ==> MemberValue(w, c, newval, k) != Y)
       <==> (forall k :: 0 <= k < |c.members| && k != Chosen(w, c).value ==> !ByDefault(w, c, newval, k))
  {
    ChosenIsShown(w, c);
    forall k | 0 <= k < |c.members|
      ensures MemberValue(w, c, newval, k) == Y <==> Chosen(w, c) == Some(k) || ByDefault(w, c, newval, k)
    {
      MemberIsY(w, c, newval, k);
    }
  }

  // ---- a choice that is not y

  /** The condition of a prompt or default inside the choice is at most the choice. */
  ghost predicate Follows(w: World, c: Choice, p: Prop) {
    && EvalPtr(p.visible, With(w, c, N)) == N
    && (c.sym.typ == Tristate ==> EvalPtr(p.visible, With(w, c, M)) <= M)
  }

  ghost predicate FollowsAll(w: World, c: Choice, props: seq<Prop>) {
    forall p <- props :: p.kind == Prompt || p.kind == Default ==> Follows(w, c, p)
  }

  /** All prompts and defaults of the choice values stand inside the choice. */
  ghost predicate Inside(w: World, c: Choice) {
    forall m <- c.members :: FollowsAll(w, c, DefOf(w.cfg, m).props)
  }

  /** They are n while the choice is m. */
  ghost predicate OffAtM(w: World, c: Choice, props: seq<Prop>) {
    forall p <- props :: p.kind == Prompt || p.kind == Default ==> EvalPtr(p.visible, With(w, c, M)) == N
  }

  /** The value a choice may have before its values are looked at: m only for a tristate, with modules. */
  predicate Possible(w: World, c: Choice, newval: Tri) { newval == M ==> TypeOf(c.sym, w.modules) == Tristate }

  lemma {:induction false} PromptsBelow(w: World, c: Choice, m: Symbol, props: seq<Prop>, t: Tri)
    requires FollowsAll(w, c, props) && t != Y && (t == M ==> c.sym.typ == Tristate)
    ensures MemberPrompts(m, props, t, With(w, c, t)) <= t
    ensures t == M && OffAtM(w, c, props) ==> MemberPrompts(m, props, t, With(w, c, t)) == N
  {
    if props != [] {
      PromptsBelow(w, c, m, props[1..], t);
      assert props[0] in props;
    }
  }

  lemma {:induction false} DefaultBelow(w: World, c: Choice, props: seq<Prop>, t: Tri)
    requires FollowsAll(w, c, props) && t != Y && (t == M ==> c.sym.typ == Tristate)
    ensures var f := FirstDefault(props, With(w, c, t));
      f.DefaultProp? ==> f.cond <= t
    ensures t == M && OffAtM(w, c, props) ==> FirstDefault(props, With(w, c, t)).NoDefault?
  {
    if props != [] {
      DefaultBelow(w, c, props[1..], t);
      assert props[0] in props;
    }
  }

  /** A hidden value that is no tristate has a default while the choice is m: the value is promoted. */
  ghost predicate PromotedDefault(w: World, c: Choice, newval: Tri, k: nat)
    requires ValidChoice(c) && k < |c.members|
  {
    var m := c.members[k];
    && ChoiceTri(w, c, newval) == M && m.typ != Tristate
    && MemberVisible(w, c, m, M) == N && MemberDefault(w, c, m, M) != N
  }

  /** Exactly these values are y although the choice is not; if the choice is n, all values are n. */
  lemma NotYIff(w: World, c: Choice, newval: Tri, k: nat)
    requires ValidChoice(c) && Inside(w, c) && Possible(w, c, newval) && k < |c.members|
    requires ChoiceTri(w, c, newval) != Y
    ensures MemberValue(w, c, newval, k) == Y <==> PromotedDefault(w, c, newval, k)
    ensures ChoiceTri(w, c, newval) == N ==> MemberValue(w, c, newval, k) == N
  {
    var m, t := c.members[k], ChoiceTri(w, c, newval);
    assert m in c.members;
    PromptsBelow(w, c, m, DefOf(w.cfg, m).props, t);
    DefaultBelow(w, c, DefOf(w.cfg, m).props, t);
  }

  /** So no tristate value of a choice that is not y is y, and no other value either if its prompts and
      defaults are off while the choice is m. */
  lemma NotYMeansNone(w: World, c: Choice, newval: Tri, k: nat)
    requires ValidChoice(c) && Inside(w, c) && Possible(w, c, newval) && k < |c.members|
    requires ChoiceTri(w, c, newval) != Y
    requires c.sym.typ == Tristate && c.members[k].typ != Tristate ==> OffAtM(w, c, DefOf(w.cfg, c.members[k]).props)
    ensures MemberValue(w, c, newval, k) != Y
  {
    NotYIff(w, c, newval, k);
    if ChoiceTri(w, c, newval) == M && c.members[k].typ != Tristate {
      DefaultBelow(w, c, DefOf(w.cfg, c.members[k]).props, M);
    }
  }

  /** All values of a choice that is n are n. */
  lemma OffMeansNone(w: World, c: Choice, newval: Tri, k: nat)
    requires ValidChoice(c) && Inside(w, c) && Possible(w, c, newval) && k < |c.members|
    requires ChoiceTri(w, c, newval) == N
    ensures MemberValue(w, c, newval, k) == N
  {
    NotYIff(w, c, newval, k);
  }

  // ---- why prompts and defaults follow the choice

  /** A condition lies below the choice in every valuation. */
  ghost predicate BelowChoice(choice: Symbol, p: Ptr) {
    forall env: Env :: WellFormed(env) ==> EvalPtr(p, env) <= env(choice).tri
  }

  /** It holds only where the choice is y. */
  ghost predicate OnlyAtY(choice: Symbol, p: Ptr) {
    forall env: Env :: WellFormed(env) && env(choice).tri != Y ==> EvalPtr(p, env) == N
  }

  /** What the conditions of choice, entry and property allow together. */
  function Together(choice: Symbol, m: Symbol, first: bool, dep: Ptr, own: Ptr, modules: Symbol, env: Env): Tri {
    var capped := CapM(env, modules);
    var v := Combine(And, Combine(And, env(choice).tri, EvalPtr(dep, capped)), EvalPtr(own, capped));
    if first && choice.typ == Tristate && m.typ != Tristate && env(choice).tri != Y then N else v
  }

  /** The stored condition allows just that, up to m for y where the value is no tristate. */
  ghost predicate MeansInChoice(choice: Symbol, m: Symbol, first: bool, dep: Ptr, own: Ptr, modules: Symbol, p: Ptr) {
    forall env: Env :: WellFormed(env) ==>
      var t := Together(choice, m, first, dep, own, modules, env);
      if m.typ != Tristate then EvalPtr(p, env) <= t && Promote(EvalPtr(p, env)) == Promote(t)
      else EvalPtr(p, env) == t
  }

  lemma MeansTogether(choice: Symbol, m: Symbol, first: bool, dep: Ptr, own: Ptr, modules: Symbol, basedep: Ptr,
                      inner: Ptr, p: Ptr)
    requires IsLogic(choice.typ)
    requires forall env: Env :: WellFormed(env) ==>
      EvalPtr(basedep, env) == Combine(And, env(choice).tri, EvalPtr(dep, CapM(env, modules)))
    requires forall env: Env :: WellFormed(env) ==>
      var both := Combine(And, EvalPtr(basedep, env), EvalPtr(own, CapM(env, modules)));
      if m.typ != Tristate then EvalPtr(inner, env) <= both && Promote(EvalPtr(inner, env)) == Promote(both)
      else EvalPtr(inner, env) == both
    requires var needsY := first && choice.typ == Tristate && m.typ != Tristate;
      p == if needsY then AllocAnd(Ptr(Cmp(Eq, choice, YES)), inner) else inner
    ensures MeansInChoice(choice, m, first, dep, own, modules, p)
  {
    forall env: Env | WellFormed(env)
      ensures var t := Together(choice, m, first, dep, own, modules, env);
        if m.typ != Tristate then EvalPtr(p, env) <= t && Promote(EvalPtr(p, env)) == Promote(t)
        else EvalPtr(p, env) == t
    {
      AllocAndValue(Ptr(Cmp(Eq, choice, YES)), inner, env);
      CompareWithConstant(env, choice, YES);
    }
  }

  /** What menu_finalize does with one entry of a choice value and the properties that belong to it: the
      choice is the parent dependency of the entry, the entry's condition that of the properties. Only
      for the first entry of a value that is no tristate, in a choice that is one, the choice has to be y. */
  method FinalizeMember(choice: Symbol, m: Symbol, first: bool, dep: Ptr, props: seq<Prop>, modules: Symbol)
    returns (r: seq<Prop>)
    requires IsLogic(choice.typ) && Separated(PtrConstants(dep)) && forall p <- props :: SeparatedPtrs(dep, p.visible)
    ensures |r| == |props| && forall i :: 0 <= i < |r| ==> r[i].kind == props[i].kind && r[i].value == props[i].value
    ensures forall i :: 0 <= i < |r| ==>
              MeansInChoice(choice, m, first, dep, props[i].visible, modules, r[i].visible)
    ensures forall p <- r :: BelowChoice(choice, p.visible)
    ensures first && choice.typ == Tristate && m.typ != Tristate ==> forall p <- r :: OnlyAtY(choice, p.visible)
  {
    var basedep := Propagate(Ptr(Sym(choice)), dep, modules, false);
    r := [];
    while |r| < |props|
      invariant |r| <= |props|
      invariant forall i :: 0 <= i < |r| ==> r[i].kind == props[i].kind && r[i].value == props[i].value
      invariant forall i :: 0 <= i < |r| ==>
                  MeansInChoice(choice, m, first, dep, props[i].visible, modules, r[i].visible)
    {
      var p := props[|r|];
      assert p in props;
      var visible := FinalizeCondition(choice, m, first, basedep, dep, p.visible, modules);
      r := r + [p.(visible := visible)];
    }
    forall p <- r
      ensures BelowChoice(choice, p.visible)
      ensures first && choice.typ == Tristate && m.typ != Tristate ==> OnlyAtY(choice, p.visible)
    {
      var i :| 0 <= i < |r| && r[i] == p;
      MeansBelow(choice, m, first, dep, props[i].visible, modules, p.visible);
    }
  }

  /** The condition of one property. */
  method FinalizeCondition(choice: Symbol, m: Symbol, first: bool, basedep: Ptr, dep: Ptr, own: Ptr, modules: Symbol)
    returns (visible: Ptr)
    requires IsLogic(choice.typ) && NormalPtr(basedep) && SeparatedPtrs(dep, own)
    requires PtrConstants(basedep) <= PtrConstants(dep) + {YES, MOD, NO}
    requires forall env: Env :: WellFormed(env) ==>
      EvalPtr(basedep, env) == Combine(And, env(choice).tri, EvalPtr(dep, CapM(env, modules)))
    ensures MeansInChoice(choice, m, first, dep, own, modules, visible)
  {
    SeparatedSubset(PtrConstants(basedep) + PtrConstants(own), PtrConstants(dep) + PtrConstants(own));
    visible := Propagate(basedep, own, modules, m.typ != Tristate);
    ghost var inner := visible;
    if first && choice.typ == Tristate && m.typ != Tristate {
      visible := AllocAnd(Ptr(Cmp(Eq, choice, YES)), visible);
    }
    MeansTogether(choice, m, first, dep, own, modules, basedep, inner, visible);
  }

  /** So it is at most the choice, and n unless the choice is y where that is needed. */
  lemma MeansBelow(choice: Symbol, m: Symbol, first: bool, dep: Ptr, own: Ptr, modules: Symbol, p: Ptr)
    requires IsLogic(choice.typ) && MeansInChoice(choice, m, first, dep, own, modules, p)
    ensures BelowChoice(choice, p)
    ensures first && choice.typ == Tristate && m.typ != Tristate ==> OnlyAtY(choice, p)
  {
    forall env: Env | WellFormed(env)
      ensures EvalPtr(p, env) <= env(choice).tri
    {
      assert Together(choice, m, first, dep, own, modules, env) <= env(choice).tri;
    }
  }

  /** So properties finalized inside the choice follow it, and those of a first entry are off at m. */
  lemma FinalizedFollow(w: World, c: Choice, props: seq<Prop>)
    requires WellFormed(With(w, c, N)) && (c.sym.typ == Tristate ==> WellFormed(With(w, c, M)))
    requires forall p <- props :: BelowChoice(c.sym, p.visible)
    ensures FollowsAll(w, c, props)
    ensures c.sym.typ == Tristate && (forall p <- props :: OnlyAtY(c.sym, p.visible)) ==> OffAtM(w, c, props)
  {
    forall p <- props
      ensures Follows(w, c, p)
      ensures c.sym.typ == Tristate && OnlyAtY(c.sym, p.visible) ==> EvalPtr(p.visible, With(w, c, M)) == N
    {
      assert BelowChoice(c.sym, p.visible);
    }
  }

  // ---- defaults on choice values

  /** Two values that are y: the first is chosen, the second is hidden but has a default. Both stand
      inside the choice. */
  lemma DefaultBreaksRule(w: World, c: Choice, m1: Symbol, m2: Symbol)
    requires ValidChoice(c) && c.members == [m1, m2] && c.defaults == [] && c.picked == None
    requires c.sym.typ == m1.typ == m2.typ == Boolean && c.sym != YES && c.sym != NO
    requires w.env(YES).tri == Y && w.env(NO).tri == N
    requires DefOf(w.cfg, m1).props == [Prop(Prompt, Ptr(Sym(c.sym)), Null)]
    requires DefOf(w.cfg, m2).props == [Prop(Prompt, Ptr(Sym(NO)), Null), Prop(Default, Ptr(Sym(c.sym)), Ptr(Sym(YES)))]
    ensures Inside(w, c) && ChoiceTri(w, c, Y) == Y
    ensures MemberValue(w, c, Y, 0) == Y && MemberValue(w, c, Y, 1) == Y
  {
    var p1, p2 := DefOf(w.cfg, m1).props, DefOf(w.cfg, m2).props;
    var env := With(w, c, Y);
    assert p1[1..] == [] && p2[1..] == [p2[1]] && p2[1..][1..] == [];
    assert MemberPrompts(m1, p1[1..], Y, env) == N && MemberPrompts(m1, p1, Y, env) == Y;
    assert MemberPrompts(m2, p2[1..][1..], Y, env) == N && MemberPrompts(m2, p2[1..], Y, env) == N;
    assert MemberPrompts(m2, p2, Y, env) == N;
    assert FirstDefault(p2, env) == FirstDefault(p2[1..], env) == DefaultProp(Y, Ptr(Sym(YES)));
  }

  /** A default in a second definition, outside the choice, does not follow it: the value is y while the
      choice is n. */
  lemma OutsideDefaultBreaksRule(w: World, c: Choice, m: Symbol)
    requires ValidChoice(c) && c.members == [m] && m.typ == Boolean
    requires DefOf(w.cfg, m).props == [Prop(Default, Null, Ptr(Sym(YES)))] && c.sym != YES && w.env(YES).tri == Y
    ensures ChoiceTri(w, c, N) == N && MemberValue(w, c, N, 0) == Y
  {
    var props := DefOf(w.cfg, m).props;
    assert MemberPrompts(m, props, N, With(w, c, N)) == MemberPrompts(m, props[1..], N, With(w, c, N)) == N;
  }

  /** A boolean value with two entries inside a tristate choice, the prompt in the first and a default in
      the second, which does not need the choice to be y: the value is y while the choice is m. */
  lemma SecondEntryBreaksRule(w: World, c: Choice, m: Symbol)
    requires ValidChoice(c) && c.members == [m] && m.typ == Boolean && c.sym.typ == Tristate && w.modules != N
    requires WellFormed(With(w, c, N)) && WellFormed(With(w, c, M))
    requires DefOf(w.cfg, m).props ==
      [Prop(Prompt, AllocAnd(Ptr(Cmp(Eq, c.sym, YES)), Ptr(Sym(c.sym))), Null),
       Prop(Default, Ptr(Sym(c.sym)), Ptr(Sym(YES)))]
    ensures Inside(w, c) && Possible(w, c, M)
    ensures ChoiceTri(w, c, M) == M && MemberValue(w, c, M, 0) == Y
  {
    var props, env := DefOf(w.cfg, m).props, With(w, c, M);
    var off := With(w, c, N);
    CompareWithConstant(env, c.sym, YES);
    AllocAndValue(Ptr(Cmp(Eq, c.sym, YES)), Ptr(Sym(c.sym)), env);
    AllocAndValue(Ptr(Cmp(Eq, c.sym, YES)), Ptr(Sym(c.sym)), off);
    assert EvalPtr(props[0].visible, env) == EvalPtr(props[0].visible, off) == N;
    assert EvalPtr(props[1].visible, env) == M && EvalPtr(props[1].visible, off) == N;
    assert props[1..] == [props[1]] && props[1..][1..] == [];
    assert MemberPrompts(m, props[1..][1..], M, env) == N && MemberPrompts(m, props[1..], M, env) == N;
    assert MemberPrompts(m, props, M, env) == N;
    assert FirstDefault(props, env) == FirstDefault(props[1..], env) == DefaultProp(M, Ptr(Sym(YES)));
    assert Follows(w, c, props[0]) && Follows(w, c, props[1]);
  }

  // ---- the program

  class Calculator {
    const w: World
    const c: Choice
    /** curr.tri and curr.val of the choice. */
    var tri: Tri
    var chosen: Option<nat>
    /** visible and curr.tri of the choice values. */
    const visible: array<Tri>
    const value: array<Tri>

    constructor (w: World, c: Choice)
      ensures this.w == w && this.c == c && Sized() && fresh(visible) && fresh(value)
    {
      this.w, this.c := w, c;
      tri, chosen := N, None;
      visible := new Tri[|c.members|];
      value := new Tri[|c.members|];
    }

    ghost predicate Sized() {
      visible.Length == value.Length == |c.members| && visible != value
    }

    /** The prompt loop of sym_calc_visibility. */
    method CalcVisibility(k: nat)
      requires Sized() && k < |c.members|
      modifies visible
      ensures visible[k] == MemberVisible(w, c, c.members[k], tri)
      ensures forall i :: 0 <= i < visible.Length && i != k ==> visible[i] == old(visible[i])
    {
      var m := c.members[k];
      var props, env := DefOf(w.cfg, m).props, With(w, c, tri);
      var v, i := N, 0;
      assert props[0..] == props;
      while i < |props|
        invariant i <= |props|
        invariant MemberPrompts(m, props, tri, env) == Combine(Or, v, MemberPrompts(m, props[i..], tri, env))
      {
        assert props[i..][0] == props[i] && props[i..][1..] == props[i + 1..];
        if props[i].kind == Prompt {
          var shown := EvalPtr(props[i].visible, env);
          if m.typ == Tristate && shown == M && tri == Y {
            shown := N;
          }
          v := Combine(Or, v, shown);
        }
        i := i + 1;
      }
      if v == M && (m.typ != Tristate || w.modules == N) {
        v := Y;
      }
      visible[k] := v;
    }

    /** sym_choice_default. */
    method ChoiceDefault() returns (r: Option<nat>)
      requires Sized() && ValidChoice(c) && tri == Y
      requires forall i :: 0 <= i < visible.Length ==> visible[i] == MemberVisible(w, c, c.members[i], Y)
      ensures r == if FirstPick(w, c, 0).Some? then FirstPick(w, c, 0) else FirstShown(w, c, 0)
    {
      var i := 0;
      while i < |c.defaults|
        invariant i <= |c.defaults| && FirstPick(w, c, 0) == FirstPick(w, c, i)
      {
        var d := c.defaults[i];
        assert d in c.defaults;
        if EvalPtr(d.cond, With(w, c, tri)) != N && visible[d.member] != N {
          return Some(d.member);
        }
        i := i + 1;
      }
      i := 0;
      while i < |c.members|
        invariant i <= |c.members| && FirstShown(w, c, 0) == FirstShown(w, c, i)
      {
        if visible[i] != N {
          return Some(i);
        }
        i := i + 1;
      }
      r := None;
    }

    /** sym_calc_choice, with the choice set to y before. */
    method CalcChosen() returns (r: Option<nat>)
      requires Sized() && ValidChoice(c) && tri == Y
      modifies visible, `tri
      ensures r == Chosen(w, c) && tri == if r.None? then N else Y
    {
      var k := 0;
      while k < |c.members|
        invariant k <= |c.members| && tri == Y
        invariant forall i :: 0 <= i < k ==> visible[i] == MemberVisible(w, c, c.members[i], Y)
      {
        CalcVisibility(k);
        k := k + 1;
      }
      if c.picked.Some? && visible[c.picked.value] != N {
        return c.picked;
      }
      r := ChoiceDefault();
      if r.None? {
        tri := N;
      }
    }

    /** The end of sym_calc_value for the choice; newval is what prompt and dependencies give. */
    method CalcChoice(newval: Tri)
      requires Sized() && ValidChoice(c)
      modifies visible, `tri, `chosen
      ensures tri == ChoiceTri(w, c, newval) && chosen == if newval == Y then Chosen(w, c) else None
    {
      tri, chosen := newval, None;
      if newval == Y {
        chosen := CalcChosen();
      }
    }

    /** sym_calc_value for a choice value. */
    method CalcMember(k: nat, ghost newval: Tri)
      requires Sized() && ValidChoice(c) && k < |c.members|
      requires tri == ChoiceTri(w, c, newval) && chosen == if newval == Y then Chosen(w, c) else None
      modifies visible, value
      ensures value[k] == MemberValue(w, c, newval, k)
      ensures forall i :: 0 <= i < value.Length && i != k ==> value[i] == old(value[i])
    {
      CalcVisibility(k);
      var m, vis := c.members[k], visible[k];
      var v;
      if vis == Y {
        v := if chosen == Some(k) then Y else N;
      } else if vis != N && m in w.user {
        v := Combine(And, w.user[m].tri, vis);
      } else {
        v := MemberDefault(w, c, m, tri);
      }
      if vis != Y && v == M && TypeOf(m, w.modules) == Boolean {
        v := Y;
      }
      value[k] := v;
    }

    /** The choice and then its values. If the choice is y, so is the chosen value, and any other value
        that is y is so by default; if it is not y, a value is y only by a promoted default; if it is n,
        all values are n. The last two hold for values whose prompts and defaults stand inside the choice. */
    method CalcAll(newval: Tri)
      requires Sized() && ValidChoice(c)
      modifies visible, value, `tri, `chosen
      ensures tri == ChoiceTri(w, c, newval)
      ensures forall k :: 0 <= k < value.Length ==> value[k] == MemberValue(w, c, newval, k)
      ensures tri == Y ==> chosen.Some? && chosen.value < value.Length && value[chosen.value] == Y
      ensures tri == Y ==> forall k :: 0 <= k < value.Length && value[k] == Y && chosen != Some(k) ==>
                ByDefault(w, c, newval, k)
      ensures Inside(w, c) && Possible(w, c, newval) && tri != Y ==> forall k :: 0 <= k < value.Length ==>
                (value[k] == Y <==> PromotedDefault(w, c, newval, k)) && (tri == N ==> value[k] == N)
    {
      CalcChoice(newval);
      var k := 0;
      while k < |c.members|
        invariant k <= |c.members| && tri == ChoiceTri(w, c, newval)
        invariant chosen == if newval == Y then Chosen(w, c) else None
        invariant forall i :: 0 <= i < k ==> value[i] == MemberValue(w, c, newval, i)
      {
        CalcMember(k, newval);
        k := k + 1;
      }
      forall i | 0 <= i < value.Length
        ensures tri == Y && value[i] == Y && chosen != Some(i) ==> ByDefault(w, c, newval, i)
        ensures Inside(w, c) && Possible(w, c, newval) && tri != Y ==>
                  (value[i] == Y <==> PromotedDefault(w, c, newval, i)) && (tri == N ==> value[i] == N)
      {
        MemberIsY(w, c, newval, i);
        if Inside(w, c) && Possible(w, c, newval) && tri != Y { NotYIff(w, c, newval, i); }
      }
      if tri == Y { ExactlyOne(w, c, newval); }
    }
  }
}
