/** sym_check_deps: the depth-first search for recursive dependencies. */
module SymbolDeps {
  import opened KconfigExpr
  import opened ExprMenuDeps
  import opened SymbolSpec

  datatype Found = Fine | Recursive(s: Symbol)

  /** Who depends on whom. */
  type Graph = Symbol -> set<Symbol>

  /** Each symbol depends on the next one, the last on the first. */
  ghost predicate Cycle(g: Graph, c: seq<Symbol>) {
    c != [] && Chain(g, c) && c[0] in g(c[|c| - 1])
  }

  ghost predicate Chain(g: Graph, c: seq<Symbol>) {
    forall i :: 0 <= i < |c| - 1 ==> c[i + 1] in g(c[i])
  }

  ghost predicate Cyclic(g: Graph) { exists c: seq<Symbol> :: Cycle(g, c) }

  ghost function DepGraph(cfg: Config): Graph { (s: Symbol) => Deps(cfg, s) }

  /** g is the dependency graph of the configuration. */
  ghost predicate GraphOf(cfg: Config, g: Graph) {
    forall s: Symbol {:trigger Deps(cfg, s)} :: g(s) == Deps(cfg, s)
  }

  /** A set of symbols with whatever they depend on. */
  ghost predicate Closed(g: Graph, all: set<Symbol>) { forall s <- all :: g(s) <= all }

  /** Symbols in the order in which they were found fine: dependencies come first. */
  ghost predicate Ordered(g: Graph, order: seq<Symbol>) {
    forall i, t: Symbol :: 0 <= i < |order| && t in g(order[i]) ==> t in order[..i]
  }

  lemma OrderedAppend(g: Graph, order: seq<Symbol>, s: Symbol)
    requires Ordered(g, order) && forall t <- g(s) :: t in order
    ensures Ordered(g, order + [s])
  {
    var longer := order + [s];
    forall i, t: Symbol | 0 <= i < |longer| && t in g(longer[i])
      ensures t in longer[..i]
    {
      assert longer[..i] == order[..i];
      assert order[..|order|] == order;
    }
  }

  ghost function Position(order: seq<Symbol>, s: Symbol): nat
    ensures s in order ==> Position(order, s) < |order| && order[Position(order, s)] == s
    ensures s !in order ==> Position(order, s) == |order|
    ensures forall i :: 0 <= i < Position(order, s) && i < |order| ==> order[i] != s
  {
    if order == [] || order[0] == s then 0 else 1 + Position(order[1..], s)
  }

  /** A complete order gives every symbol a rank above its dependencies. */
  ghost function RankIn(order: seq<Symbol>): Symbol -> nat {
    (s: Symbol) => Position(order, s)
  }

  ghost predicate Falls(g: Graph, rank: Symbol -> nat) {
    forall s: Symbol, t: Symbol :: t in g(s) ==> rank(t) < rank(s)
  }

  lemma OrderRanks(g: Graph, all: set<Symbol>, order: seq<Symbol>)
    requires Ordered(g, order) && forall s <- all :: s in order
    requires forall s: Symbol :: s !in all ==> g(s) == {}
    ensures Falls(g, RankIn(order))
  {
    forall s: Symbol, t: Symbol | t in g(s)
      ensures Position(order, t) < Position(order, s)
    {
      var i := Position(order, s);
      assert s in all && order[i] == s;
      assert t in order[..i];
      var j :| 0 <= j < i && order[..i][j] == t;
      assert order[j] == t;
    }
  }

  /** Along a chain of dependencies the rank falls, so it never comes back to where it began. */
  lemma {:induction false} RankFallsAlongChain(g: Graph, rank: Symbol -> nat, c: seq<Symbol>, i: nat)
    requires Falls(g, rank) && Chain(g, c) && i < |c|
    ensures rank(c[i]) <= rank(c[0])
  {
    if i > 0 {
      RankFallsAlongChain(g, rank, c, i - 1);
      assert c[i - 1 + 1] in g(c[i - 1]);
    }
  }

  lemma FallingIsAcyclic(g: Graph, rank: Symbol -> nat)
    requires Falls(g, rank)
    ensures !Cyclic(g)
  {
    forall c: seq<Symbol> | Cycle(g, c)
      ensures false
    {
      RankFallsAlongChain(g, rank, c, |c| - 1);
    }
  }

  class Checker {
    const cfg: Config
    /** SYMBOL_CHECK: on the current path. SYMBOL_CHECKED: seen before. */
    var check: set<Symbol>
    var checked: set<Symbol>
    /** The current path, as dep_stack records it, and the symbols found fine so far. */
    ghost var path: seq<Symbol>
    ghost var order: seq<Symbol>

    ghost const g: Graph

    constructor (cfg: Config)
      ensures this.cfg == cfg && check == {} && checked == {} && path == [] && order == []
      ensures g == DepGraph(cfg)
    {
      this.cfg := cfg;
      g := DepGraph(cfg);
      check, checked, path, order := {}, {}, [], [];
    }

    /** The path is a chain of dependencies and holds exactly the symbols being checked. */
    ghost predicate Valid()
      reads this
    {
      (forall s: Symbol :: s in check <==> s in path) && check <= checked && Chain(g, path)
    }

    /** All symbols seen and not on the path are in the order, dependencies first. */
    ghost predicate FineSoFar()
      reads this
    {
      Ordered(g, order) && forall s: Symbol :: s in order <==> s in checked && s !in check
    }

    /** s may be looked at from the top of the path. */
    ghost predicate Reachable(s: Symbol)
      reads this
    {
      path == [] || s in g(path[|path| - 1])
    }

    /** sym_check_deps outside choices. */
    method CheckDeps(s: Symbol, ghost all: set<Symbol>) returns (r: Found)
      requires Valid() && Reachable(s) && s in all && GraphOf(cfg, g) && Closed(g, all) && checked <= all
      modifies this
      ensures Valid() && check == old(check) && path == old(path)
      ensures old(checked) <= checked <= all && s in checked
      ensures r.Recursive? ==> Cyclic(g)
      ensures r.Fine? ==> s !in check && (old(FineSoFar()) ==> FineSoFar())
      decreases all - checked, 0, 0
    {
      if s in check {
        ghost var i :| 0 <= i < |path| && path[i] == s;
        assert Cycle(g, path[i..]);
        return Recursive(s);
      }
      if s in checked {
        return Fine;
      }
      Enter(s);
      r := CheckSymDeps(s, all);
      Leave(s, r.Fine?);
    }

    /** The flags are set and the symbol goes on top of the path. */
    method Enter(s: Symbol)
      requires Valid() && Reachable(s) && s !in checked
      modifies this
      ensures Valid() && path == old(path) + [s] && check == old(check) + {s} && checked == old(checked) + {s}
      ensures order == old(order) && (old(FineSoFar()) ==> FineSoFar())
    {
      check, checked, path := check + {s}, checked + {s}, path + [s];
    }

    /** The symbol leaves the path; SYMBOL_CHECKED stays. */
    method Leave(s: Symbol, fine: bool)
      requires Valid() && path != [] && path[|path| - 1] == s && s !in path[..|path| - 1]
      requires fine ==> g(s) <= checked - check
      modifies this
      ensures Valid() && path == old(path)[..|old(path)| - 1] && check == old(check) - {s} && checked == old(checked)
      ensures fine && old(FineSoFar()) ==> FineSoFar()
    {
      assert path == path[..|path| - 1] + [s];
      if fine && FineSoFar() { OrderedAppend(g, order, s); }
      check, path := check - {s}, path[..|path| - 1];
      if fine { order := order + [s]; }
    }

    /** sym_check_sym_deps: the expressions of the symbol, in the order of the source. */
    method CheckSymDeps(s: Symbol, ghost all: set<Symbol>) returns (r: Found)
      requires Valid() && path != [] && path[|path| - 1] == s && GraphOf(cfg, g) && Closed(g, all) && s in all
      requires checked <= all
      modifies this
      ensures Valid() && check == old(check) && path == old(path) && old(checked) <= checked <= all
      ensures r.Recursive? ==> Cyclic(g)
      ensures r.Fine? ==> g(s) <= checked - check && (old(FineSoFar()) ==> FineSoFar())
      decreases all - checked, 3, 0
    {
      var d := DefOf(cfg, s);
      assert g(s) == Deps(cfg, s);
      r := CheckPtr(d.dirDep, all);
      if r.Recursive? { return; }
      r := CheckPtr(d.revDep, all);
      if r.Recursive? { return; }
      r := CheckPtr(d.implied, all);
      if r.Recursive? { return; }
      r := CheckProps(d.props, all);
    }

    /** The loop over the properties; selects and implies are skipped. */
    method CheckProps(props: seq<Prop>, ghost all: set<Symbol>) returns (r: Found)
      requires Valid() && path != [] && PropsSymbols(props) <= g(path[|path| - 1])
      requires GraphOf(cfg, g) && Closed(g, all) && PropsSymbols(props) <= all && checked <= all
      modifies this
      ensures Valid() && check == old(check) && path == old(path) && old(checked) <= checked <= all
      ensures r.Recursive? ==> Cyclic(g)
      ensures r.Fine? ==> PropsSymbols(props) <= checked - check && (old(FineSoFar()) ==> FineSoFar())
      decreases all - checked, 2, |props|
    {
      r := Fine;
      ghost var done: set<Symbol> := {};
      for i := 0 to |props|
        invariant Valid() && check == old(check) && path == old(path) && old(checked) <= checked <= all
        invariant r.Fine? && (old(FineSoFar()) ==> FineSoFar())
        invariant done <= checked - check && PropsSymbols(props) == done + PropsSymbols(props[i..])
      {
        var p := props[i];
        ghost var rest := props[i..];
        assert rest[0] == p && rest[1..] == props[i + 1..];
        assert PropSymbols(p) <= PropsSymbols(props);
        if p.kind != Select && p.kind != Imply {
          r := CheckPtr(p.visible, all);
          if r.Recursive? { return; }
          if p.kind == Default {
            r := CheckPtr(p.value, all);
            if r.Recursive? { return; }
          }
        }
        done := done + PropSymbols(p);
      }
    }

    method CheckPtr(p: Ptr, ghost all: set<Symbol>) returns (r: Found)
      requires Valid() && path != [] && PtrSymbols(p) <= g(path[|path| - 1])
      requires GraphOf(cfg, g) && Closed(g, all) && PtrSymbols(p) <= all && checked <= all
      modifies this
      ensures Valid() && check == old(check) && path == old(path) && old(checked) <= checked <= all
      ensures r.Recursive? ==> Cyclic(g)
      ensures r.Fine? ==> PtrSymbols(p) <= checked - check && (old(FineSoFar()) ==> FineSoFar())
      decreases all - checked, 2, 0
    {
      if p.Null? {
        r := Fine;
      } else {
        r := CheckExprDeps(p.e, all);
      }
    }

    /** sym_check_expr_deps. */
    method CheckExprDeps(e: Expr, ghost all: set<Symbol>) returns (r: Found)
      requires Valid() && path != [] && ExprSymbols(e) <= g(path[|path| - 1])
      requires GraphOf(cfg, g) && Closed(g, all) && ExprSymbols(e) <= all && checked <= all
      modifies this
      ensures Valid() && check == old(check) && path == old(path) && old(checked) <= checked <= all
      ensures r.Recursive? ==> Cyclic(g)
      ensures r.Fine? ==> ExprSymbols(e) <= checked - check && (old(FineSoFar()) ==> FineSoFar())
      decreases all - checked, 1, Size(e)
    {
      match e
      case Sym(s) =>
        r := CheckDeps(s, all);
      case Cmp(_, a, b) =>
        r := CheckDeps(a, all);
        if r.Fine? { r := CheckDeps(b, all); }
      case Not(a) =>
        r := CheckExprDeps(a, all);
      case Bin(_, a, b) =>
        r := CheckExprDeps(a, all);
        if r.Fine? { r := CheckExprDeps(b, all); }
    }

    /** The check of a whole configuration: every symbol in some order, from cleared flags. It finds
        nothing if and only if no symbol depends on itself, and then yields a rank. */
    method CheckAll(symbols: seq<Symbol>, ghost all: set<Symbol>) returns (errors: nat)
      requires check == {} && checked == {} && path == [] && order == []
      requires GraphOf(cfg, g) && Closed(g, all) && forall s: Symbol :: s in all <==> s in symbols
      requires forall s: Symbol :: s !in all ==> g(s) == {}
      modifies this
      ensures errors == 0 <==> !Cyclic(g)
      ensures errors == 0 ==> Falls(g, RankIn(order))
    {
      errors := 0;
      for i := 0 to |symbols|
        invariant Valid() && check == {} && path == [] && checked <= all
        invariant forall s <- symbols[..i] :: s in checked
        invariant errors == 0 ==> FineSoFar()
        invariant errors > 0 ==> Cyclic(g)
      {
        var r := CheckDeps(symbols[i], all);
        if r.Recursive? {
          errors := errors + 1;
        }
      }
      assert symbols[..|symbols|] == symbols;
      if errors == 0 {
        OrderRanks(g, all, order);
        FallingIsAcyclic(g, RankIn(order));
      }
    }
  }

  /** Running sym_check_deps over all symbols of a configuration. */
  method CheckConfiguration(cfg: Config, symbols: seq<Symbol>) returns (errors: nat, ghost rank: Symbol -> nat)
    requires forall s: Symbol :: s in cfg ==> s in symbols
    requires forall s: Symbol, t: Symbol :: s in symbols && t in Deps(cfg, s) ==> t in symbols
    ensures errors == 0 <==> !Cyclic(DepGraph(cfg))
    ensures errors == 0 ==> Ranked(cfg, rank)
  {
    var checker := new Checker(cfg);
    ghost var all := set s | s in symbols;
    forall s: Symbol | s !in all ensures checker.g(s) == {} {
      assert s !in cfg;
      NoDefinitionNoDeps(cfg, s);
    }
    errors := checker.CheckAll(symbols, all);
    rank := RankIn(checker.order);
    if errors == 0 {
      forall s: Symbol, t: Symbol | t in Deps(cfg, s) ensures rank(t) < rank(s) {
        assert checker.g(s) == Deps(cfg, s);
      }
    }
  }

  lemma NoDefinitionNoDeps(cfg: Config, s: Symbol)
    requires s !in cfg
    ensures Deps(cfg, s) == {}
  {
  }
}
