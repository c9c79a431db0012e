/** What expr_eq decides: equality up to the order and nesting of operands. */
module ExprOrder {
  import opened KconfigExpr
  import opened ExprElim

  /** An expression without the order and nesting of the operands of its ANDs and ORs. */
  datatype Unordered =
    | Single(e: Expr)
    | Negated(u: Unordered)
    | Group(op: Conn, operands: multiset<Unordered>)

  function Forget(e: Expr): Unordered
    decreases Size(e), 1
  {
    match e
    case Sym(_) => Single(e)
    case Cmp(_, _, _) => Single(e)
    case Not(a) => Negated(Forget(a))
    case Bin(op, a, b) => Group(op, Operands(op, a) + Operands(op, b))
  }

  /** The operands of e as one side of an op. */
  function Operands(op: Conn, e: Expr): multiset<Unordered>
    decreases Size(e), 2
  {
    if IsBin(e, op) then Operands(op, e.left) + Operands(op, e.right) else multiset{Forget(e)}
  }

  // ---- an expression equals itself

  /** All operands are y or n. */
  ghost predicate Ground(op: Conn, e: Expr) {
    if IsBin(e, op) then Ground(op, e.left) && Ground(op, e.right) else IsYn(e)
  }

  /** Nothing is struck out against constants. */
  lemma {:induction false} GroundLeft(op: Conn, g: Expr, e: Expr)
    requires Ground(op, g)
    ensures EliminateLeaves(op, g, e) == Residue(g, e)
    decreases Size(g) + Size(e)
  {
    if IsBin(g, op) {
      GroundLeft(op, g.left, e);
      GroundLeft(op, g.right, e);
    } else if IsBin(e, op) {
      GroundLeft(op, g, e.left);
      GroundLeft(op, g, e.right);
    }
  }

  lemma {:induction false} GroundRight(op: Conn, e: Expr, g: Expr)
    requires Ground(op, g)
    ensures EliminateLeaves(op, e, g) == Residue(e, g)
    decreases Size(e) + Size(g)
  {
    if IsBin(e, op) {
      GroundRight(op, e.left, g);
      GroundRight(op, e.right, g);
    } else if IsBin(g, op) {
      GroundRight(op, e, g.left);
      GroundRight(op, e, g.right);
    }
  }

  /** What is struck out completely against u leaves what stands behind u alone. */
  lemma {:induction false} StruckByFirst(op: Conn, e: Expr, u: Expr, v: Expr)
    requires Ground(op, EliminateLeaves(op, e, u).a)
    ensures var r := EliminateLeaves(op, e, u);
      EliminateLeaves(op, e, Bin(op, u, v)) == Residue(r.a, Bin(op, r.b, v))
    decreases Size(e)
  {
    var r := EliminateLeaves(op, e, u);
    if IsBin(e, op) {
      var x := EliminateLeaves(op, e.left, u);
      StruckByFirst(op, e.left, u, v);
      StruckByFirst(op, e.right, x.b, v);
    } else {
      GroundLeft(op, r.a, v);
    }
  }

  /** Constants in front are passed over. */
  lemma {:induction false} PassConstants(op: Conn, e: Expr, g: Expr, v: Expr)
    requires Ground(op, g)
    ensures var r := EliminateLeaves(op, e, v);
      EliminateLeaves(op, e, Bin(op, g, v)) == Residue(r.a, Bin(op, g, r.b))
    decreases Size(e)
  {
    if IsBin(e, op) {
      PassConstants(op, e.left, g, v);
      PassConstants(op, e.right, g, EliminateLeaves(op, e.left, v).b);
    } else {
      GroundRight(op, e, g);
    }
  }

  /** Against itself everything is struck out. */
  lemma {:induction false} StrikesItself(op: Conn, e: Expr)
    ensures var r := EliminateLeaves(op, e, e);
      r.a == r.b && Ground(op, r.a)
    decreases Size(e), if IsBin(e, op) then 0 else 2
  {
    if IsBin(e, op) {
      StrikesItself(op, e.left);
      var g := EliminateLeaves(op, e.left, e.left).a;
      StruckByFirst(op, e.left, e.left, e.right);
      PassConstants(op, e.right, g, e.right);
      StrikesItself(op, e.right);
    } else if !IsYn(e) {
      EqualsItself(e);
    }
  }

  lemma {:induction false} GroundReduces(op: Conn, e: Expr)
    requires Ground(op, e)
    ensures IsYn(EliminateYn(e))
  {
    if IsBin(e, op) {
      GroundReduces(op, e.left);
      GroundReduces(op, e.right);
    }
  }

  /** expr_eq recognises every expression as equal to itself. */
  lemma {:induction false} EqualsItself(e: Expr)
    ensures ExprEq(e, e)
    decreases Size(e), 1
  {
    match e
    case Sym(_) =>
    case Cmp(_, _, _) =>
    case Not(a) => EqualsItself(a);
    case Bin(op, _, _) =>
      StrikesItself(op, e);
      GroundReduces(op, EliminateLeaves(op, e, e).a);
  }

  // ---- without constants expr_eq is equality up to order and nesting

  /** No AND or OR has y or n as an operand. */
  predicate NoYn(e: Expr) {
    match e
    case Sym(_) => true
    case Cmp(_, _, _) => true
    case Not(a) => NoYn(a)
    case Bin(_, a, b) => !IsYn(a) && !IsYn(b) && NoYn(a) && NoYn(b)
  }

  /** Every operand has been struck out or has no constants. */
  ghost predicate Clean(op: Conn, e: Expr) {
    if IsBin(e, op) then Clean(op, e.left) && Clean(op, e.right)
    else e == Identity(op) || (NoYn(e) && !IsYn(e))
  }

  /** The operands that have not been struck out. */
  ghost function Live(op: Conn, e: Expr): multiset<Unordered> {
    if IsBin(e, op) then Live(op, e.left) + Live(op, e.right)
    else if e == Identity(op) then multiset{}
    else multiset{Forget(e)}
  }

  lemma {:induction false} AllLive(op: Conn, e: Expr)
    requires NoYn(e) && !IsYn(e)
    ensures Clean(op, e) && Live(op, e) == Operands(op, e)
  {
    if IsBin(e, op) {
      AllLive(op, e.left);
      AllLive(op, e.right);
    }
  }

  lemma StrikeTwice<T>(l: multiset<T>, r: multiset<T>, b: multiset<T>)
    ensures (l - b) + (r - (b - l)) == (l + r) - b
    ensures (b - l) - r == b - (l + r)
  {
  }

  /** Each operand is struck out against one equal operand of the other side. */
  ghost predicate Struck(op: Conn, a: Expr, b: Expr, r: Residue) {
    && Clean(op, r.a) && Clean(op, r.b)
    && IsBin(r.a, op) == IsBin(a, op) && IsBin(r.b, op) == IsBin(b, op)
    && Live(op, r.a) == Live(op, a) - Live(op, b) && Live(op, r.b) == Live(op, b) - Live(op, a)
  }

  lemma StruckFirst(op: Conn, a: Expr, b: Expr, x: Residue, y: Residue)
    requires IsBin(a, op) && Struck(op, a.left, b, x) && Struck(op, a.right, x.b, y)
    ensures Struck(op, a, b, Residue(Bin(op, x.a, y.a), y.b))
  {
    StrikeTwice(Live(op, a.left), Live(op, a.right), Live(op, b));
    var t := Bin(op, x.a, y.a);
    assert Live(op, t) == Live(op, x.a) + Live(op, y.a) && Clean(op, t);
    assert Live(op, a) == Live(op, a.left) + Live(op, a.right);
  }

  lemma StruckSecond(op: Conn, a: Expr, b: Expr, x: Residue, y: Residue)
    requires IsBin(b, op) && Struck(op, a, b.left, x) && Struck(op, x.a, b.right, y)
    ensures Struck(op, a, b, Residue(y.a, Bin(op, x.b, y.b)))
  {
    StrikeTwice(Live(op, b.left), Live(op, b.right), Live(op, a));
    var t := Bin(op, x.b, y.b);
    assert Live(op, t) == Live(op, x.b) + Live(op, y.b) && Clean(op, t);
    assert Live(op, b) == Live(op, b.left) + Live(op, b.right);
  }

  lemma LeavesKept(op: Conn, a: Expr, b: Expr)
    requires !IsBin(a, op) && !IsBin(b, op) && Clean(op, a) && Clean(op, b)
    requires a == Identity(op) || b == Identity(op) || Forget(a) != Forget(b)
    ensures Struck(op, a, b, Residue(a, b))
  {
    var l, m := Live(op, a), Live(op, b);
    assert l - m == l && m - l == m;
  }

  lemma LeavesStruck(op: Conn, a: Expr, b: Expr)
    requires !IsBin(a, op) && !IsBin(b, op) && a != Identity(op) && b != Identity(op) && Forget(a) == Forget(b)
    ensures Struck(op, a, b, Residue(Identity(op), Identity(op)))
  {
    var l, m := Live(op, a), Live(op, b);
    assert l == m && l - m == m - l == multiset{};
  }

  lemma {:induction false} StrikesCommon(op: Conn, a: Expr, b: Expr)
    requires Clean(op, a) && Clean(op, b)
    ensures Struck(op, a, b, EliminateLeaves(op, a, b))
    decreases Size(a) + Size(b), if IsBin(a, op) || IsBin(b, op) then 0 else 4
  {
    if IsBin(a, op) {
      var x := EliminateLeaves(op, a.left, b);
      var y := EliminateLeaves(op, a.right, x.b);
      StrikesCommon(op, a.left, b);
      StrikesCommon(op, a.right, x.b);
      StruckFirst(op, a, b, x, y);
      assert EliminateLeaves(op, a, b) == Residue(Bin(op, x.a, y.a), y.b);
    } else if IsBin(b, op) {
      var x := EliminateLeaves(op, a, b.left);
      var y := EliminateLeaves(op, x.a, b.right);
      StrikesCommon(op, a, b.left);
      StrikesCommon(op, x.a, b.right);
      StruckSecond(op, a, b, x, y);
      assert EliminateLeaves(op, a, b) == Residue(y.a, Bin(op, x.b, y.b));
    } else {
      StrikesLeaves(op, a, b);
    }
  }

  lemma StrikesLeaves(op: Conn, a: Expr, b: Expr)
    requires !IsBin(a, op) && !IsBin(b, op) && Clean(op, a) && Clean(op, b)
    ensures Struck(op, a, b, EliminateLeaves(op, a, b))
    decreases Size(a) + Size(b), 4, 0
  {
    if a == Identity(op) || b == Identity(op) {
      assert ExprEq(a, b) ==> a == b;
      LeavesKept(op, a, b);
    } else {
      ExprEqIff(a, b);
      if Forget(a) == Forget(b) { LeavesStruck(op, a, b); } else { LeavesKept(op, a, b); }
    }
  }

  lemma {:induction false} NothingToReduce(e: Expr)
    requires NoYn(e)
    ensures EliminateYn(e) == e
  {
    if e.Bin? {
      NothingToReduce(e.left);
      NothingToReduce(e.right);
    }
  }

  /** What is left after the constants are removed: r for the operands live. */
  ghost predicate Reduced(op: Conn, live: multiset<Unordered>, r: Expr) {
    if live == multiset{} then r == Identity(op)
    else !IsYn(r) && (r.Sym? ==> live == multiset{Single(r)})
  }

  lemma ReducedPrune(op: Conn, l: multiset<Unordered>, m: multiset<Unordered>, a: Expr, b: Expr)
    requires Reduced(op, l, a) && Reduced(op, m, b)
    ensures Reduced(op, l + m, Prune(op, a, b))
  {
    assert a != Absorbing(op) && b != Absorbing(op);
    if l == multiset{} {
      assert l + m == m;
    } else if m == multiset{} {
      assert l + m == l;
    }
  }

  lemma {:induction false} LiveReduces(op: Conn, e: Expr)
    requires Clean(op, e)
    ensures Reduced(op, Live(op, e), EliminateYn(e))
  {
    if IsBin(e, op) {
      LiveReduces(op, e.left);
      LiveReduces(op, e.right);
      ReducedPrune(op, Live(op, e.left), Live(op, e.right), EliminateYn(e.left), EliminateYn(e.right));
    } else if e != Identity(op) {
      NothingToReduce(e);
    }
  }

  lemma Disjoint<T>(a: multiset<T>, b: multiset<T>, x: T)
    ensures !(x in a - b && x in b - a)
    ensures a - b == b - a == multiset{} <==> a == b
  {
    if a - b == b - a == multiset{} {
      forall y ensures a[y] == b[y] {
        assert (a - b)[y] == 0 && (b - a)[y] == 0;
      }
    }
  }

  /** For expressions without constants as operands, expr_eq answers true exactly if the two are the
      same up to the order and nesting of operands, at every level. */
  lemma {:induction false} ExprEqIff(a: Expr, b: Expr)
    requires NoYn(a) && NoYn(b)
    ensures ExprEq(a, b) <==> Forget(a) == Forget(b)
    decreases Size(a) + Size(b), 3
  {
    match (a, b)
    case (Not(x), Not(y)) => ExprEqIff(x, y);
    case (Bin(op, _, _), Bin(op', _, _)) =>
      if op == op' { GroupsEqual(op, a, b); }
    case _ =>
  }

  lemma GroupsEqual(op: Conn, a: Expr, b: Expr)
    requires IsBin(a, op) && IsBin(b, op) && NoYn(a) && NoYn(b)
    ensures ExprEq(a, b) <==> Operands(op, a) == Operands(op, b)
    decreases Size(a) + Size(b), 2
  {
    AllLive(op, a);
    AllLive(op, b);
    StrikesCommon(op, a, b);
    var x := EliminateLeaves(op, a, b);
    LiveReduces(op, x.a);
    LiveReduces(op, x.b);
    assert EliminateCommon(a, b) == x;
    SameResidues(op, Operands(op, a), Operands(op, b), EliminateYn(x.a), EliminateYn(x.b));
  }

  /** Both residues are one and the same symbol only if nothing is left of either side. */
  lemma SameResidues(op: Conn, l: multiset<Unordered>, m: multiset<Unordered>, a: Expr, b: Expr)
    requires Reduced(op, l - m, a) && Reduced(op, m - l, b)
    ensures a.Sym? && b.Sym? && a.s == b.s <==> l == m
  {
    Disjoint(l, m, Single(a));
    if a.Sym? && a == b && l != m {
      assert Single(a) in multiset{Single(a)};
    }
  }

  // ---- one expression reduced to y against another

  /** Whatever it is struck out against, what is left of a side has no other constants. */
  lemma {:induction false} StaysClean(op: Conn, a: Expr, b: Expr)
    requires Clean(op, b)
    ensures Clean(op, EliminateLeaves(op, a, b).b)
    decreases Size(a) + Size(b)
  {
    if IsBin(a, op) {
      StaysClean(op, a.left, b);
      StaysClean(op, a.right, EliminateLeaves(op, a.left, b).b);
    } else if IsBin(b, op) {
      StaysClean(op, a, b.left);
      StaysClean(op, EliminateLeaves(op, a, b.left).a, b.right);
    }
  }

  lemma Included<T>(l: multiset<T>, m: multiset<T>)
    ensures l - m == multiset{} <==> l <= m
  {
    if l - m == multiset{} {
      forall x ensures l[x] <= m[x] { assert (l - m)[x] == 0; }
    }
  }

  /** Against an AND an expression is reduced to y exactly if its operands are among those of the AND. */
  lemma ReducedToYesIff(a: Expr, b: Expr)
    requires IsBin(a, And) && NoYn(a) && NoYn(b) && !IsYn(b)
    ensures EliminateEq(a, b).b == Sym(YES) <==> Operands(And, b) <= Operands(And, a)
  {
    AllLive(And, a);
    AllLive(And, b);
    StrikesCommon(And, a, b);
    Included(Operands(And, b), Operands(And, a));
    var x := EliminateLeaves(And, a, b);
    LiveReduces(And, x.b);
    if IsBin(x.b, Or) {
      StillThere(a, b);
      NeverYes(x.a, b);
      assert EliminateEq(a, b).b == EliminateYn(EliminateLeaves(Or, x.a, b).b);
    } else {
      assert EliminateEq(a, b).b == EliminateYn(x.b);
    }
  }

  /** Struck out as operands of an OR, nothing becomes y. */
  lemma NeverYes(a: Expr, b: Expr)
    requires NoYn(b) && !IsYn(b)
    ensures EliminateYn(EliminateLeaves(Or, a, b).b) != Sym(YES)
  {
    AllLive(Or, b);
    StaysClean(Or, a, b);
    LiveReduces(Or, EliminateLeaves(Or, a, b).b);
  }

  /** What is no AND is left as it is, or struck out. */
  lemma StillThere(a: Expr, b: Expr)
    requires IsBin(a, And) && NoYn(a) && NoYn(b) && !IsYn(b) && IsBin(EliminateLeaves(And, a, b).b, Or)
    ensures EliminateLeaves(And, a, b).b == b
  {
    OneOrNothing(And, a, b);
  }

  lemma {:induction false} OneOrNothing(op: Conn, a: Expr, b: Expr)
    ensures !IsBin(b, op) ==> EliminateLeaves(op, a, b).b in {b, Identity(op)}
    ensures IsBin(b, op) ==> IsBin(EliminateLeaves(op, a, b).b, op)
    decreases Size(a) + Size(b)
  {
    if IsBin(a, op) {
      OneOrNothing(op, a.left, b);
      OneOrNothing(op, a.right, EliminateLeaves(op, a.left, b).b);
    }
  }

  // ---- with constants it depends on the order

  function Guarded(s: Symbol): Expr { Bin(And, Sym(s), Sym(YES)) }

  function First(s: Symbol, t: Symbol): Expr { Bin(Or, Guarded(s), Guarded(t)) }

  function Second(s: Symbol, t: Symbol): Expr { Bin(Or, Guarded(s), Sym(t)) }

  function Third(s: Symbol, t: Symbol): Expr { Bin(Or, Sym(s), Sym(t)) }

  /** With y as an operand the answer is not transitive: the third pair needs two reductions at once. */
  lemma NotTransitive(s: Symbol, t: Symbol)
    requires s != t && {s, t} !! {YES, NO}
    ensures ExprEq(First(s, t), Second(s, t)) && ExprEq(Second(s, t), Third(s, t)) && !ExprEq(Third(s, t), First(s, t))
  {
    var a, b, c := First(s, t), Second(s, t), Third(s, t);
    var gs, gt, none := Guarded(s), Guarded(t), Sym(NO);
    EqualsItself(gs);
    Reductions(s, t);
    // gs is struck out, then gt and t are left
    assert EliminateLeaves(Or, gs, gs) == Residue(none, none);
    StruckByFirst(Or, gs, gs, Sym(t));
    KeptLeaf(Or, gt, none, Sym(t));
    assert EliminateLeaves(Or, a, b) == Residue(Bin(Or, none, gt), Bin(Or, none, Sym(t)));
    WithoutNo(gt);
    WithoutNo(Sym(t));
    assert EliminateEq(a, b) == Residue(Sym(t), Sym(t));
    // t is struck out, then gs and s are left
    KeptLeaf(Or, gs, Sym(s), Sym(t));
    assert EliminateLeaves(Or, Sym(t), Sym(s)) == Residue(Sym(t), Sym(s));
    assert EliminateLeaves(Or, Sym(t), Sym(t)) == Residue(none, none);
    assert EliminateLeaves(Or, b, c) == Residue(Bin(Or, gs, none), Bin(Or, Sym(s), none));
    WithoutNo(gs);
    WithoutNo(Sym(s));
    assert EliminateEq(b, c) == Residue(Sym(s), Sym(s));
    // nothing is struck out
    KeptLeaf(Or, Sym(s), gs, gt);
    KeptLeaf(Or, Sym(t), gs, gt);
    assert EliminateLeaves(Or, c, a) == Residue(c, a);
    assert EliminateEq(c, a) == Residue(c, c);
  }

  lemma Reductions(s: Symbol, t: Symbol)
    requires {s, t} !! {YES, NO}
    ensures EliminateYn(Guarded(s)) == Sym(s) && EliminateYn(Guarded(t)) == Sym(t)
    ensures EliminateYn(First(s, t)) == EliminateYn(Second(s, t)) == EliminateYn(Third(s, t)) == Third(s, t)
  {
    assert s !in {YES, NO} && t !in {YES, NO};
    assert EliminateYn(Guarded(s)) == Prune(And, Sym(s), Sym(YES));
    assert EliminateYn(Guarded(t)) == Prune(And, Sym(t), Sym(YES));
  }

  lemma WithoutNo(e: Expr)
    requires EliminateYn(e) != Sym(YES)
    ensures EliminateYn(Bin(Or, Sym(NO), e)) == EliminateYn(Bin(Or, e, Sym(NO))) == EliminateYn(e)
  {
    assert EliminateYn(Bin(Or, Sym(NO), e)) == Prune(Or, Sym(NO), EliminateYn(e));
    assert EliminateYn(Bin(Or, e, Sym(NO))) == Prune(Or, EliminateYn(e), Sym(NO));
  }

  /** An operand that equals neither of two others. */
  lemma KeptLeaf(op: Conn, e: Expr, u: Expr, v: Expr)
    requires !IsBin(e, op) && !IsBin(u, op) && !IsBin(v, op) && !ExprEq(e, u) && !ExprEq(e, v)
    ensures EliminateLeaves(op, e, Bin(op, u, v)) == Residue(e, Bin(op, u, v))
  {
    assert EliminateLeaves(op, e, u) == Residue(e, u) && EliminateLeaves(op, e, v) == Residue(e, v);
  }

  /** So two expressions with the same operands in another order are not recognised as equal. */
  lemma OrderMatters(s: Symbol, t: Symbol)
    requires s != t && {s, t} !! {YES, NO}
    ensures var a, b, c := First(s, t), Second(s, t), Third(s, t);
      var e, e' := Bin(And, a, Bin(And, b, c)), Bin(And, b, Bin(And, c, a));
      Forget(e) == Forget(e') && !ExprEq(e, e')
  {
    var a, b, c := First(s, t), Second(s, t), Third(s, t);
    var e, e' := Bin(And, a, Bin(And, b, c)), Bin(And, b, Bin(And, c, a));
    var y := Sym(YES);
    NotTransitive(s, t);
    GroundLeft(And, y, Bin(And, c, a));
    GroundLeft(And, y, a);
    assert EliminateLeaves(And, a, e') == Residue(y, Bin(And, y, Bin(And, c, a)));
    assert EliminateLeaves(And, b, Bin(And, c, a)) == Residue(y, Bin(And, y, a));
    PassConstants(And, b, y, Bin(And, c, a));
    assert EliminateLeaves(And, c, a) == Residue(c, a);
    PassConstants(And, c, y, a);
    PassConstants(And, c, y, Bin(And, y, a));
    assert EliminateLeaves(And, e, e') == Residue(Bin(And, y, Bin(And, y, c)), Bin(And, y, Bin(And, y, a)));
    Reductions(s, t);
    YesInFront(c);
    YesInFront(a);
    assert EliminateEq(e, e') == Residue(c, c);
    assert Operands(And, e) == Operands(And, e');
  }

  lemma YesInFront(e: Expr)
    ensures EliminateYn(Bin(And, Sym(YES), Bin(And, Sym(YES), e))) == EliminateYn(e)
  {
    var inner := Bin(And, Sym(YES), e);
    assert EliminateYn(inner) == Prune(And, Sym(YES), EliminateYn(e));
  }
}
