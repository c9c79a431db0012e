/** expr_eliminate_dups: joining redundant operands in place until nothing changes. */
module ExprDups {
  import opened KconfigExpr
  import opened ExprTransform
  import opened ExprElim
  import opened ExprJoin

  // ---- slots: an expr ** of the source is a path from the root; false is left, true is right

  type Path = seq<bool>

  function Child(e: Expr, right: bool): Expr
    requires e.Bin?
  {
    if right then e.right else e.left
  }

  predicate HasSlot(e: Expr, p: Path) {
    p == [] || (e.Bin? && HasSlot(Child(e, p[0]), p[1..]))
  }

  function At(e: Expr, p: Path): Expr
    requires HasSlot(e, p)
  {
    if p == [] then e else At(Child(e, p[0]), p[1..])
  }

  /** The tree after x has been stored in the slot. */
  function Put(e: Expr, p: Path, x: Expr): (r: Expr)
    requires HasSlot(e, p)
    ensures HasSlot(r, p) && At(r, p) == x
  {
    if p == [] then x
    else if p[0] then Bin(e.op, e.left, Put(e.right, p[1..], x))
    else Bin(e.op, Put(e.left, p[1..], x), e.right)
  }

  lemma {:induction false} PutTwice(e: Expr, p: Path, x: Expr, y: Expr)
    requires HasSlot(e, p)
    ensures Put(Put(e, p, x), p, y) == Put(e, p, y)
  {
    if p != [] { PutTwice(Child(e, p[0]), p[1..], x, y); }
  }

  lemma {:induction false} PutAt(e: Expr, p: Path)
    requires HasSlot(e, p)
    ensures Put(e, p, At(e, p)) == e
  {
    if p != [] { PutAt(Child(e, p[0]), p[1..]); }
  }

  /** A slot below a slot. */
  lemma {:induction false} SlotConcat(e: Expr, p: Path, q: Path, x: Expr)
    requires HasSlot(e, p) && HasSlot(At(e, p), q)
    ensures HasSlot(e, p + q) && At(e, p + q) == At(At(e, p), q)
    ensures Put(e, p + q, x) == Put(e, p, Put(At(e, p), q, x))
  {
    if p == [] {
      assert p + q == q;
    } else {
      SlotConcat(Child(e, p[0]), p[1..], q, x);
      assert (p + q)[0] == p[0] && (p + q)[1..] == p[1..] + q;
    }
  }

  // ---- the operands of one AND or OR: the leaves of its spine

  ghost predicate OnSpine(op: Conn, e: Expr, q: Path)
    ensures OnSpine(op, e, q) ==> HasSlot(e, q)
  {
    q == [] || (IsBin(e, op) && OnSpine(op, Child(e, q[0]), q[1..]))
  }

  ghost predicate SpineLeaf(op: Conn, e: Expr, q: Path) {
    OnSpine(op, e, q) && !IsBin(At(e, q), op)
  }

  ghost function SpineSize(op: Conn, e: Expr): nat {
    if IsBin(e, op) then 1 + SpineSize(op, e.left) + SpineSize(op, e.right) else 1
  }

  ghost predicate SameSpine(op: Conn, a: Expr, b: Expr) {
    IsBin(a, op) == IsBin(b, op)
    && (IsBin(a, op) ==> SameSpine(op, a.left, b.left) && SameSpine(op, a.right, b.right))
  }

  lemma {:induction false} SameSpineSlot(op: Conn, a: Expr, b: Expr, q: Path)
    requires SameSpine(op, a, b) && OnSpine(op, a, q)
    ensures OnSpine(op, b, q) && SameSpine(op, At(a, q), At(b, q))
  {
    if q != [] { SameSpineSlot(op, Child(a, q[0]), Child(b, q[0]), q[1..]); }
  }

  lemma {:induction false} SameSpineSize(op: Conn, a: Expr, b: Expr)
    requires SameSpine(op, a, b)
    ensures SpineSize(op, a) == SpineSize(op, b)
  {
    if IsBin(a, op) { SameSpineSize(op, a.left, b.left); SameSpineSize(op, a.right, b.right); }
  }

  lemma {:induction false} SameSpineTransitive(op: Conn, a: Expr, b: Expr, c: Expr)
    requires SameSpine(op, a, b) && SameSpine(op, b, c)
    ensures SameSpine(op, a, c)
  {
    if IsBin(a, op) {
      SameSpineTransitive(op, a.left, b.left, c.left);
      SameSpineTransitive(op, a.right, b.right, c.right);
    }
  }

  lemma {:induction false} SameSpineReflexive(op: Conn, a: Expr)
    ensures SameSpine(op, a, a)
  {
    if IsBin(a, op) { SameSpineReflexive(op, a.left); SameSpineReflexive(op, a.right); }
  }

  /** The children of a spine node are on the spine. */
  lemma {:induction false} SpineStep(op: Conn, e: Expr, q: Path, right: bool)
    requires OnSpine(op, e, q) && IsBin(At(e, q), op)
    ensures OnSpine(op, e, q + [right]) && At(e, q + [right]) == Child(At(e, q), right)
  {
    if q == [] {
      assert q + [right] == [right];
      assert [right][1..] == [];
    } else {
      SpineStep(op, Child(e, q[0]), q[1..], right);
      assert (q + [right])[1..] == q[1..] + [right];
    }
  }

  lemma {:induction false} SlotSize(e: Expr, q: Path)
    requires HasSlot(e, q)
    ensures Size(At(e, q)) <= Size(e) && (q != [] ==> Size(At(e, q)) < Size(e))
    ensures Constants(At(e, q)) <= Constants(e)
    ensures Normal(e) ==> Normal(At(e, q))
    ensures HasConstant(At(e, q)) ==> HasConstant(e)
  {
    if q != [] { SlotSize(Child(e, q[0]), q[1..]); }
  }

  // ---- what a rewriting of an expression may do

  /** b has the operands of a in the same places, the same value, no more nodes, no new
      constants but y, m, n, and is in normal form if a is. */
  ghost predicate Improves(op: Conn, a: Expr, b: Expr) {
    && SameSpine(op, a, b)
    && Equivalent(a, b)
    && Size(b) <= Size(a)
    && Constants(b) <= Constants(a) + {YES, MOD, NO}
    && (Normal(a) ==> Normal(b))
  }

  lemma ImprovesTransitive(op: Conn, a: Expr, b: Expr, c: Expr)
    requires Improves(op, a, b) && Improves(op, b, c)
    ensures Improves(op, a, c)
  {
    SameSpineTransitive(op, a, b, c);
  }

  /** Replacing one operand by a better one that is still an operand of the same spine. */
  lemma {:induction false} PutImproves(op: Conn, e: Expr, q: Path, x: Expr)
    requires OnSpine(op, e, q) && Improves(op, At(e, q), x)
    ensures Improves(op, e, Put(e, q, x))
  {
    if q != [] {
      PutImproves(op, Child(e, q[0]), q[1..], x);
      SameSpineReflexive(op, Child(e, !q[0]));
    }
  }

  /** Storing x changes the rest of the tree only in its size, constants and normal form. */
  lemma {:induction false} PutOperand(op: Conn, e: Expr, q: Path, x: Expr)
    requires SpineLeaf(op, e, q) && !IsBin(x, op)
    ensures SameSpine(op, e, Put(e, q, x))
    ensures Size(Put(e, q, x)) == Size(e) - Size(At(e, q)) + Size(x)
    ensures Constants(Put(e, q, x)) <= Constants(e) + Constants(x)
    ensures Normal(e) && Normal(x) ==> Normal(Put(e, q, x))
    ensures q != [] && IsYn(x) ==> HasConstant(Put(e, q, x))
  {
    if q != [] {
      PutOperand(op, Child(e, q[0]), q[1..], x);
      SameSpineReflexive(op, Child(e, !q[0]));
    }
  }

  /** The value of a spine as one operand combined with the rest. */
  lemma {:induction false} OperandAndRest(op: Conn, e: Expr, q: Path, x: Expr, env: Env)
    requires WellFormed(env) && OnSpine(op, e, q)
    ensures Eval(Put(e, q, x), env) == Combine(op, Eval(x, env), Eval(Put(e, q, Identity(op)), env))
  {
    if q != [] { OperandAndRest(op, Child(e, q[0]), q[1..], x, env); }
  }

  /** Slots of two different operands do not overlap. */
  lemma {:induction false} OtherOperand(op: Conn, e: Expr, q1: Path, q2: Path, x: Expr)
    requires SpineLeaf(op, e, q1) && SpineLeaf(op, e, q2) && q1 != q2 && !IsBin(x, op)
    ensures q1 != [] && q2 != []
    ensures SpineLeaf(op, Put(e, q1, x), q2) && At(Put(e, q1, x), q2) == At(e, q2)
  {
    if q1[0] == q2[0] {
      assert q1 == [q1[0]] + q1[1..] && q2 == [q2[0]] + q2[1..];
      OtherOperand(op, Child(e, q1[0]), q1[1..], q2[1..], x);
    }
  }

  /** Two operands replaced by two others of the same combined value, wherever they are. */
  lemma {:induction false} PutPairValue(op: Conn, e: Expr, q1: Path, q2: Path, x1: Expr, x2: Expr, env: Env)
    requires SpineLeaf(op, e, q1) && SpineLeaf(op, e, q2) && q1 != q2 && !IsBin(x1, op)
    requires WellFormed(env)
    requires Combine(op, Eval(x1, env), Eval(x2, env)) == Combine(op, Eval(At(e, q1), env), Eval(At(e, q2), env))
    ensures HasSlot(Put(e, q1, x1), q2)
    ensures Eval(Put(Put(e, q1, x1), q2, x2), env) == Eval(e, env)
  {
    OtherOperand(op, e, q1, q2, x1);
    if q1[0] == q2[0] {
      assert q1 == [q1[0]] + q1[1..] && q2 == [q2[0]] + q2[1..];
      PutPairValue(op, Child(e, q1[0]), q1[1..], q2[1..], x1, x2, env);
    } else {
      OppositeSides(op, e, q1, q2, x1, x2, env);
    }
  }

  lemma OppositeSides(op: Conn, e: Expr, q1: Path, q2: Path, x1: Expr, x2: Expr, env: Env)
    requires WellFormed(env) && IsBin(e, op) && OnSpine(op, e, q1) && OnSpine(op, e, q2)
    requires q1 != [] && q2 != [] && q1[0] != q2[0]
    requires Combine(op, Eval(x1, env), Eval(x2, env)) == Combine(op, Eval(At(e, q1), env), Eval(At(e, q2), env))
    ensures HasSlot(Put(e, q1, x1), q2)
    ensures Eval(Put(Put(e, q1, x1), q2, x2), env) == Eval(e, env)
  {
    var c1, c2, id := Child(e, q1[0]), Child(e, q2[0]), Identity(op);
    var y1, y2 := Put(c1, q1[1..], x1), Put(c2, q2[1..], x2);
    OperandAndRest(op, c1, q1[1..], x1, env);
    OperandAndRest(op, c2, q2[1..], x2, env);
    OperandAndRest(op, c1, q1[1..], At(e, q1), env);
    OperandAndRest(op, c2, q2[1..], At(e, q2), env);
    PutAt(c1, q1[1..]);
    PutAt(c2, q2[1..]);
    CombineExchange(op, Eval(At(e, q1), env), Eval(At(e, q2), env), Eval(x1, env), Eval(x2, env),
                    Eval(Put(c1, q1[1..], id), env), Eval(Put(c2, q2[1..], id), env));
    var r := Put(Put(e, q1, x1), q2, x2);
    assert r == if q1[0] then Bin(op, y2, y1) else Bin(op, y1, y2);
    assert Eval(r, env) == Combine(op, Eval(y1, env), Eval(y2, env));
    assert Eval(e, env) == Combine(op, Eval(c1, env), Eval(c2, env));
  }

  lemma CombineExchange(op: Conn, a1: Tri, a2: Tri, x1: Tri, x2: Tri, r1: Tri, r2: Tri)
    requires Combine(op, a1, a2) == Combine(op, x1, x2)
    ensures Combine(op, Combine(op, a1, r1), Combine(op, a2, r2))
         == Combine(op, Combine(op, x1, r1), Combine(op, x2, r2))
  {
  }

  /** One join: the first operand becomes the identity, the second the joined expression. */
  lemma JoinImproves(op: Conn, e: Expr, q1: Path, q2: Path)
    requires SpineLeaf(op, e, q1) && SpineLeaf(op, e, q2) && q1 != q2 && Separated(Constants(e))
    requires JoinOperands(op, At(e, q1), At(e, q2)).Join?
    ensures HasSlot(Put(e, q1, Identity(op)), q2)
    ensures var t := JoinOperands(op, At(e, q1), At(e, q2)).e;
            var r := Put(Put(e, q1, Identity(op)), q2, t);
            Improves(op, e, r) && HasConstant(r)
  {
    var e1, e2 := At(e, q1), At(e, q2);
    var t := JoinOperands(op, e1, e2).e;
    JoinShape(op, e1, e2);
    PairShape(op, e, q1, q2, t);
    PairConstant(op, e, q1, q2, t);
    SlotSize(e, q1);
    SlotSize(e, q2);
    SeparatedSubset(Constants(e1) + Constants(e2), Constants(e));
    forall env: Env | WellFormed(env)
      ensures Eval(e, env) == Eval(Put(Put(e, q1, Identity(op)), q2, t), env)
    {
      JoinExact(op, e1, e2, env);
      assert Eval(Identity(op), env) == if op == And then Y else N;
      PutPairValue(op, e, q1, q2, Identity(op), t, env);
    }
  }

  /** What storing the identity and another operand does to the tree besides its value. */
  lemma PairShape(op: Conn, e: Expr, q1: Path, q2: Path, t: Expr)
    requires SpineLeaf(op, e, q1) && SpineLeaf(op, e, q2) && q1 != q2 && !IsBin(t, op)
    ensures HasSlot(Put(e, q1, Identity(op)), q2)
    ensures var r := Put(Put(e, q1, Identity(op)), q2, t);
      && SameSpine(op, e, r)
      && Size(r) == Size(e) - Size(At(e, q1)) - Size(At(e, q2)) + 1 + Size(t)
      && Constants(r) <= Constants(e) + Constants(t)
      && (Normal(e) && Normal(t) ==> Normal(r))
  {
    var mid := Put(e, q1, Identity(op));
    OtherOperand(op, e, q1, q2, Identity(op));
    var r := Put(mid, q2, t);
    PutOperand(op, e, q1, Identity(op));
    PutOperand(op, mid, q2, t);
    SameSpineTransitive(op, e, mid, r);
  }

  /** The identity stored first is still there. */
  lemma PairConstant(op: Conn, e: Expr, q1: Path, q2: Path, t: Expr)
    requires SpineLeaf(op, e, q1) && SpineLeaf(op, e, q2) && q1 != q2 && !IsBin(t, op)
    ensures HasSlot(Put(e, q1, Identity(op)), q2)
    ensures HasConstant(Put(Put(e, q1, Identity(op)), q2, t))
  {
    var mid := Put(e, q1, Identity(op));
    OtherOperand(op, e, q1, q2, Identity(op));
    var r := Put(mid, q2, t);
    PutOperand(op, e, q1, Identity(op));
    SameSpineSlot(op, e, mid, q1);
    OtherOperand(op, mid, q2, q1, t);
    PutAt(r, q1);
    PutOperand(op, r, q1, Identity(op));
  }

  // ---- the result: no two operands can be joined any more

  /** At no level of AND and OR can two different operands be joined. */
  ghost predicate DupFree(e: Expr)
    decreases Size(e)
  {
    e.Bin? ==>
      && (forall s1: Path, s2: Path :: SpineLeaf(e.op, e, s1) && SpineLeaf(e.op, e, s2) && s1 != s2 ==>
            JoinOperands(e.op, At(e, s1), At(e, s2)).NoJoin?)
      && (forall s: Path :: SpineLeaf(e.op, e, s) ==> (SlotSize(e, s); s == [] || DupFree(At(e, s))))
  }

  /** The same without the program's own tests: at every level of AND and OR two different operands are
      apart. */
  ghost predicate Irredundant(e: Expr)
    decreases Size(e)
  {
    e.Bin? ==>
      && (forall s1: Path, s2: Path :: SpineLeaf(e.op, e, s1) && SpineLeaf(e.op, e, s2) && s1 != s2 ==>
            Apart(e.op, At(e, s1), At(e, s2)))
      && (forall s: Path :: SpineLeaf(e.op, e, s) ==> (SlotSize(e, s); s == [] || Irredundant(At(e, s))))
  }

  lemma {:induction false} DupFreeMeans(e: Expr)
    requires DupFree(e)
    ensures Irredundant(e)
    decreases Size(e)
  {
    if e.Bin? {
      forall s1: Path, s2: Path | SpineLeaf(e.op, e, s1) && SpineLeaf(e.op, e, s2) && s1 != s2
        ensures Apart(e.op, At(e, s1), At(e, s2))
      {
        NotJoinedApart(e.op, At(e, s1), At(e, s2));
      }
      forall s: Path | SpineLeaf(e.op, e, s) && s != []
        ensures Irredundant(At(e, s))
      {
        SlotSize(e, s);
        DupFreeMeans(At(e, s));
      }
    }
  }

  /** No operand below q1 joins one below q2, and those below q1 are free of duplicates themselves. */
  ghost predicate NoJoins(op: Conn, e: Expr, q1: Path, q2: Path) {
    forall s1: Path, s2: Path ::
      q1 <= s1 && q2 <= s2 && SpineLeaf(op, e, s1) && SpineLeaf(op, e, s2) && s1 != s2 ==>
        JoinOperands(op, At(e, s1), At(e, s2)).NoJoin? && DupFree(At(e, s1))
  }

  lemma {:induction false} AnotherOperand(op: Conn, e: Expr, s: Path) returns (t: Path)
    requires IsBin(e, op) && SpineLeaf(op, e, s)
    ensures SpineLeaf(op, e, t) && t != s
  {
    var rest := FirstOperand(op, Child(e, !s[0]));
    t := [!s[0]] + rest;
    assert t[1..] == rest;
  }

  lemma {:induction false} FirstOperand(op: Conn, e: Expr) returns (t: Path)
    ensures SpineLeaf(op, e, t)
  {
    if IsBin(e, op) {
      var rest := FirstOperand(op, e.left);
      t := [false] + rest;
      assert t[1..] == rest;
    } else {
      t := [];
    }
  }

  lemma NoJoinsMeansDupFree(e: Expr)
    requires e.Bin? && NoJoins(e.op, e, [], [])
    ensures DupFree(e)
  {
    forall s: Path | SpineLeaf(e.op, e, s)
      ensures DupFree(At(e, s))
    {
      var t := AnotherOperand(e.op, e, s);
      assert [] <= s && [] <= t;
    }
    forall s1: Path, s2: Path | SpineLeaf(e.op, e, s1) && SpineLeaf(e.op, e, s2) && s1 != s2
      ensures JoinOperands(e.op, At(e, s1), At(e, s2)).NoJoin?
    {
      assert [] <= s1 && [] <= s2;
    }
  }

  /** A leaf below a spine node lies below one of its children. */
  lemma NextStep(op: Conn, e: Expr, q: Path, s: Path)
    requires OnSpine(op, e, q) && IsBin(At(e, q), op) && q <= s && SpineLeaf(op, e, s)
    ensures q + [false] <= s || q + [true] <= s
  {
    assert s != q;
    var b := s[|q|];
    assert q + [b] <= s;
    if b { assert q + [true] <= s; } else { assert q + [false] <= s; }
  }

  lemma NoJoinsSplit(op: Conn, e: Expr, q1: Path, q2: Path)
    requires OnSpine(op, e, q1) && OnSpine(op, e, q2)
    requires (IsBin(At(e, q1), op) && NoJoins(op, e, q1 + [false], q2) && NoJoins(op, e, q1 + [true], q2))
          || (IsBin(At(e, q2), op) && NoJoins(op, e, q1, q2 + [false]) && NoJoins(op, e, q1, q2 + [true]))
    ensures NoJoins(op, e, q1, q2)
  {
    forall s1: Path, s2: Path |
      q1 <= s1 && q2 <= s2 && SpineLeaf(op, e, s1) && SpineLeaf(op, e, s2) && s1 != s2
      ensures JoinOperands(op, At(e, s1), At(e, s2)).NoJoin? && DupFree(At(e, s1))
    {
      if IsBin(At(e, q1), op) { NextStep(op, e, q1, s1); }
      if IsBin(At(e, q2), op) { NextStep(op, e, q2, s2); }
    }
  }

  lemma LeafIsLast(op: Conn, e: Expr, q: Path, s: Path)
    requires SpineLeaf(op, e, q) && q <= s && OnSpine(op, e, s)
    ensures s == q
  {
    if q == [] {
    } else {
      LeafIsLast(op, Child(e, q[0]), q[1..], s[1..]);
      assert s == [s[0]] + s[1..] && q == [q[0]] + q[1..];
    }
  }

  // ---- steps on the whole tree

  /** The tree r1 is r0 with the expression in slot base improved. */
  ghost predicate Step(op: Conn, r0: Expr, r1: Expr, base: Path) {
    && HasSlot(r0, base) && HasSlot(r1, base)
    && r1 == Put(r0, base, At(r1, base))
    && Improves(op, At(r0, base), At(r1, base))
  }

  lemma SlotBelow(r: Expr, base: Path, q: Path)
    requires HasSlot(r, base) && HasSlot(At(r, base), q)
    ensures HasSlot(r, base + q) && At(r, base + q) == At(At(r, base), q)
  {
    SlotConcat(r, base, q, r);
  }

  /** The slots of the two operands of a spine node. */
  lemma Descend(op: Conn, e: Expr, base: Path, q: Path)
    requires OnSpine(op, e, q) && IsBin(At(e, q), op)
    ensures base + q + [false] == base + (q + [false]) && base + q + [true] == base + (q + [true])
    ensures OnSpine(op, e, q + [false]) && OnSpine(op, e, q + [true])
    ensures SpineSize(op, At(e, q + [false])) < SpineSize(op, At(e, q))
    ensures SpineSize(op, At(e, q + [true])) < SpineSize(op, At(e, q))
  {
    SpineStep(op, e, q, false);
    SpineStep(op, e, q, true);
  }

  lemma StepNothing(op: Conn, r: Expr, base: Path)
    requires HasSlot(r, base)
    ensures Step(op, r, r, base)
  {
    PutAt(r, base);
    SameSpineReflexive(op, At(r, base));
  }

  lemma StepTransitive(op: Conn, r0: Expr, r1: Expr, r2: Expr, base: Path)
    requires Step(op, r0, r1, base) && Step(op, r1, r2, base)
    ensures Step(op, r0, r2, base)
  {
    PutTwice(r0, base, At(r1, base), At(r2, base));
    ImprovesTransitive(op, At(r0, base), At(r1, base), At(r2, base));
  }

  /** Slots on the spine keep their place, and the measure of the recursion its value. */
  lemma StepKeepsSlot(op: Conn, r0: Expr, r1: Expr, base: Path, q: Path)
    requires Step(op, r0, r1, base) && OnSpine(op, At(r0, base), q) && Separated(Constants(At(r0, base)))
    ensures OnSpine(op, At(r1, base), q) && Separated(Constants(At(r1, base)))
    ensures IsBin(At(At(r0, base), q), op) == IsBin(At(At(r1, base), q), op)
    ensures SpineSize(op, At(At(r0, base), q)) == SpineSize(op, At(At(r1, base), q))
  {
    SameSpineSlot(op, At(r0, base), At(r1, base), q);
    SameSpineSize(op, At(At(r0, base), q), At(At(r1, base), q));
    SeparatedSubset(Constants(At(r1, base)), Constants(At(r0, base)));
  }

  /** Improving an operand improves the expression it is an operand of. */
  lemma StepBelow(op: Conn, inner: Conn, r0: Expr, r1: Expr, base: Path, q: Path)
    requires HasSlot(r0, base) && SpineLeaf(op, At(r0, base), q)
    requires HasSlot(r0, base + q) && Step(inner, r0, r1, base + q) && IsBin(At(r0, base + q), inner)
    ensures Step(op, r0, r1, base)
    ensures HasConstant(At(r1, base + q)) ==> HasConstant(At(r1, base))
  {
    var e, x := At(r0, base), At(r1, base + q);
    SlotConcat(r0, base, q, x);
    SlotConcat(r1, base, q, x);
    assert Improves(op, At(e, q), x);
    PutImproves(op, e, q, x);
    PutTwice(r0, base, e, Put(e, q, x));
    SlotSize(At(r1, base), q);
  }

  lemma StepJoin(op: Conn, r: Expr, base: Path, q1: Path, q2: Path)
    requires HasSlot(r, base) && SpineLeaf(op, At(r, base), q1) && SpineLeaf(op, At(r, base), q2) && q1 != q2
    requires Separated(Constants(At(r, base)))
    requires JoinOperands(op, At(At(r, base), q1), At(At(r, base), q2)).Join?
    ensures HasSlot(r, base + q1) && HasSlot(Put(r, base + q1, Identity(op)), base + q2)
    ensures var t := JoinOperands(op, At(At(r, base), q1), At(At(r, base), q2)).e;
            var r' := Put(Put(r, base + q1, Identity(op)), base + q2, t);
            Step(op, r, r', base) && HasConstant(At(r', base))
  {
    var e := At(r, base);
    var t := JoinOperands(op, At(e, q1), At(e, q2)).e;
    var id := Identity(op);
    JoinImproves(op, e, q1, q2);
    SlotConcat(r, base, q1, id);
    SlotConcat(Put(r, base, Put(e, q1, id)), base, q2, t);
    PutTwice(r, base, Put(e, q1, id), Put(Put(e, q1, id), q2, t));
  }

  lemma NoJoinsAtLeaves(op: Conn, e: Expr, q1: Path, q2: Path)
    requires SpineLeaf(op, e, q1) && SpineLeaf(op, e, q2)
    requires q1 != q2 ==> JoinOperands(op, At(e, q1), At(e, q2)).NoJoin? && DupFree(At(e, q1))
    ensures NoJoins(op, e, q1, q2)
  {
    forall s1: Path, s2: Path |
      q1 <= s1 && q2 <= s2 && SpineLeaf(op, e, s1) && SpineLeaf(op, e, s2) && s1 != s2
      ensures JoinOperands(op, At(e, s1), At(e, s2)).NoJoin? && DupFree(At(e, s1))
    {
      LeafIsLast(op, e, q1, s1);
      LeafIsLast(op, e, q2, s2);
    }
  }

  // ---- the program

  class Rewriter {
    /** The tree that the slots point into. */
    var root: Expr
    /** The global trans_count. */
    var transCount: nat

    constructor (e: Expr, count: nat)
      ensures root == e && transCount == count
    {
      root, transCount := e, count;
    }

    /** expr_eliminate_dups1 on the slots p1 and p2, which may be the same or overlap. They lie at
        q1 and q2 on the spine of the expression in slot base. */
    method EliminateDups1(op: Conn, p1: Path, p2: Path, ghost base: Path, ghost q1: Path, ghost q2: Path)
      requires HasSlot(root, base) && p1 == base + q1 && p2 == base + q2
      requires OnSpine(op, At(root, base), q1) && OnSpine(op, At(root, base), q2)
      requires Separated(Constants(At(root, base)))
      modifies this
      ensures Step(op, old(root), root, base)
      ensures transCount >= old(transCount)
      ensures transCount > old(transCount) ==> HasConstant(At(root, base))
      ensures transCount == old(transCount) ==> root == old(root) && NoJoins(op, At(root, base), q1, q2)
      decreases Size(At(root, base)), SpineSize(op, At(At(root, base), q1)) + SpineSize(op, At(At(root, base), q2)), 1
    {
      SlotBelow(root, base, q1);
      SlotBelow(root, base, q2);
      if IsBin(At(root, p1), op) {
        OperandsOfFirst(op, p1, p2, base, q1, q2);
      } else if IsBin(At(root, p2), op) {
        OperandsOfSecond(op, p1, p2, base, q1, q2);
      } else if p1 == p2 {
        assert q1 == p1[|base|..] && q2 == p2[|base|..];
        StepNothing(op, root, base);
        NoJoinsAtLeaves(op, At(root, base), q1, q2);
      } else {
        EliminateDupsAtLeaves(op, p1, p2, base, q1, q2);
      }
    }

    /** Both operands of p1, one after the other, against p2. */
    method OperandsOfFirst(op: Conn, p1: Path, p2: Path, ghost base: Path, ghost q1: Path, ghost q2: Path)
      requires HasSlot(root, base) && p1 == base + q1 && p2 == base + q2
      requires OnSpine(op, At(root, base), q1) && OnSpine(op, At(root, base), q2) && IsBin(At(At(root, base), q1), op)
      requires Separated(Constants(At(root, base)))
      modifies this
      ensures Step(op, old(root), root, base)
      ensures transCount >= old(transCount)
      ensures transCount > old(transCount) ==> HasConstant(At(root, base))
      ensures transCount == old(transCount) ==> root == old(root) && NoJoins(op, At(root, base), q1, q2)
      decreases Size(At(root, base)), SpineSize(op, At(At(root, base), q1)) + SpineSize(op, At(At(root, base), q2)), 0
    {
      ghost var e := At(root, base);
      Descend(op, e, base, q1);
      EliminateDups1(op, p1 + [false], p2, base, q1 + [false], q2);
      ghost var mid := root;
      StepKeepsSlot(op, old(root), mid, base, q1 + [true]);
      StepKeepsSlot(op, old(root), mid, base, q2);
      EliminateDups1(op, p1 + [true], p2, base, q1 + [true], q2);
      StepTransitive(op, old(root), mid, root, base);
      if transCount == old(transCount) { NoJoinsSplit(op, e, q1, q2); }
    }

    /** p1 against both operands of p2. */
    method OperandsOfSecond(op: Conn, p1: Path, p2: Path, ghost base: Path, ghost q1: Path, ghost q2: Path)
      requires HasSlot(root, base) && p1 == base + q1 && p2 == base + q2
      requires OnSpine(op, At(root, base), q1) && OnSpine(op, At(root, base), q2) && IsBin(At(At(root, base), q2), op)
      requires Separated(Constants(At(root, base)))
      modifies this
      ensures Step(op, old(root), root, base)
      ensures transCount >= old(transCount)
      ensures transCount > old(transCount) ==> HasConstant(At(root, base))
      ensures transCount == old(transCount) ==> root == old(root) && NoJoins(op, At(root, base), q1, q2)
      decreases Size(At(root, base)), SpineSize(op, At(At(root, base), q1)) + SpineSize(op, At(At(root, base), q2)), 0
    {
      ghost var e := At(root, base);
      Descend(op, e, base, q2);
      EliminateDups1(op, p1, p2 + [false], base, q1, q2 + [false]);
      ghost var mid := root;
      StepKeepsSlot(op, old(root), mid, base, q1);
      StepKeepsSlot(op, old(root), mid, base, q2 + [true]);
      EliminateDups1(op, p1, p2 + [true], base, q1, q2 + [true]);
      StepTransitive(op, old(root), mid, root, base);
      if transCount == old(transCount) { NoJoinsSplit(op, e, q1, q2); }
    }

    /** The end of expr_eliminate_dups1: two different operands. */
    method EliminateDupsAtLeaves(op: Conn, p1: Path, p2: Path, ghost base: Path, ghost q1: Path, ghost q2: Path)
      requires HasSlot(root, base) && p1 == base + q1 && p2 == base + q2 && p1 != p2
      requires SpineLeaf(op, At(root, base), q1) && SpineLeaf(op, At(root, base), q2)
      requires Separated(Constants(At(root, base)))
      modifies this
      ensures Step(op, old(root), root, base)
      ensures transCount >= old(transCount)
      ensures transCount > old(transCount) ==> HasConstant(At(root, base))
      ensures transCount == old(transCount) ==> root == old(root) && NoJoins(op, At(root, base), q1, q2)
      decreases Size(At(root, base)), 0, 1
    {
      ghost var e := At(root, base);
      OtherOperand(op, e, q1, q2, Identity(op));
      EliminateDupsInside(op, p1, base, q1);
      StepKeepsSlot(op, old(root), root, base, q1);
      StepKeepsSlot(op, old(root), root, base, q2);
      ghost var mid := root;
      SlotBelow(root, base, q1);
      SlotBelow(root, base, q2);
      var t := JoinOperands(op, At(root, p1), At(root, p2));
      if t.Join? {
        StepJoin(op, root, base, q1, q2);
        root := Put(root, p1, Identity(op));
        root := Put(root, p2, t.e);
        transCount := transCount + 1;
        StepTransitive(op, old(root), mid, root, base);
      } else if transCount == old(transCount) {
        NoJoinsAtLeaves(op, e, q1, q2);
      }
    }

    /** The self-aliased call: the first operand, if it is an AND or OR of the other kind, against itself. */
    method EliminateDupsInside(op: Conn, p1: Path, ghost base: Path, ghost q1: Path)
      requires HasSlot(root, base) && p1 == base + q1 && q1 != []
      requires SpineLeaf(op, At(root, base), q1)
      requires Separated(Constants(At(root, base)))
      modifies this
      ensures Step(op, old(root), root, base)
      ensures transCount >= old(transCount)
      ensures transCount > old(transCount) ==> HasConstant(At(root, base))
      ensures transCount == old(transCount) ==> root == old(root) && DupFree(At(At(root, base), q1))
      decreases Size(At(root, base)), 0, 0
    {
      ghost var e := At(root, base);
      SlotBelow(root, base, q1);
      SlotSize(e, q1);
      var e1 := At(root, p1);
      if e1.Bin? {
        assert p1 == p1 + [];
        SeparatedSubset(Constants(e1), Constants(e));
        EliminateDups1(e1.op, p1, p1, p1, [], []);
        StepBelow(op, e1.op, old(root), root, base, q1);
        if transCount == old(transCount) { NoJoinsMeansDupFree(e1); }
      } else {
        StepNothing(op, root, base);
      }
    }

    /** expr_eliminate_dups: passes of joining and removing constants until a pass changes nothing. */
    method EliminateDups()
      requires Separated(Constants(root))
      modifies this
      ensures Equivalent(old(root), root)
      ensures DupFree(root) && Irredundant(root)
      ensures !HasConstant(old(root)) ==> !HasConstant(root)
      ensures transCount == old(transCount)
      ensures Size(root) <= old(Size(root))
      ensures Normal(old(root)) ==> Normal(root)
      ensures Constants(root) <= Constants(old(root)) + {YES, MOD, NO}
    {
      var oldCount := transCount;
      ghost var start := root;
      while true
        invariant Equivalent(start, root) && Size(root) <= Size(start)
        invariant Normal(start) ==> Normal(root)
        invariant !HasConstant(start) ==> !HasConstant(root)
        invariant Constants(root) <= Constants(start) + {YES, MOD, NO}
        decreases Size(root)
      {
        transCount := 0;
        SeparatedSubset(Constants(root), Constants(start));
        ghost var before := root;
        if root.Bin? {
          EliminateDups1(root.op, [], [], [], [], []);
        }
        if transCount == 0 {
          if root.Bin? { NoJoinsMeansDupFree(root); }
          DupFreeMeans(root);
          break;
        }
        EliminateYnShrinks(root);
        EliminateYnKeeps(root);
        root := EliminateYn(root);
      }
      transCount := oldCount;
    }
  }

  lemma {:induction false} EliminateYnKeeps(e: Expr)
    ensures Equivalent(e, EliminateYn(e))
    ensures Normal(e) ==> Normal(EliminateYn(e))
    ensures Constants(EliminateYn(e)) <= Constants(e)
  {
    forall env: Env | WellFormed(env)
      ensures Eval(e, env) == Eval(EliminateYn(e), env)
    {
      EliminateYnPreservesValue(e, env);
    }
    match e
    case Bin(_, a, b) => EliminateYnKeeps(a); EliminateYnKeeps(b);
    case _ =>
  }
}
