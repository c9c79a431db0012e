/** The menu tree: menu_finalize's pointer surgery and the stackless walk of conf_write. */
module MenuTree {

  class Menu {
    var next: Menu?
    var parent: Menu?
    var list: Menu?
    const isSymbol: bool
    /** The node has a prompt with a text. */
    const hasPrompt: bool

    constructor (isSymbol: bool, hasPrompt: bool)
      ensures next == null && parent == null && list == null
    {
      this.isSymbol, this.hasPrompt := isSymbol, hasPrompt;
      next, parent, list := null, null, null;
    }
  }

  /** The nodes of a sibling chain, each with the chain of its children. */
  datatype Forest = Nil | Node(m: Menu, kids: Forest, rest: Forest)

  ghost function Preorder(f: Forest): seq<Menu> {
    if f.Nil? then [] else [f.m] + (Preorder(f.kids) + Preorder(f.rest))
  }

  ghost function Nodes(f: Forest): set<Menu> { set m | m in Preorder(f) }

  ghost predicate NoDuplicates<T>(s: seq<T>) { forall i, j :: 0 <= i < j < |s| ==> s[i] != s[j] }

  /** No node occurs twice. */
  ghost predicate Distinct(f: Forest) { NoDuplicates(Preorder(f)) }

  datatype Pointers = Pointers(next: Menu?, parent: Menu?, list: Menu?)

  /** The pointers of some nodes at the moment. */
  ghost function Snapshot(all: set<Menu>): map<Menu, Pointers>
    reads all
  {
    map m | m in all :: Pointers(m.next, m.parent, m.list)
  }

  /** The pointers h spell out the forest: the chain starts at first, ends before end, and every
      node points to its parent. */
  ghost predicate Spells(h: map<Menu, Pointers>, f: Forest, first: Menu?, parent: Menu?, end: Menu?) {
    match f
    case Nil => first == end
    case Node(m, kids, rest) =>
      && first == m && m in h && h[m].parent == parent
      && Spells(h, kids, h[m].list, m, null)
      && Spells(h, rest, h[m].next, parent, end)
  }

  /** Only the pointers of the forest's own nodes matter. */
  lemma {:induction false} SpellsAgree(h: map<Menu, Pointers>, h': map<Menu, Pointers>, f: Forest,
                                       first: Menu?, parent: Menu?, end: Menu?)
    requires Spells(h, f, first, parent, end)
    requires forall m <- Nodes(f) :: m in h && m in h' && h[m] == h'[m]
    ensures Spells(h', f, first, parent, end)
  {
    if f.Node? {
      SpellsAgree(h, h', f.kids, h[f.m].list, f.m, null);
      SpellsAgree(h, h', f.rest, h[f.m].next, parent, end);
    }
  }

  /** The chain's pointers in the current state, all being any set of nodes around it. */
  ghost predicate Links(all: set<Menu>, f: Forest, first: Menu?, parent: Menu?, end: Menu?)
    reads all
  {
    Nodes(f) <= all && Spells(Snapshot(all), f, first, parent, end)
  }

  ghost function Append(a: Forest, b: Forest): Forest {
    if a.Nil? then b else Node(a.m, a.kids, Append(a.rest, b))
  }

  /** One more node at the end of a chain. */
  ghost function Snoc(a: Forest, m: Menu, kids: Forest): Forest { Append(a, Node(m, kids, Nil)) }

  /** The nodes of a and then those of b are the nodes of f, in order. */
  ghost predicate Partition(f: Forest, a: Forest, b: Forest) {
    Preorder(f) == Preorder(a) + Preorder(b)
  }

  /** g has the nodes of f in the same preorder. */
  ghost predicate Renested(f: Forest, g: Forest) {
    Preorder(g) == Preorder(f)
  }

  lemma {:induction false} PreorderAppend(a: Forest, b: Forest)
    ensures Preorder(Append(a, b)) == Preorder(a) + Preorder(b)
  {
    if a.Node? {
      PreorderAppend(a.rest, b);
      Concat4([a.m], Preorder(a.kids), Preorder(a.rest), Preorder(b));
    }
  }

  lemma Concat4<T>(a: seq<T>, b: seq<T>, c: seq<T>, d: seq<T>)
    ensures a + (b + (c + d)) == (a + (b + c)) + d
  {
  }

  lemma SplitSequence<T>(a: seq<T>, b: seq<T>)
    requires NoDuplicates(a + b)
    ensures NoDuplicates(a) && NoDuplicates(b)
    ensures forall x :: x in a + b <==> x in a || x in b
    ensures forall x :: x in a ==> x !in b
  {
    var s := a + b;
    assert forall i :: 0 <= i < |a| ==> s[i] == a[i];
    assert forall i :: 0 <= i < |b| ==> s[|a| + i] == b[i];
  }

  lemma SplitDistinct(f: Forest, a: Forest, b: Forest)
    requires Partition(f, a, b) && Distinct(f)
    ensures Distinct(a) && Distinct(b)
    ensures forall m: Menu :: m in Nodes(f) <==> m in Nodes(a) || m in Nodes(b)
    ensures forall m: Menu :: m in Nodes(a) ==> m !in Nodes(b)
  {
    SplitSequence(Preorder(a), Preorder(b));
  }

  /** A node, its children and the rest of its chain are separate. */
  lemma NodeDistinct(f: Forest)
    requires f.Node? && Distinct(f)
    ensures Distinct(f.kids) && Distinct(f.rest)
    ensures forall m: Menu :: m in Nodes(f) <==> m == f.m || m in Nodes(f.kids) || m in Nodes(f.rest)
    ensures f.m !in Nodes(f.kids) && f.m !in Nodes(f.rest)
    ensures forall m: Menu :: m in Nodes(f.kids) ==> m !in Nodes(f.rest)
  {
    SplitSequence([f.m], Preorder(f.kids) + Preorder(f.rest));
    SplitSequence(Preorder(f.kids), Preorder(f.rest));
    assert f.m in [f.m];
  }

  lemma {:induction false} AppendAssociative(a: Forest, b: Forest, c: Forest)
    ensures Append(Append(a, b), c) == Append(a, Append(b, c))
  {
    if a.Node? { AppendAssociative(a.rest, b, c); }
  }

  lemma {:induction false} SpellsAppend(h: map<Menu, Pointers>, a: Forest, b: Forest,
                                        first: Menu?, parent: Menu?, mid: Menu?, end: Menu?)
    requires Spells(h, a, first, parent, mid) && Spells(h, b, mid, parent, end)
    ensures Spells(h, Append(a, b), first, parent, end)
  {
    if a.Node? { SpellsAppend(h, a.rest, b, h[a.m].next, parent, mid, end); }
  }

  lemma SpellsSnoc(h: map<Menu, Pointers>, a: Forest, m: Menu, kids: Forest, first: Menu?, parent: Menu?)
    requires Spells(h, a, first, parent, m) && m in h && h[m].parent == parent && Spells(h, kids, h[m].list, m, null)
    ensures Spells(h, Snoc(a, m, kids), first, parent, h[m].next)
  {
    SpellsAppend(h, a, Node(m, kids, Nil), first, parent, m, h[m].next);
  }

  /** Moving the first node of the remaining chain to the end of the finished one. */
  lemma Advance(f: Forest, done: Forest, cur: Forest)
    requires Partition(f, done, cur) && cur.Node?
    ensures Partition(f, Snoc(done, cur.m, cur.kids), cur.rest)
  {
    var one := Node(cur.m, cur.kids, Nil);
    PreorderAppend(done, one);
    assert Preorder(cur.kids) + [] == Preorder(cur.kids);
    Concat4(Preorder(done), [cur.m], Preorder(cur.kids), Preorder(cur.rest));
  }

  // ---- flattening

  /** One assignment to a parent field; before and cur are the chain on its two sides. */
  method SetParent(m: Menu, parent: Menu, ghost before: Forest, ghost first: Menu?, ghost cur: Forest,
                   ghost oldParent: Menu?, ghost all: set<Menu>)
    requires Links(all, before, first, parent, m) && Links(all, cur, m, oldParent, null) && cur.Node?
    requires Distinct(cur) && m !in Nodes(before)
    modifies m
    ensures m.parent == parent && m.next == old(m.next) && m.list == old(m.list)
    ensures Links(all, before, first, parent, m)
    ensures Links(all, cur.kids, m.list, m, null) && Links(all, cur.rest, m.next, oldParent, null)
  {
    NodeDistinct(cur);
    ghost var h := Snapshot(all);
    m.parent := parent;
    ghost var h' := Snapshot(all);
    SpellsAgree(h, h', before, first, parent, m);
    SpellsAgree(h, h', cur.kids, m.list, m, null);
    SpellsAgree(h, h', cur.rest, m.next, oldParent, null);
  }

  /** Sets the parent of every node of a chain; returns the last one. */
  method Reparent(first: Menu, parent: Menu, ghost f: Forest, ghost oldParent: Menu, ghost all: set<Menu>)
    returns (last: Menu, ghost front: Forest, ghost lastKids: Forest)
    requires Links(all, f, first, oldParent, null) && Distinct(f)
    modifies Nodes(f)
    ensures f == Snoc(front, last, lastKids)
    ensures Links(all, front, first, parent, last) && Links(all, lastKids, last.list, last, null)
    ensures last.parent == parent && last.next == null
  {
    front := Nil;
    ghost var cur := f;
    last := first;
    while true
      invariant cur.Node? && Append(front, cur) == f && cur.m == last
      invariant Links(all, front, first, parent, last) && Links(all, cur, last, oldParent, null)
      decreases cur
    {
      PreorderAppend(front, cur);
      SplitDistinct(f, front, cur);
      SetParent(last, parent, front, first, cur, oldParent, all);
      lastKids := cur.kids;
      if last.next == null {
        break;
      }
      SpellsSnoc(Snapshot(all), front, last, cur.kids, first, parent);
      AppendAssociative(front, Node(last, cur.kids, Nil), cur.rest);
      PreorderAppend(Snoc(front, last, cur.kids), cur.rest);
      front := Snoc(front, last, cur.kids);
      last := last.next;
      cur := cur.rest;
    }
  }

  ghost function Flattened(f: Forest): Forest
    requires f.Node?
  {
    Node(f.m, Nil, Append(f.kids, f.rest))
  }

  lemma FlattenedRenests(f: Forest)
    requires f.Node?
    ensures Renested(f, Flattened(f))
  {
    PreorderAppend(f.kids, f.rest);
    assert Preorder(Flattened(f)) == [f.m] + ([] + Preorder(Append(f.kids, f.rest)));
  }

  /** The three assignments that hook the chain of children in between menu and its next. */
  method Splice(menu: Menu, last: Menu, ghost front: Forest, ghost lastKids: Forest, ghost rest: Forest,
                ghost parent: Menu, ghost all: set<Menu>)
    requires menu in all && last in all && menu != last && last.parent == parent
    requires Links(all, front, menu.list, parent, last) && Links(all, lastKids, last.list, last, null)
    requires Links(all, rest, menu.next, parent, null)
    requires menu !in Nodes(front) && menu !in Nodes(lastKids) && menu !in Nodes(rest)
    requires last !in Nodes(front) && last !in Nodes(lastKids) && last !in Nodes(rest)
    modifies menu, last
    ensures menu.list == null && menu.parent == old(menu.parent)
    ensures Spells(Snapshot(all), Append(Snoc(front, last, lastKids), rest), menu.next, parent, null)
  {
    ghost var h := Snapshot(all);
    last.next := menu.next;
    menu.next := menu.list;
    menu.list := null;
    ghost var h1 := Snapshot(all);
    SpellsAgree(h, h1, front, menu.next, parent, last);
    SpellsAgree(h, h1, lastKids, last.list, last, null);
    SpellsAgree(h, h1, rest, last.next, parent, null);
    SpellsSnoc(h1, front, last, lastKids, menu.next, parent);
    SpellsAppend(h1, Snoc(front, last, lastKids), rest, menu.next, parent, last.next, null);
  }

  /** Hoists the children of menu into its own chain, right behind it. */
  method Flatten(menu: Menu, parent: Menu, ghost f: Forest, ghost all: set<Menu>)
    requires f.Node? && Links(all, f, menu, parent, null) && Distinct(f)
    requires menu.list != null
    modifies Nodes(f)
    ensures Links(all, Flattened(f), menu, parent, null)
  {
    NodeDistinct(f);
    ghost var h := Snapshot(all);
    var last: Menu;
    ghost var front, lastKids;
    last, front, lastKids := Reparent(menu.list, parent, f.kids, menu, all);
    ghost var one := Node(last, lastKids, Nil);
    PreorderAppend(front, one);
    SplitDistinct(f.kids, front, one);
    NodeDistinct(one);
    SpellsAgree(h, Snapshot(all), f.rest, menu.next, parent, null);
    Splice(menu, last, front, lastKids, f.rest, parent, all);
    FlattenedRenests(f);
  }

  /** Nowhere in the chain or below it does a node without a prompt text have children. */
  ghost predicate Flat(f: Forest) {
    f.Node? ==> (f.kids.Node? ==> f.m.hasPrompt) && Flat(f.kids) && Flat(f.rest)
  }

  /** As Flat, but only below the nodes of the chain. */
  ghost predicate FlatBelow(f: Forest) {
    f.Node? ==> Flat(f.kids) && FlatBelow(f.rest)
  }

  lemma {:induction false} FlatAppend(a: Forest, b: Forest)
    ensures Flat(Append(a, b)) <==> Flat(a) && Flat(b)
    ensures FlatBelow(Append(a, b)) <==> FlatBelow(a) && FlatBelow(b)
    ensures Flat(a) ==> FlatBelow(a)
  {
    if a.Node? { FlatAppend(a.rest, b); }
  }

  /** The children of a node without a prompt text come right behind it. */
  ghost function Lift(f: Forest): (g: Forest)
    ensures Renested(f, g)
  {
    if f.Nil? then f
    else if f.kids.Nil? || f.m.hasPrompt then Node(f.m, f.kids, Lift(f.rest))
    else
      FlattenedRenests(Node(f.m, f.kids, Lift(f.rest)));
      Node(f.m, Nil, Append(f.kids, Lift(f.rest)))
  }

  lemma {:induction false} LiftAppend(a: Forest, b: Forest)
    ensures Lift(Append(a, b)) == Append(Lift(a), Lift(b))
  {
    if a.Node? {
      LiftAppend(a.rest, b);
      AppendAssociative(a.kids, Lift(a.rest), Lift(b));
    }
  }

  lemma {:induction false} LiftFlat(f: Forest)
    ensures FlatBelow(f) ==> Flat(Lift(f))
    ensures Flat(f) ==> Lift(f) == f
  {
    if f.Node? {
      LiftFlat(f.rest);
      FlatAppend(f.kids, Lift(f.rest));
    }
  }

  /** One step of the loop below. */
  lemma LiftStep(kids: Forest, done: Forest, cur: Forest)
    requires cur.Node? && Append(done, Lift(cur)) == Lift(kids)
    ensures (cur.kids.Nil? || cur.m.hasPrompt) ==> Append(Snoc(done, cur.m, cur.kids), Lift(cur.rest)) == Lift(kids)
    ensures !cur.m.hasPrompt && Flat(cur.kids) ==>
      Append(Snoc(done, cur.m, Nil), Lift(Append(cur.kids, cur.rest))) == Lift(kids)
  {
    AppendAssociative(done, Node(cur.m, cur.kids, Nil), Lift(cur.rest));
    AppendAssociative(done, Node(cur.m, Nil, Nil), Lift(Append(cur.kids, cur.rest)));
    LiftAppend(cur.kids, cur.rest);
    LiftFlat(cur.kids);
  }

  /** The last loop of menu_finalize: children without a prompt text lose their submenu. */
  method FlattenChildren(m: Menu, ghost kids: Forest, ghost all: set<Menu>) returns (ghost done: Forest)
    requires Links(all, kids, m.list, m, null) && Distinct(kids) && m !in Nodes(kids) && FlatBelow(kids)
    modifies Nodes(kids)
    ensures Links(all, done, m.list, m, null) && done == Lift(kids)
  {
    done := Nil;
    var menu := m.list;
    ghost var cur := kids;
    while menu != null
      invariant Links(all, done, m.list, m, menu) && Links(all, cur, menu, m, null)
      invariant Partition(kids, done, cur) && FlatBelow(cur)
      invariant Append(done, Lift(cur)) == Lift(kids)
      decreases |Preorder(cur)|
    {
      SplitDistinct(kids, done, cur);
      LiftStep(kids, done, cur);
      ghost var h := Snapshot(all);
      if menu.list != null && !menu.hasPrompt {
        Flatten(menu, m, cur, all);
        FlattenedRenests(cur);
        FlatAppend(cur.kids, cur.rest);
        cur := Flattened(cur);
        SpellsAgree(h, Snapshot(all), done, m.list, m, menu);
      } else {
        HeadOfChain(h, cur, menu, m);
      }
      SpellsSnoc(Snapshot(all), done, menu, cur.kids, m.list, m);
      Advance(kids, done, cur);
      done := Snoc(done, menu, cur.kids);
      menu := menu.next;
      cur := cur.rest;
    }
    AppendNil(done);
  }

  lemma {:induction false} AppendNil(f: Forest)
    ensures Append(f, Nil) == f
  {
    if f.Node? { AppendNil(f.rest); }
  }

  /** Null pointers at the head of a chain are ends of chains. */
  lemma HeadOfChain(h: map<Menu, Pointers>, cur: Forest, menu: Menu, parent: Menu?)
    requires Spells(h, cur, menu, parent, null)
    ensures cur.Node? && cur.m == menu && menu in h
    ensures Spells(h, cur.kids, h[menu].list, menu, null) && (h[menu].list == null ==> cur.kids.Nil?)
    ensures Spells(h, cur.rest, h[menu].next, parent, null) && (h[menu].next == null ==> cur.rest.Nil?)
  {
  }

  // ---- what menu_finalize makes of a tree

  /** Whether an element that follows a symbol is put into its submenu: the test on their conditions. */
  type Test = (Menu, Menu) -> bool

  datatype Cut = Cut(taken: Forest, left: Forest)

  /** The head of a chain with its children finalized, or, for a symbol without children, with those
      that follow it and depend on it taken over. */
  ghost function Finalized(depends: Test, f: Forest): (g: Forest)
    requires f.Node?
    ensures g.Node? && g.m == f.m && Renested(f, g) && Flat(g.kids)
    ensures !f.m.isSymbol ==> g.rest == f.rest
    decreases |Preorder(f)|, 1
  {
    if f.kids.Node? then
      var kids := Settled(depends, f.kids);
      LiftFlat(kids);
      Node(f.m, Lift(kids), f.rest)
    else if f.m.isSymbol then
      var cut := Take(depends, f.m, f.rest);
      LiftFlat(cut.taken);
      assert Preorder(f.kids) + Preorder(f.rest) == Preorder(f.rest);
      Node(f.m, Lift(cut.taken), cut.left)
    else f
  }

  /** All elements of a chain finalized, one after the other. */
  ghost function Settled(depends: Test, f: Forest): (g: Forest)
    ensures Renested(f, g) && FlatBelow(g)
    decreases |Preorder(f)|, 2
  {
    if f.Nil? then f
    else
      var g := Finalized(depends, f);
      Node(g.m, g.kids, Settled(depends, g.rest))
  }

  /** The elements that go into the submenu of m, finalized, and those behind them. */
  ghost function Take(depends: Test, m: Menu, f: Forest): (cut: Cut)
    ensures Partition(f, cut.taken, cut.left) && FlatBelow(cut.taken)
    decreases |Preorder(f)|, 2
  {
    if f.Nil? || !depends(m, f.m) then Cut(Nil, f)
    else
      var g := Finalized(depends, f);
      var cut := Take(depends, m, g.rest);
      Concat4([g.m], Preorder(g.kids), Preorder(cut.taken), Preorder(cut.left));
      Cut(Node(g.m, g.kids, cut.taken), cut.left)
  }

  // ---- menus keep their elements

  /** Each node that has children, with the first of them. */
  ghost function Heads(f: Forest): set<(Menu, Menu)> {
    if f.Nil? then {}
    else (if f.kids.Node? then {(f.m, f.kids.m)} else {}) + Heads(f.kids) + Heads(f.rest)
  }

  /** Nodes with a prompt text keep their first child. */
  ghost predicate Keeps(f: Forest, g: Forest) {
    forall c <- Heads(f) :: c.0.hasPrompt ==> c in Heads(g)
  }

  lemma {:induction false} HeadsAppend(a: Forest, b: Forest)
    ensures Heads(Append(a, b)) == Heads(a) + Heads(b)
  {
    if a.Node? { HeadsAppend(a.rest, b); }
  }

  lemma {:induction false} LiftKeeps(f: Forest)
    ensures Keeps(f, Lift(f))
  {
    if f.Node? {
      LiftKeeps(f.rest);
      HeadsAppend(f.kids, Lift(f.rest));
    }
  }

  lemma {:induction false} FinalizedKeeps(depends: Test, f: Forest)
    requires f.Node?
    ensures Keeps(f, Finalized(depends, f))
    decreases |Preorder(f)|, 1
  {
    if f.kids.Node? {
      var kids := Settled(depends, f.kids);
      SettledKeeps(depends, f.kids);
      LiftKeeps(kids);
      LiftStarts(kids);
    } else if f.m.isSymbol {
      TakeKeeps(depends, f.m, f.rest);
      LiftKeeps(Take(depends, f.m, f.rest).taken);
    }
  }

  /** The first node of a chain stays the first. */
  lemma LiftStarts(f: Forest)
    requires f.Node?
    ensures Lift(f).Node? && Lift(f).m == f.m
  {
  }

  lemma {:induction false} SettledKeeps(depends: Test, f: Forest)
    ensures Keeps(f, Settled(depends, f)) && (f.Node? ==> Settled(depends, f).Node? && Settled(depends, f).m == f.m)
    decreases |Preorder(f)|, 2
  {
    if f.Node? {
      FinalizedKeeps(depends, f);
      SettledKeeps(depends, Finalized(depends, f).rest);
    }
  }

  lemma {:induction false} TakeKeeps(depends: Test, m: Menu, f: Forest)
    ensures var cut := Take(depends, m, f);
      forall c <- Heads(f) :: c.0.hasPrompt ==> c in Heads(cut.taken) || c in Heads(cut.left)
    decreases |Preorder(f)|, 2
  {
    if f.Node? && depends(m, f.m) {
      FinalizedKeeps(depends, f);
      TakeKeeps(depends, m, Finalized(depends, f).rest);
    }
  }

  /** In the pointers these are the nodes whose list is not null. */
  lemma {:induction false} HeadsAre(h: map<Menu, Pointers>, f: Forest, first: Menu?, parent: Menu?, end: Menu?)
    requires Spells(h, f, first, parent, end)
    ensures forall c <- Heads(f) :: c.0 in h && h[c.0].list == c.1
    ensures forall n <- Preorder(f) :: n in h && (h[n].list != null ==> (n, h[n].list) in Heads(f))
  {
    if f.Node? {
      HeadsAre(h, f.kids, h[f.m].list, f.m, null);
      HeadsAre(h, f.rest, h[f.m].next, parent, end);
    }
  }

  /** Every node of the forest that has a prompt text and children keeps its list pointer. */
  ghost predicate KeepsLists(h: map<Menu, Pointers>, h': map<Menu, Pointers>, f: Forest) {
    forall n <- Preorder(f) ::
      n in h && (n.hasPrompt && h[n].list != null ==> n in h' && h'[n].list == h[n].list)
  }

  lemma ListsKept(h: map<Menu, Pointers>, h': map<Menu, Pointers>, f: Forest, g: Forest, m: Menu, parent: Menu?)
    requires Spells(h, f, m, parent, null) && Spells(h', g, m, parent, null) && Keeps(f, g)
    ensures KeepsLists(h, h', f)
  {
    HeadsAre(h, f, m, parent, null);
    HeadsAre(h', g, m, parent, null);
    forall n <- Preorder(f) | n.hasPrompt && h[n].list != null
      ensures n in h' && h'[n].list == h[n].list
    {
      assert (n, h[n].list) in Heads(g);
    }
  }

  // ---- where a node can stand afterwards

  /** Each node with its parent, p being that of the chain. */
  ghost function Edges(f: Forest, p: Menu): set<(Menu, Menu)> {
    if f.Nil? then {} else {(f.m, p)} + Edges(f.kids, f.m) + Edges(f.rest, p)
  }

  ghost function Chain(f: Forest): set<Menu> {
    if f.Nil? then {} else {f.m} + Chain(f.rest)
  }

  /** The symbols of a chain that have a prompt text, no children, and something behind them that
      depends on them. */
  ghost function Openers(depends: Test, f: Forest): set<Menu> {
    if f.Nil? then {}
    else
      var here := f.m.isSymbol && f.m.hasPrompt && f.kids.Nil? && exists x <- Chain(f.rest) :: depends(f.m, x);
      (if here then {f.m} else {}) + Openers(depends, f.rest)
  }

  /** The parents that each node may have, homes being those of the chain: the children of a node with a
      prompt text stay below it, those of another may stand where that node may, and everything may go
      below a symbol of its chain that opens a submenu. */
  ghost function Allowed(depends: Test, f: Forest, homes: set<Menu>): set<(Menu, Menu)>
    decreases f, 1
  {
    AllowedIn(depends, f, homes + Openers(depends, f))
  }

  ghost function AllowedIn(depends: Test, f: Forest, homes: set<Menu>): set<(Menu, Menu)>
    decreases f, 0
  {
    if f.Nil? then {}
    else
      (set q | q in homes :: (f.m, q)) + Allowed(depends, f.kids, if f.m.hasPrompt then {f.m} else homes)
      + AllowedIn(depends, f.rest, homes)
  }

  lemma {:induction false} EdgesAppend(a: Forest, b: Forest, p: Menu)
    ensures Edges(Append(a, b), p) == Edges(a, p) + Edges(b, p)
  {
    if a.Node? { EdgesAppend(a.rest, b, p); }
  }

  /** The end of a chain. */
  ghost predicate Suffix(g: Forest, f: Forest) { g == f || (f.Node? && Suffix(g, f.rest)) }

  lemma {:induction false} SuffixAllows(depends: Test, g: Forest, f: Forest, homes: set<Menu>)
    requires Suffix(g, f)
    ensures AllowedIn(depends, g, homes) <= AllowedIn(depends, f, homes)
    ensures Openers(depends, g) <= Openers(depends, f) && Chain(g) <= Chain(f)
  {
    if g != f { SuffixAllows(depends, g, f.rest, homes); }
  }

  lemma {:induction false} SuffixTransitive(h: Forest, g: Forest, f: Forest)
    requires Suffix(h, g) && Suffix(g, f)
    ensures Suffix(h, f)
  {
    if g != f { SuffixTransitive(h, g, f.rest); }
  }

  lemma {:induction false} RestIsSuffix(depends: Test, f: Forest)
    requires f.Node?
    ensures Suffix(Finalized(depends, f).rest, f.rest)
    decreases |Preorder(f)|, 1
  {
    if f.kids.Nil? && f.m.isSymbol { LeftIsSuffix(depends, f.m, f.rest); }
  }

  lemma {:induction false} LeftIsSuffix(depends: Test, m: Menu, f: Forest)
    ensures Suffix(Take(depends, m, f).left, f)
    decreases |Preorder(f)|, 2
  {
    if f.Node? && depends(m, f.m) {
      var g := Finalized(depends, f);
      RestIsSuffix(depends, f);
      LeftIsSuffix(depends, m, g.rest);
      SuffixTransitive(Take(depends, m, g.rest).left, g.rest, f.rest);
    }
  }

  /** One finalized element, hoisted if it has no prompt text, below one of the homes. */
  lemma {:induction false} ElementAllowed(depends: Test, f: Forest, homes: set<Menu>, q: Menu)
    requires f.Node? && q in homes && Openers(depends, f) <= homes
    ensures var g := Finalized(depends, f);
      Edges(Lift(Node(g.m, g.kids, Nil)), q) <= AllowedIn(depends, f, homes)
    decreases |Preorder(f)|, 1
  {
    var g := Finalized(depends, f);
    AppendNil(g.kids);
    if f.kids.Node? {
      var inner := if f.m.hasPrompt then {f.m} else homes;
      ChainAllowed(depends, f.kids, inner + Openers(depends, f.kids), if f.m.hasPrompt then f.m else q);
    } else if f.m.isSymbol {
      var cut := Take(depends, f.m, f.rest);
      if cut.taken.Node? {
        assert f.rest.m in Chain(f.rest) && depends(f.m, f.rest.m);
        TakenAllowed(depends, f.m, f.rest, homes, if f.m.hasPrompt then f.m else q);
      }
    }
  }

  lemma {:induction false} ChainAllowed(depends: Test, f: Forest, homes: set<Menu>, q: Menu)
    requires q in homes && Openers(depends, f) <= homes
    ensures Edges(Lift(Settled(depends, f)), q) <= AllowedIn(depends, f, homes)
    decreases |Preorder(f)|, 2
  {
    if f.Node? {
      var g := Finalized(depends, f);
      RestIsSuffix(depends, f);
      SuffixAllows(depends, g.rest, f, homes);
      ElementAllowed(depends, f, homes, q);
      ChainAllowed(depends, g.rest, homes, q);
      LiftAppend(Node(g.m, g.kids, Nil), Settled(depends, g.rest));
      EdgesAppend(Lift(Node(g.m, g.kids, Nil)), Lift(Settled(depends, g.rest)), q);
    }
  }

  lemma {:induction false} TakenAllowed(depends: Test, m: Menu, f: Forest, homes: set<Menu>, q: Menu)
    requires q in homes && Openers(depends, f) <= homes
    ensures Edges(Lift(Take(depends, m, f).taken), q) <= AllowedIn(depends, f, homes)
    decreases |Preorder(f)|, 2
  {
    if f.Node? && depends(m, f.m) {
      var g := Finalized(depends, f);
      var taken := Take(depends, m, g.rest).taken;
      RestIsSuffix(depends, f);
      SuffixAllows(depends, g.rest, f, homes);
      ElementAllowed(depends, f, homes, q);
      TakenAllowed(depends, m, g.rest, homes, q);
      LiftAppend(Node(g.m, g.kids, Nil), taken);
      EdgesAppend(Lift(Node(g.m, g.kids, Nil)), Lift(taken), q);
    }
  }

  /** Below a finalized node every node has a parent that it may have. */
  lemma ParentsAllowed(depends: Test, f: Forest)
    requires f.Node? && f.kids.Node?
    ensures Edges(Finalized(depends, f).kids, f.m) <= Allowed(depends, f.kids, {f.m})
  {
    ChainAllowed(depends, f.kids, {f.m} + Openers(depends, f.kids), f.m);
  }

  /** Each node with its nearest ancestor that has a prompt text, or else that of the chain. */
  ghost function Nearest(f: Forest, p: Menu): set<(Menu, Menu)> {
    if f.Nil? then {} else {(f.m, p)} + Nearest(f.kids, if f.m.hasPrompt then f.m else p) + Nearest(f.rest, p)
  }

  /** Without automatic submenus that is its parent afterwards. */
  lemma {:induction false} NearestIsParent(depends: Test, f: Forest, p: Menu)
    requires forall a, b :: !depends(a, b)
    ensures Edges(Lift(Settled(depends, f)), p) == Nearest(f, p)
    decreases |Preorder(f)|
  {
    if f.Node? {
      var one := Node(f.m, Lift(Settled(depends, f.kids)), Nil);
      var rest := Settled(depends, f.rest);
      NearestIsParent(depends, f.kids, if f.m.hasPrompt then f.m else p);
      NearestIsParent(depends, f.rest, p);
      AppendNil(one.kids);
      assert Take(depends, f.m, f.rest) == Cut(Nil, f.rest);
      assert Settled(depends, f) == Append(one, rest);
      LiftAppend(one, rest);
      EdgesAppend(Lift(one), Lift(rest), p);
    }
  }

  lemma {:induction false} EdgesAre(h: map<Menu, Pointers>, f: Forest, first: Menu?, parent: Menu, end: Menu?)
    requires Spells(h, f, first, parent, end)
    ensures forall n <- Preorder(f) :: n in h && h[n].parent != null && (n, h[n].parent) in Edges(f, parent)
  {
    if f.Node? {
      EdgesAre(h, f.kids, h[f.m].list, f.m, null);
      EdgesAre(h, f.rest, h[f.m].next, parent, end);
    }
  }

  // ---- menu_finalize

  /** The pointer changes of menu_finalize on a node m that heads the chain f. */
  method MenuFinalize(m: Menu, depends: Test, ghost f: Forest, ghost all: set<Menu>) returns (ghost g: Forest)
    requires f.Node? && f.m == m && Links(all, f, m, m.parent, null) && Distinct(f)
    modifies Nodes(f)
    ensures g == Finalized(depends, f) && Links(all, g, m, m.parent, null)
    ensures m.parent == old(m.parent) && (!m.isSymbol ==> m.next == old(m.next))
    ensures KeepsLists(old(Snapshot(all)), Snapshot(all), f)
    decreases |Preorder(f)|, 1
  {
    ghost var h0 := Snapshot(all);
    ghost var kids, rest := Nest(m, depends, f, all);
    NestedDistinct(f, kids, rest);
    ghost var h := Snapshot(all);
    ghost var flat := FlattenChildren(m, kids, all);
    SpellsAgree(h, Snapshot(all), rest, m.next, m.parent, null);
    g := Node(m, flat, rest);
    FinalizedKeeps(depends, f);
    ListsKept(h0, Snapshot(all), f, g, m, m.parent);
  }

  lemma NestedDistinct(f: Forest, kids: Forest, rest: Forest)
    requires f.Node? && Distinct(f) && Renested(f, Node(f.m, kids, rest))
    ensures Distinct(kids) && f.m !in Nodes(kids) && f.m !in Nodes(rest)
    ensures Nodes(kids) <= Nodes(f) && Nodes(kids) !! Nodes(rest)
  {
    var g := Node(f.m, kids, rest);
    NodeDistinct(g);
    assert Nodes(g) == Nodes(f);
  }

  /** The two branches of menu_finalize: a node with children, and a symbol without. */
  method Nest(m: Menu, depends: Test, ghost f: Forest, ghost all: set<Menu>)
    returns (ghost kids: Forest, ghost rest: Forest)
    requires f.Node? && f.m == m && Links(all, f, m, m.parent, null) && Distinct(f)
    modifies Nodes(f)
    ensures m.parent == old(m.parent) && Renested(f, Node(m, kids, rest)) && FlatBelow(kids)
    ensures Links(all, Node(m, kids, rest), m, m.parent, null)
    ensures Finalized(depends, f) == Node(m, Lift(kids), rest)
    ensures !m.isSymbol ==> m.next == old(m.next)
    decreases |Preorder(f)|, 0
  {
    kids, rest := f.kids, f.rest;
    NodeDistinct(f);
    ghost var h := Snapshot(all);
    HeadOfChain(h, f, m, m.parent);
    if m.list != null {
      kids := FinalizeChildren(m, depends, f.kids, all);
      SpellsAgree(h, Snapshot(all), f.rest, m.next, m.parent, null);
    } else if m.isSymbol {
      kids, rest := MakeSubmenu(m, depends, f.rest, all);
      assert [] + Preorder(f.rest) == Preorder(f.rest);
    }
  }

  /** The loop over the children of a node that has some. */
  method FinalizeChildren(m: Menu, depends: Test, ghost kids: Forest, ghost all: set<Menu>)
    returns (ghost done: Forest)
    requires Links(all, kids, m.list, m, null) && Distinct(kids) && m !in Nodes(kids)
    modifies Nodes(kids)
    ensures Links(all, done, m.list, m, null) && done == Settled(depends, kids)
    decreases |Preorder(kids)|, 2
  {
    done := Nil;
    var menu := m.list;
    ghost var cur := kids;
    while menu != null
      invariant Links(all, done, m.list, m, menu) && Links(all, cur, menu, m, null)
      invariant Partition(kids, done, cur)
      invariant Append(done, Settled(depends, cur)) == Settled(depends, kids)
      decreases |Preorder(cur)|
    {
      SplitDistinct(kids, done, cur);
      ghost var h := Snapshot(all);
      SettledStep(depends, done, cur);
      cur := MenuFinalize(menu, depends, cur, all);
      SpellsAgree(h, Snapshot(all), done, m.list, m, menu);
      SpellsSnoc(Snapshot(all), done, menu, cur.kids, m.list, m);
      Advance(kids, done, cur);
      done := Snoc(done, menu, cur.kids);
      menu := menu.next;
      cur := cur.rest;
    }
    AppendNil(done);
  }

  lemma SettledStep(depends: Test, done: Forest, cur: Forest)
    requires cur.Node?
    ensures var g := Finalized(depends, cur);
      Append(done, Settled(depends, cur)) == Append(Snoc(done, g.m, g.kids), Settled(depends, g.rest))
  {
    var g := Finalized(depends, cur);
    AppendAssociative(done, Node(g.m, g.kids, Nil), Settled(depends, g.rest));
  }

  /** Automatic submenu creation: the elements that follow m, as long as they depend on it, become its
      children. */
  method MakeSubmenu(m: Menu, depends: Test, ghost f: Forest, ghost all: set<Menu>)
    returns (ghost done: Forest, ghost cur: Forest)
    requires m in all && m.list == null && Links(all, f, m.next, m.parent, null) && Distinct(f) && m !in Nodes(f)
    modifies Nodes(f), m
    ensures m.parent == old(m.parent)
    ensures Links(all, done, m.list, m, null) && Links(all, cur, m.next, m.parent, null)
    ensures Cut(done, cur) == Take(depends, m, f)
    decreases |Preorder(f)|, 3
  {
    done, cur := Nil, f;
    var last: Menu? := null;
    var menu := m.next;
    ghost var front, lastKids := Nil, Nil;
    while menu != null && depends(m, menu)
      invariant m.parent == old(m.parent) && m.next == old(m.next) && m.list == null
      invariant Links(all, done, m.next, m, menu) && Links(all, cur, menu, m.parent, null)
      invariant Partition(f, done, cur) && TakeGoesOn(depends, m, f, done, cur)
      invariant last == null ==> done == Nil && menu == m.next
      invariant last != null ==> last in Nodes(f) && last.parent == m && last.next == menu
      invariant last != null ==> done == Snoc(front, last, lastKids)
      invariant last != null ==> Links(all, front, m.next, m, last) && Links(all, lastKids, last.list, last, null)
      decreases |Preorder(cur)|
    {
      SplitDistinct(f, done, cur);
      ghost var h := Snapshot(all);
      TakeStep(depends, m, f, done, cur);
      cur := TakeOver(menu, m, depends, cur, m.parent, all);
      SpellsAgree(h, Snapshot(all), done, m.next, m, menu);
      SpellsSnoc(Snapshot(all), done, menu, cur.kids, m.next, m);
      Advance(f, done, cur);
      last, front, lastKids := menu, done, cur.kids;
      done := Snoc(front, last, lastKids);
      menu := menu.next;
      cur := cur.rest;
    }
    AppendNil(done);
    if last != null {
      SplitDistinct(f, done, cur);
      PreorderAppend(front, Node(last, lastKids, Nil));
      SplitDistinct(done, front, Node(last, lastKids, Nil));
      NodeDistinct(Node(last, lastKids, Nil));
      CloseSubmenu(m, last, front, lastKids, cur, all);
    }
  }

  /** Taking from f gives what is done already and what is taken from the rest. */
  ghost predicate TakeGoesOn(depends: Test, m: Menu, f: Forest, done: Forest, cur: Forest) {
    var cut := Take(depends, m, cur);
    Take(depends, m, f) == Cut(Append(done, cut.taken), cut.left)
  }

  lemma TakeStep(depends: Test, m: Menu, f: Forest, done: Forest, cur: Forest)
    requires cur.Node? && depends(m, cur.m) && TakeGoesOn(depends, m, f, done, cur)
    ensures var g := Finalized(depends, cur);
      TakeGoesOn(depends, m, f, Snoc(done, g.m, g.kids), g.rest)
  {
    var g := Finalized(depends, cur);
    AppendAssociative(done, Node(g.m, g.kids, Nil), Take(depends, m, g.rest).taken);
  }

  /** One element of the new submenu: finalized, then given its new parent. */
  method TakeOver(menu: Menu, m: Menu, depends: Test, ghost f: Forest, ghost oldParent: Menu?, ghost all: set<Menu>)
    returns (ghost g: Forest)
    requires Links(all, f, menu, oldParent, null) && Distinct(f)
    modifies Nodes(f)
    ensures g == Finalized(depends, f) && menu.parent == m
    ensures Links(all, g.kids, menu.list, menu, null) && Links(all, g.rest, menu.next, oldParent, null)
    decreases |Preorder(f)|, 2
  {
    g := MenuFinalize(menu, depends, f, all);
    NodeDistinct(g);
    ghost var h := Snapshot(all);
    menu.parent := m;
    SpellsAgree(h, Snapshot(all), g.kids, menu.list, menu, null);
    SpellsAgree(h, Snapshot(all), g.rest, menu.next, oldParent, null);
  }

  /** The chain of elements from m.next to last moves below m. */
  method CloseSubmenu(m: Menu, last: Menu, ghost front: Forest, ghost lastKids: Forest, ghost rest: Forest,
                      ghost all: set<Menu>)
    requires m in all && last in all && m != last && last.parent == m
    requires Links(all, front, m.next, m, last) && Links(all, lastKids, last.list, last, null)
    requires Links(all, rest, last.next, m.parent, null)
    requires m !in Nodes(front) && m !in Nodes(lastKids) && m !in Nodes(rest)
    requires last !in Nodes(front) && last !in Nodes(lastKids) && last !in Nodes(rest)
    modifies m, last
    ensures m.parent == old(m.parent)
    ensures Links(all, Snoc(front, last, lastKids), m.list, m, null) && Links(all, rest, m.next, m.parent, null)
  {
    ghost var h := Snapshot(all);
    m.list := m.next;
    m.next := last.next;
    last.next := null;
    ghost var h1 := Snapshot(all);
    SpellsAgree(h, h1, front, m.list, m, last);
    SpellsAgree(h, h1, lastKids, last.list, last, null);
    SpellsAgree(h, h1, rest, m.next, m.parent, null);
    SpellsSnoc(h1, front, last, lastKids, m.list, m);
    PreorderAppend(front, Node(last, lastKids, Nil));
  }

  // ---- the walk of conf_write

  /** What is still to visit: for every chain the walk has descended from, the elements behind the
      node it went below; the innermost chain comes first. */
  ghost function Pending(stack: seq<Forest>): seq<Menu>
    requires forall i :: 0 <= i < |stack| ==> stack[i].Node?
  {
    if stack == [] then [] else Preorder(stack[0].rest) + Pending(stack[1..])
  }

  /** The nodes the walk is below, up to the root. */
  ghost predicate Ancestors(h: map<Menu, Pointers>, stack: seq<Forest>, parent: Menu?, root: Menu) {
    if stack == [] then parent == root
    else
      && stack[0].Node? && stack[0].m == parent && stack[0].m in h
      && Spells(h, stack[0], parent, h[stack[0].m].parent, null)
      && Ancestors(h, stack[1..], h[stack[0].m].parent, root)
  }

  ghost predicate AllNodes(stack: seq<Forest>) { forall i :: 0 <= i < |stack| ==> stack[i].Node? }

  /** Going down into the children of the head of the current chain. */
  lemma Push(h: map<Menu, Pointers>, cur: Forest, stack: seq<Forest>, parent: Menu?, root: Menu)
    requires Ancestors(h, stack, parent, root) && AllNodes(stack)
    requires cur.Node? && Spells(h, cur, cur.m, parent, null)
    ensures Ancestors(h, [cur] + stack, cur.m, root) && AllNodes([cur] + stack)
    ensures Preorder(cur) + Pending(stack) == [cur.m] + Preorder(cur.kids) + Pending([cur] + stack)
  {
    assert ([cur] + stack)[1..] == stack;
  }

  /** Visiting the head of the current chain leaves its children, or what follows it, or the outer chains. */
  lemma VisitOne(visited: seq<Menu>, cur: Forest, stack: seq<Forest>, goal: seq<Menu>)
    requires cur.Node? && AllNodes(stack) && visited + (Preorder(cur) + Pending(stack)) == goal
    ensures AllNodes([cur] + stack)
    ensures visited + [cur.m] + (Preorder(cur.kids) + Pending([cur] + stack)) == goal
    ensures |Preorder(cur.kids) + Pending([cur] + stack)| < |Preorder(cur) + Pending(stack)|
    ensures cur.kids.Nil? ==> visited + [cur.m] + (Preorder(cur.rest) + Pending(stack)) == goal
    ensures cur.kids.Nil? ==> |Preorder(cur.rest) + Pending(stack)| < |Preorder(cur) + Pending(stack)|
    ensures cur.kids.Nil? && cur.rest.Nil? ==> Preorder(cur.rest) + Pending(stack) == Pending(stack)
  {
    assert ([cur] + stack)[1..] == stack;
    var kids, rest, pending := Preorder(cur.kids), Preorder(cur.rest), Pending(stack);
    Regroup(visited, cur.m, kids, rest, pending);
    assert Preorder(cur) == [cur.m] + (kids + rest) && Pending([cur] + stack) == rest + pending;
    if cur.kids.Nil? {
      assert kids + (rest + pending) == rest + pending;
    }
    if cur.rest.Nil? {
      assert rest + pending == pending;
    }
  }

  lemma Regroup(v: seq<Menu>, m: Menu, kids: seq<Menu>, rest: seq<Menu>, pending: seq<Menu>)
    ensures v + ([m] + (kids + rest) + pending) == v + [m] + (kids + (rest + pending))
    ensures |kids + (rest + pending)| < |[m] + (kids + rest) + pending|
  {
  }

  /** conf_write's loop over the menus: down if possible, else along, else up to the next element
      of the nearest enclosing chain that has one. No stack, no marks. */
  method Walk(root: Menu, ghost f: Forest, ghost all: set<Menu>) returns (visited: seq<Menu>)
    requires Links(all, f, root.list, root, null) && root in all
    requires root.parent == null && root.next == null
    ensures visited == Preorder(f)
  {
    visited := [];
    var menu := root.list;
    ghost var h := Snapshot(all);
    ghost var cur: Forest, parent: Menu?, stack: seq<Forest> := f, root, [];
    while menu != null
      invariant Ancestors(h, stack, parent, root) && AllNodes(stack)
      invariant Spells(h, cur, menu, parent, null)
      invariant menu == null ==> stack == []
      invariant visited + (Preorder(cur) + Pending(stack)) == Preorder(f)
      decreases |Preorder(cur) + Pending(stack)|
    {
      HeadOfChain(h, cur, menu, parent);
      VisitOne(visited, cur, stack, Preorder(f));
      Push(h, cur, stack, parent, root);
      visited := visited + [menu];
      if menu.list != null {
        stack := [cur] + stack;
        parent := menu;
        cur := cur.kids;
        menu := menu.list;
      } else if menu.next != null {
        cur := cur.rest;
        menu := menu.next;
      } else {
        menu, cur, parent, stack := Climb(menu, root, all, parent, stack);
      }
    }
  }

  /** The inner loop of the walk, from a node that has neither children nor a next element. */
  method Climb(from: Menu, root: Menu, ghost all: set<Menu>, ghost parent: Menu?, ghost stack: seq<Forest>)
    returns (menu: Menu?, ghost cur: Forest, ghost parent': Menu?, ghost stack': seq<Forest>)
    requires from.parent == parent && root in all && root.parent == null && root.next == null
    requires Ancestors(Snapshot(all), stack, parent, root) && AllNodes(stack)
    ensures Ancestors(Snapshot(all), stack', parent', root) && AllNodes(stack')
    ensures Spells(Snapshot(all), cur, menu, parent', null) && (menu == null ==> stack' == [])
    ensures Preorder(cur) + Pending(stack') == Pending(stack)
  {
    ghost var h := Snapshot(all);
    menu, parent', stack', cur := from.parent, parent, stack, Nil;
    while menu != null
      invariant menu != null ==> menu == parent'
      invariant menu == null ==> stack' == []
      invariant Ancestors(h, stack', parent', root) && AllNodes(stack')
      invariant Pending(stack') == Pending(stack) && cur == Nil
      decreases |stack'|, menu != null
    {
      if menu.next != null {
        assert stack' != [];
        cur := stack'[0].rest;
        parent' := menu.parent;
        stack' := stack'[1..];
        menu := menu.next;
        return;
      }
      if stack' != [] {
        assert Spells(h, stack'[0].rest, null, menu.parent, null);
        assert stack'[0].rest.Nil?;
        parent' := menu.parent;
        stack' := stack'[1..];
      }
      menu := menu.parent;
    }
  }

  lemma {:induction false} FlatPointers(h: map<Menu, Pointers>, f: Forest, first: Menu?, parent: Menu?, end: Menu?)
    requires Spells(h, f, first, parent, end) && Flat(f)
    ensures forall m <- Preorder(f) :: m in h && (!m.hasPrompt ==> h[m].list == null)
  {
    if f.Node? {
      FlatPointers(h, f.kids, h[f.m].list, f.m, null);
      FlatPointers(h, f.rest, h[f.m].next, parent, end);
    }
  }

  /** Finalizing a menu tree and then writing the configuration visits every node below the root
      exactly once, in the order in which the nodes were created. Of the nodes visited none without a
      prompt text has children any more, those with one keep theirs, and every node stands where it may:
      without automatic submenus below its nearest ancestor with a prompt text. */
  method FinalizeAndWrite(root: Menu, depends: Test, ghost f: Forest, ghost all: set<Menu>) returns (visited: seq<Menu>)
    requires f.Node? && f.m == root && f.rest.Nil? && Links(all, f, root, null, null) && Distinct(f)
    requires root.parent == null && !root.isSymbol
    modifies Nodes(f)
    ensures [root] + visited == Preorder(f) && NoDuplicates(visited)
    ensures forall m <- visited :: !m.hasPrompt ==> m.list == null
    ensures KeepsLists(old(Snapshot(all)), Snapshot(all), f)
    ensures forall m <- visited :: m.parent != null && (m, m.parent) in Allowed(depends, f.kids, {root})
    ensures (forall a, b :: !depends(a, b)) ==>
      forall m <- visited :: m.parent != null && (m, m.parent) in Nearest(f.kids, root)
  {
    assert Spells(Snapshot(all), f.rest, root.next, null, null);
    ghost var g := MenuFinalize(root, depends, f, all);
    NodeDistinct(g);
    FlatPointers(Snapshot(all), g.kids, root.list, root, null);
    EdgesAre(Snapshot(all), g.kids, root.list, root, null);
    if f.kids.Node? {
      ParentsAllowed(depends, f);
      if forall a, b :: !depends(a, b) { NearestIsParent(depends, f.kids, root); }
    }
    visited := Walk(root, g.kids, all);
  }
}
