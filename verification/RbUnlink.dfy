/**
 Taking a node out of the tree, and putting another in its place: the first half of
 `ss_rbremove`, and `ss_rbreplace`.
 */
module RbUnlink {
  import opened RbShape
  import opened RbTree
  import opened RbRemove

  // ---------------------------------------------------------------- contexts inside contexts

  /** The context of a place inside the subtree that fills the gap of `base`. */
  ghost function Compose(f: Context, base: Context): Context {
    if f.Top? then base else Down(f.side, f.node, f.color, f.sibling, Compose(f.up, base))
  }

  lemma {:induction false} ZippedCompose(mem: Memory, root: Node, f: Context, base: Context, s: Shape)
    ensures Zipped(mem, root, Compose(f, base), s) <==> Zipped(mem, root, base, Plug(f, s))
    decreases f
  {
    if f.Down? {
      ZipUp(mem, root, Compose(f, base), s);
      assert Fill(Compose(f, base), s) == Fill(f, s);
      ZippedCompose(mem, root, f.up, base, Fill(f, s));
    }
  }

  lemma {:induction false} PlugCompose(f: Context, base: Context, s: Shape)
    ensures Plug(Compose(f, base), s) == Plug(base, Plug(f, s))
    decreases f
  {
    if f.Down? {
      assert Fill(Compose(f, base), s) == Fill(f, s);
      PlugCompose(f.up, base, Fill(f, s));
    }
  }

  /** Balance does not depend on which node sits in a place. */
  lemma {:induction false} ComposeBalanced(f: Context, a: Context, b: Context, h: int)
    requires a.Down? && b.Down? && b.side == a.side && b.color == a.color && b.sibling == a.sibling && b.up == a.up
    requires BalancedContext(Compose(f, a), h)
    ensures BalancedContext(Compose(f, b), h)
    decreases f
  {
    if f.Down? {
      ComposeBalanced(f.up, a, b, h + Rank(f.color));
    }
  }

  /** The path to the first node of a subtree turns left everywhere. */
  ghost predicate AllLeft(f: Context) {
    f.Down? ==> f.side.L? && AllLeft(f.up)
  }

  lemma {:induction false} AllLeftOrder(f: Context)
    requires AllLeft(f)
    ensures Before(f) == []
    decreases f
  {
    if f.Down? {
      AllLeftOrder(f.up);
    }
  }

  lemma ZippedElsewhere(a: Memory, b: Memory, root: Node, c: Context, s: Shape, touched: set<Node>)
    requires Zipped(a, root, c, s) && Changes(a, b, touched) && touched !! ContextNodes(c) && touched !! Nodes(s)
    ensures Zipped(b, root, c, s)
  {
    Kept(a, b, s, ParentOf(c), touched);
    KeptContext(a, b, c, RootOf(s), touched);
  }

  // ---------------------------------------------------------------- closing a gap

  /** A node with at most one child leaves; the child takes its place. */
  lemma Closed(m: Memory, root: Node, e: Context, s: Shape, y: Shape, mem: Memory)
    requires Zipped(m, root, e, s) && s.Branch?
    requires (s.left.Leaf? && y == s.right) || (s.right.Leaf? && y == s.left)
    requires mem == WithParent(WithChild(m, ParentOf(e), SideIn(e), RootOf(y)), RootOf(y), ParentOf(e))
    ensures Zipped(mem, TopOf(e, RootOf(y)), e, y)
  {
    var touched := ParentSet(e) + RootSet(y);
    Children(m, s, ParentOf(e));
    var m1 := WithChild(m, ParentOf(e), SideIn(e), RootOf(y));
    assert LinkedContext(m1, e, RootOf(y)) by {
      Refilled(m, m1, e, s.node, RootOf(y));
    }
    assert LinkedContext(mem, e, RootOf(y)) by {
      KeptContext(m1, mem, e, RootOf(y), RootSet(y));
    }
    Rehung(m, mem, y, s.node, ParentOf(e), touched);
  }

  // ---------------------------------------------------------------- taking over a place

  /** The memory once `x` sits where `o` was: the neighbours point at `x`, whose cell is a copy. */
  function Takeover(m: Memory, o: Node, x: Node, parent: Node, side: Side): Memory
    requires o in m
  {
    WithParent(WithParent(WithChild(m, parent, side, x), m[o].l, x), m[o].r, x)[x := m[o]]
  }

  lemma TakenOver(m: Memory, root: Node, d: Context, s: Shape, x: Node)
    requires Zipped(m, root, d, s) && s.Branch? && x != NULL && x in m && x !in ContextNodes(d) + Nodes(s)
    ensures s.node in m
    ensures Zipped(Takeover(m, s.node, x, ParentOf(d), SideIn(d)), TopOf(d, x), d, Branch(x, s.color, s.left, s.right))
  {
    Surroundings(m, root, d, s);
    Children(m, s, ParentOf(d));
    TakenContext(m, root, d, s, x);
    TakenKids(m, root, d, s, x);
  }

  lemma TakenContext(m: Memory, root: Node, d: Context, s: Shape, x: Node)
    requires Zipped(m, root, d, s) && s.Branch? && s.node in m
    requires x != NULL && x in m && x !in ContextNodes(d) + Nodes(s)
    ensures LinkedContext(Takeover(m, s.node, x, ParentOf(d), SideIn(d)), d, x)
  {
    Surroundings(m, root, d, s);
    Children(m, s, ParentOf(d));
    var mem := Takeover(m, s.node, x, ParentOf(d), SideIn(d));
    var m1 := WithChild(m, ParentOf(d), SideIn(d), x);
    Refilled(m, m1, d, s.node, x);
    KeptContext(m1, mem, d, x, RootSet(s.left) + RootSet(s.right) + {x});
  }

  lemma TakenKids(m: Memory, root: Node, d: Context, s: Shape, x: Node)
    requires Zipped(m, root, d, s) && s.Branch? && s.node in m
    requires x != NULL && x in m && x !in ContextNodes(d) + Nodes(s)
    ensures var mem := Takeover(m, s.node, x, ParentOf(d), SideIn(d));
            Linked(mem, s.left, x) && Linked(mem, s.right, x)
  {
    Surroundings(m, root, d, s);
    Children(m, s, ParentOf(d));
    var mem := Takeover(m, s.node, x, ParentOf(d), SideIn(d));
    var touched := ParentSet(d) + RootSet(s.left) + RootSet(s.right) + {x};
    Rehung(m, mem, s.left, s.node, x, touched);
    Rehung(m, mem, s.right, s.node, x, touched);
  }

  lemma RenamedBalanced(s: Shape, x: Node, h: int)
    requires s.Branch?
    ensures Balanced(Branch(x, s.color, s.left, s.right), h) == Balanced(s, h)
  {
  }

  lemma RenamedOrder(d: Context, s: Shape, x: Node)
    requires s.Branch?
    ensures var a, b := Before(d) + InOrder(s.left), InOrder(s.right) + After(d);
      && InOrder(Plug(d, s)) == a + [s.node] + b
      && InOrder(Plug(d, Branch(x, s.color, s.left, s.right))) == a + [x] + b
  {
    FocusOrder(d, s);
    FocusOrder(d, Branch(x, s.color, s.left, s.right));
  }

  /** None of the writes to the neighbours of a node touches its own cell. */
  lemma PlaceKept(m: Memory, o: Node, n: Node, side: Side)
    requires o in m && m[o].p != o && m[o].l != o && m[o].r != o
    ensures var m1 := WithChild(m, m[o].p, side, n);
            var m2 := WithParent(m1, m[o].l, n);
            var m3 := WithParent(m2, m[o].r, n);
            && o in m1 && m1[o] == m[o] && o in m2 && m2[o] == m[o] && o in m3 && m3[o] == m[o]
            && m1.Keys == m.Keys && m2.Keys == m.Keys && m3.Keys == m.Keys
  {
  }

  lemma PlaceCells(m: Memory, root: Node, d: Context, s: Shape, n: Node)
    requires Zipped(m, root, d, s) && s.Branch? && n != NULL && n in m && n !in ContextNodes(d) + Nodes(s)
    ensures s.node in m && m[s.node] == Cell(ParentOf(d), RootOf(s.left), RootOf(s.right), s.color)
    ensures ParentOf(d) != NULL ==> ParentOf(d) in m
    ensures RootOf(s.left) != NULL ==> RootOf(s.left) in m
    ensures RootOf(s.right) != NULL ==> RootOf(s.right) in m
    ensures var m1 := WithChild(m, ParentOf(d), SideIn(d), n);
            var m2 := WithParent(m1, RootOf(s.left), n);
            var m3 := WithParent(m2, RootOf(s.right), n);
            && m1.Keys == m.Keys && m2.Keys == m.Keys && m3.Keys == m.Keys
            && m1[s.node] == m[s.node] && m2[s.node] == m[s.node] && m3[s.node] == m[s.node]
            && Changes(m, m3[n := m[s.node]], {n} + ParentSet(d) + RootSet(s.left) + RootSet(s.right))
  {
    Surroundings(m, root, d, s);
    Children(m, s, ParentOf(d));
    PlaceKept(m, s.node, n, SideIn(d));
  }

  /** The writes of `ss_rbreplace`. */
  method CopyPlace(t: Tree, o: Node, n: Node, ghost d: Context, ghost s: Shape)
    requires Zipped(t.mem, t.root, d, s) && s.Branch? && s.node == o && o in t.mem
    requires n != NULL && n in t.mem && n !in ContextNodes(d) + Nodes(s)
    modifies t`root, t`mem
    ensures Zipped(t.mem, t.root, d, Branch(n, s.color, s.left, s.right))
    ensures n in t.mem && t.mem[n] == old(t.mem[o])
    ensures Changes(old(t.mem), t.mem, {n} + ParentSet(d) + RootSet(s.left) + RootSet(s.right))
  {
    TakenOver(t.mem, t.root, d, s, n);
    PlaceCells(t.mem, t.root, d, s, n);
    var p := t.mem[o].p;
    t.SetChild(p, o, n, d);
    t.SetParent(t.mem[o].l, n);
    t.SetParent(t.mem[o].r, n);
    t.mem := t.mem[n := t.mem[o]];
  }

  lemma OutsidePlug(d: Context, s: Shape, n: Node)
    requires n !in Nodes(Plug(d, s))
    ensures n !in ContextNodes(d) + Nodes(s)
  {
    PlugNodes(d, s);
  }

  /** The nodes once `x` sits where the node in focus was. */
  lemma RenamedNodes(d: Context, s: Shape, x: Node)
    requires s.Branch? && DistinctPair(d, s)
    ensures Nodes(Plug(d, Branch(x, s.color, s.left, s.right))) == Nodes(Plug(d, s)) - {s.node} + {x}
    ensures {x} + ParentSet(d) + RootSet(s.left) + RootSet(s.right)
            <= Nodes(Plug(d, Branch(x, s.color, s.left, s.right)))
  {
    PlugNodes(d, s);
    PlugNodes(d, Branch(x, s.color, s.left, s.right));
  }

  /** `ss_rbreplace`: `n` takes the place, the neighbours and the colour of `o`. */
  method Replace(t: Tree, o: Node, n: Node)
    requires t.Valid() && o in Nodes(t.shape) && o in t.mem && n != NULL && n in t.mem && n !in Nodes(t.shape)
    modifies t
    ensures t.Valid() && Nodes(t.shape) == old(Nodes(t.shape)) - {o} + {n}
    ensures exists a, b :: old(InOrder(t.shape)) == a + [o] + b && InOrder(t.shape) == a + [n] + b
    ensures n in t.mem && t.mem[n] == old(t.mem[o])
    ensures Changes(old(t.mem), t.mem, Nodes(t.shape))
  {
    ghost var d, s := Focus(Top, t.shape, o);
    ZippedPlug(t.mem, t.root, d, s);
    OutsidePlug(d, s, n);
    CopyPlace(t, o, n, d, s);
    FinishReplace(t, d, s, n);
    RenamedOrder(d, s, n);
    RenamedNodes(d, s, n);
  }

  ghost method FinishReplace(t: Tree, d: Context, s: Shape, n: Node)
    requires s.Branch? && t.shape == Plug(d, s) && RedBlack(t.shape)
    requires Zipped(t.mem, t.root, d, Branch(n, s.color, s.left, s.right))
    modifies t`shape
    ensures t.Valid() && t.shape == Plug(d, Branch(n, s.color, s.left, s.right))
  {
    var r := Branch(n, s.color, s.left, s.right);
    var h := UnplugBalanced(d, s);
    RenamedBalanced(s, n, h);
    PlugBalanced(d, r, h);
    ZippedPlug(t.mem, t.root, d, r);
    t.shape := Plug(d, r);
  }

  // ---------------------------------------------------------------- the successor takes over

  /** The node to remove has two children; its successor is `X`, reached from the right child
      along `f`, and has no left child. */
  datatype Succession = Succession(d: Context, n: Node, color: Color, left: Shape, f: Context, X: Shape)
  {
    ghost predicate Holds(mem: Memory, root: Node) {
      && left.Branch? && X.Branch? && X.left.Leaf? && AllLeft(f)
      && Zipped(mem, root, At(n), X)
    }

    /** The context of the successor's place, when `y` sits in the removed node's place. */
    ghost function At(y: Node): Context {
      Compose(f, Down(R, y, color, left, d))
    }

    /** The whole subtree below `d`, with `y` at its root and `s` at the end of the path. */
    ghost function Subtree(y: Node, s: Shape): Shape {
      Branch(y, color, left, Plug(f, s))
    }
  }

  lemma SubtreeZipped(v: Succession, mem: Memory, root: Node, y: Node, s: Shape)
    ensures Zipped(mem, root, v.At(y), s) <==> Zipped(mem, root, v.d, v.Subtree(y, s))
    ensures Plug(v.At(y), s) == Plug(v.d, v.Subtree(y, s))
  {
    var base := Down(R, y, v.color, v.left, v.d);
    ZippedCompose(mem, root, v.f, base, s);
    PlugCompose(v.f, base, s);
    ZipUp(mem, root, base, Plug(v.f, s));
    assert Fill(base, Plug(v.f, s)) == v.Subtree(y, s);
  }

  /** The memory once the child of the successor has closed the successor's gap. */
  ghost function GapClosed(m: Memory, v: Succession): Memory
    requires v.X.Branch?
  {
    var e := v.At(v.n);
    WithParent(WithChild(m, ParentOf(e), SideIn(e), RootOf(v.X.right)), RootOf(v.X.right), ParentOf(e))
  }

  /** Closing the successor's gap and then giving it the removed node's place, as two steps. */
  lemma Succeeded(m: Memory, root: Node, v: Succession)
    requires v.Holds(m, root)
    ensures v.n in GapClosed(m, v)
    ensures Zipped(Takeover(GapClosed(m, v), v.n, v.X.node, ParentOf(v.d), SideIn(v.d)), TopOf(v.d, v.X.node),
        v.At(v.X.node), v.X.right)
  {
    var e, y, x := v.At(v.n), v.X.right, v.X.node;
    Surroundings(m, root, e, v.X);
    Closed(m, root, e, v.X, y, GapClosed(m, v));
    var top := TopOf(e, RootOf(y));
    SubtreeZipped(v, GapClosed(m, v), top, v.n, y);
    SuccessorOutside(v);
    TakenOver(GapClosed(m, v), top, v.d, v.Subtree(v.n, y), x);
    SubtreeZipped(v, Takeover(GapClosed(m, v), v.n, x, ParentOf(v.d), SideIn(v.d)), TopOf(v.d, x), x, y);
  }

  /** Once its gap is closed, the successor is in no part of the tree. */
  lemma SuccessorOutside(v: Succession)
    requires v.X.Branch? && v.X.left.Leaf? && DistinctPair(v.At(v.n), v.X)
    ensures v.X.node !in ContextNodes(v.d) + Nodes(v.Subtree(v.n, v.X.right))
    ensures ContextNodes(v.At(v.n)) + Nodes(v.X.right) == ContextNodes(v.d) + Nodes(v.Subtree(v.n, v.X.right))
  {
    PlugNodes(v.At(v.n), v.X.right);
    PlugNodes(v.d, v.Subtree(v.n, v.X.right));
    SubtreeZipped(v, map[], NULL, v.n, v.X.right);
  }

  lemma {:induction false} TopOfPlug(f: Context, s: Shape)
    ensures RootOf(Plug(f, s)) == TopOf(f, RootOf(s))
    ensures f.Down? ==> TopOf(f, RootOf(s)) in ContextNodes(f)
    ensures s.Branch? ==> Plug(f, s).Branch?
    decreases f
  {
    if f.Down? {
      TopOfPlug(f.up, Fill(f, s));
    }
  }

  lemma {:induction false} ComposeNodes(f: Context, base: Context)
    ensures ContextNodes(Compose(f, base)) == ContextNodes(f) + ContextNodes(base)
    ensures DistinctContext(Compose(f, base)) ==> ContextNodes(f) !! ContextNodes(base)
    decreases f
  {
    if f.Down? {
      ComposeNodes(f.up, base);
    }
  }

  /** The cells that the takeover reads and writes, and which of them may coincide. */
  lemma SuccessionCells(m: Memory, root: Node, v: Succession)
    requires v.Holds(m, root)
    ensures var e, x, l, y, n := v.At(v.n), v.X.node, v.left.node, RootOf(v.X.right), v.n;
      var q, r, p := ParentOf(e), TopOf(v.f, x), ParentOf(v.d);
      && n != NULL && x != NULL && l != NULL && q != NULL && r != NULL
      && n in m && x in m && l in m && q in m && r in m && (y != NULL ==> y in m)
      && m[n] == Cell(p, l, r, v.color) && m[x] == Cell(q, NULL, y, v.X.color)
      && n != x && n != l && x != l && (y != NULL ==> y != n && y != x && y != l && y != q && y != r)
      && (v.f.Top? ==> q == n && r == x && SideIn(e) == R)
      && (v.f.Down? ==> q != n && q != x && q != l && r != n && r != x && r != l && SideIn(e) == L)
      && (p != NULL ==> p in m && p != n && p != x && p != l && p != q && p != r && p != y)
  {
    var e, x, base := v.At(v.n), v.X.node, Down(R, v.n, v.color, v.left, v.d);
    Surroundings(m, root, e, v.X);
    Children(m, v.X, ParentOf(e));
    SubtreeZipped(v, m, root, v.n, v.X);
    Children(m, v.Subtree(v.n, v.X), ParentOf(v.d));
    Surroundings(m, root, v.d, v.Subtree(v.n, v.X));
    TopOfPlug(v.f, v.X);
    ComposeNodes(v.f, base);
    assert ParentSet(v.d) <= ContextNodes(v.d) && RootSet(v.left) <= Nodes(v.left)
        && RootSet(v.X.right) <= Nodes(v.X.right);
  }

  /** The memory after the writes of `ss_rbremove`, when the successor is the right child itself. */
  function NearWrites(m: Memory, n: Node, l: Node, x: Node, parent: Node, side: Side): Memory
    requires n in m && x in m
  {
    var m1 := WithChild(m, parent, side, x);
    var m2 := WithParent(m1[x := Cell(m1[x].p, l, m1[x].r, m1[n].color)], l, x);
    var m3 := m2[x := m2[x].(p := parent)];
    WithParent(m3, m3[x].r, x)
  }

  /** The cells written while the successor takes over. */
  ghost function Touched(v: Succession): set<Node>
    requires v.X.Branch?
  {
    ParentSet(v.d) + RootSet(v.left) + {v.X.node} + ParentSet(v.At(v.n)) + RootSet(v.X.right) + {TopOf(v.f, v.X.node)}
  }

  lemma TouchedInside(v: Succession)
    requires v.X.Branch?
    ensures Touched(v) <= ContextNodes(v.At(v.n)) + Nodes(v.X)
  {
    ComposeNodes(v.f, Down(R, v.n, v.color, v.left, v.d));
    TopOfPlug(v.f, v.X);
  }

  lemma NearAgrees(m: Memory, root: Node, v: Succession)
    requires v.Holds(m, root) && v.f.Top?
    ensures v.n in m && v.X.node in m
    ensures Zipped(NearWrites(m, v.n, v.left.node, v.X.node, ParentOf(v.d), SideIn(v.d)), TopOf(v.d, v.X.node),
        v.At(v.X.node), v.X.right)
    ensures Changes(m, NearWrites(m, v.n, v.left.node, v.X.node, ParentOf(v.d), SideIn(v.d)), Touched(v))
  {
    var x := v.X.node;
    SuccessionCells(m, root, v);
    Succeeded(m, root, v);
    var reference := Takeover(GapClosed(m, v), v.n, x, ParentOf(v.d), SideIn(v.d));
    var mem := NearWrites(m, v.n, v.left.node, x, ParentOf(v.d), SideIn(v.d));
    NearSame(m, v.n, v.left.node, x, RootOf(v.X.right), ParentOf(v.d), SideIn(v.d));
    NearTouched(m, v.n, v.left.node, x, RootOf(v.X.right), ParentOf(v.d), SideIn(v.d));
    RemovedOutside(v);
    ZippedElsewhere(reference, mem, TopOf(v.d, x), v.At(x), v.X.right, {v.n});
  }

  /** The nodes around a near successor are all different. */
  ghost predicate NearCells(m: Memory, n: Node, l: Node, x: Node, y: Node, p: Node) {
    && n != NULL && x != NULL && l != NULL && n in m && x in m && l in m && (y != NULL ==> y in m)
    && m[n] == Cell(p, l, x, m[n].color) && m[x] == Cell(n, NULL, y, m[x].color)
    && n != x && n != l && x != l && (y != NULL ==> y != n && y != x && y != l)
    && (p != NULL ==> p in m && p != n && p != x && p != l && p != y)
  }

  /** The writes give the two-step memory, but for the cell of the removed node. */
  lemma NearSame(m: Memory, n: Node, l: Node, x: Node, y: Node, p: Node, side: Side)
    requires NearCells(m, n, l, x, y, p)
    ensures var m1 := WithParent(WithChild(m, n, R, y), y, n);
      Changes(Takeover(m1, n, x, p, side), NearWrites(m, n, l, x, p, side), {n})
  {
  }

  lemma NearTouched(m: Memory, n: Node, l: Node, x: Node, y: Node, p: Node, side: Side)
    requires NearCells(m, n, l, x, y, p)
    ensures Changes(m, NearWrites(m, n, l, x, p, side),
        (if p == NULL then {} else {p}) + (if y == NULL then {} else {y}) + {l, x})
  {
  }

  /** The removed node is in no part of the tree that is left. */
  lemma RemovedOutside(v: Succession)
    requires v.X.Branch? && v.X.left.Leaf? && DistinctPair(v.At(v.n), v.X)
    ensures v.n !in ContextNodes(v.At(v.X.node)) + Nodes(v.X.right)
    ensures ContextNodes(v.At(v.X.node)) + Nodes(v.X.right) == ContextNodes(v.At(v.n)) + Nodes(v.X) - {v.n}
  {
    ComposeNodes(v.f, Down(R, v.n, v.color, v.left, v.d));
    ComposeNodes(v.f, Down(R, v.X.node, v.color, v.left, v.d));
    DistinctBase(v.f, Down(R, v.n, v.color, v.left, v.d));
  }

  lemma {:induction false} DistinctBase(f: Context, base: Context)
    requires DistinctContext(Compose(f, base))
    ensures DistinctContext(base)
    decreases f
  {
    if f.Down? {
      DistinctBase(f.up, base);
    }
  }

  method TakeSuccessorNear(t: Tree, n: Node, l: Node, x: Node, ghost v: Succession) returns (color: Color, gap: Node,
        p: Node)
    requires v.Holds(t.mem, t.root) && v.f.Top? && n == v.n && l == v.left.node && x == v.X.node && n in t.mem
    modifies t`root, t`mem
    ensures color == v.X.color && gap == RootOf(v.X.right) && p == x == ParentOf(v.At(x))
    ensures Zipped(t.mem, t.root, v.At(x), v.X.right) && Changes(old(t.mem), t.mem, Touched(v))
  {
    NearAgrees(t.mem, t.root, v);
    SuccessionCells(t.mem, t.root, v);
    SubtreeZipped(v, t.mem, t.root, v.n, v.X);
    var parent := t.mem[n].p;
    t.SetChild(parent, n, x, v.d);
    color := t.mem[x].color;
    t.mem := t.mem[x := Cell(t.mem[x].p, l, t.mem[x].r, t.mem[n].color)];
    t.SetParent(l, x);
    t.mem := t.mem[x := t.mem[x].(p := parent)];
    p, gap := x, t.mem[x].r;
    t.SetParent(gap, p);
  }

  /** The same when the successor lies deeper, the parent's link being set already. */
  function DeepTail(m1: Memory, n: Node, l: Node, r: Node, x: Node): Memory
    requires n in m1 && x in m1
  {
    var m2 := WithParent(m1[x := Cell(m1[x].p, l, m1[x].r, m1[n].color)], l, x);
    var p, gap := m2[x].p, m2[x].r;
    var m3 := WithChild(m2[x := m2[x].(p := m2[n].p)], p, L, gap);
    var m4 := WithParent(m3[x := m3[x].(r := r)], r, x);
    WithParent(m4, gap, p)
  }

  function DeepWrites(m: Memory, n: Node, l: Node, r: Node, x: Node, parent: Node, side: Side): Memory
    requires n in m && x in m
  {
    DeepTail(WithChild(m, parent, side, x), n, l, r, x)
  }

  lemma DeepAgrees(m: Memory, root: Node, v: Succession)
    requires v.Holds(m, root) && v.f.Down?
    ensures v.n in m && v.X.node in m
    ensures Zipped(DeepWrites(m, v.n, v.left.node, TopOf(v.f, v.X.node), v.X.node, ParentOf(v.d), SideIn(v.d)),
        TopOf(v.d, v.X.node), v.At(v.X.node), v.X.right)
    ensures Changes(m, DeepWrites(m, v.n, v.left.node, TopOf(v.f, v.X.node), v.X.node, ParentOf(v.d), SideIn(v.d)),
        Touched(v))
  {
    var x := v.X.node;
    SuccessionCells(m, root, v);
    Succeeded(m, root, v);
    var reference := Takeover(GapClosed(m, v), v.n, x, ParentOf(v.d), SideIn(v.d));
    var mem := DeepWrites(m, v.n, v.left.node, TopOf(v.f, x), x, ParentOf(v.d), SideIn(v.d));
    DeepSame(m, v.n, v.left.node, TopOf(v.f, x), x, ParentOf(v.At(v.n)), RootOf(v.X.right), ParentOf(v.d), SideIn(v.d));
    DeepTouched(m, v.n, v.left.node, TopOf(v.f, x), x, ParentOf(v.At(v.n)), RootOf(v.X.right), ParentOf(v.d),
        SideIn(v.d));
    RemovedOutside(v);
    ZippedElsewhere(reference, mem, TopOf(v.d, x), v.At(x), v.X.right, {v.n});
  }

  /** The nodes around a deep successor are all different, but for `q` and `r`. */
  ghost predicate DeepCells(m: Memory, n: Node, l: Node, r: Node, x: Node, q: Node, y: Node, p: Node) {
    && n != NULL && x != NULL && l != NULL && q != NULL && r != NULL
    && n in m && x in m && l in m && q in m && r in m && (y != NULL ==> y in m)
    && m[n] == Cell(p, l, r, m[n].color) && m[x] == Cell(q, NULL, y, m[x].color)
    && n != x && n != l && x != l && (y != NULL ==> y != n && y != x && y != l && y != q && y != r)
    && q != n && q != x && q != l && r != n && r != x && r != l
    && (p != NULL ==> p in m && p != n && p != x && p != l && p != q && p != r && p != y)
  }

  /** What becomes of each cell when a deep successor takes over. */
  function DeepCell(m: Memory, n: Node, l: Node, r: Node, x: Node, q: Node, y: Node, p: Node, side: Side, z: Node): Cell
    requires n in m && z in m
  {
    if z == x then Cell(p, l, r, m[n].color)
    else if z == l then m[z].(p := x)
    else if z == q && z == r then m[z].(l := y, p := x)
    else if z == q then m[z].(l := y)
    else if z == r then m[z].(p := x)
    else if z == y && y != NULL then m[z].(p := q)
    else if z == p && p != NULL then m[z].WithKid(side, x)
    else m[z]
  }

  lemma DeepReference(m: Memory, n: Node, l: Node, r: Node, x: Node, q: Node, y: Node, p: Node, side: Side, z: Node)
    requires DeepCells(m, n, l, r, x, q, y, p)
    ensures var a := Takeover(WithParent(WithChild(m, q, L, y), y, q), n, x, p, side);
            (z in a <==> z in m) && (z in m && z != n ==> a[z] == DeepCell(m, n, l, r, x, q, y, p, side, z))
  {
  }

  lemma DeepWritten(m: Memory, n: Node, l: Node, r: Node, x: Node, q: Node, y: Node, p: Node, side: Side, z: Node)
    requires DeepCells(m, n, l, r, x, q, y, p)
    ensures var b := DeepWrites(m, n, l, r, x, p, side);
            (z in b <==> z in m) && (z in m && z != n ==> b[z] == DeepCell(m, n, l, r, x, q, y, p, side, z))
  {
    var m1 := WithChild(m, p, side, x);
    assert m1.Keys == m.Keys && m1[x] == m[x] && m1[n] == m[n];
    TailWritten(m1, n, l, r, x, q, y, p, z);
  }

  /** The same below the parent of the removed node. */
  lemma TailWritten(m: Memory, n: Node, l: Node, r: Node, x: Node, q: Node, y: Node, p: Node, z: Node)
    requires n != NULL && x != NULL && l != NULL && q != NULL && r != NULL
    requires n in m && x in m && l in m && q in m && r in m && (y != NULL ==> y in m)
    requires m[n].p == p && m[x] == Cell(q, NULL, y, m[x].color)
    requires n != x && n != l && x != l && (y != NULL ==> y != n && y != x && y != l && y != q && y != r)
    requires q != n && q != x && q != l && r != n && r != x && r != l
    ensures var b := DeepTail(m, n, l, r, x);
            && (z in b <==> z in m)
            && (z in m && z != n ==>
                  b[z] == if z == x then Cell(p, l, r, m[n].color)
                          else if z == l then m[z].(p := x)
                          else if z == q && z == r then m[z].(l := y, p := x)
                          else if z == q then m[z].(l := y)
                          else if z == r then m[z].(p := x)
                          else if z == y && y != NULL then m[z].(p := q)
                          else m[z])
  {
  }

  lemma DeepSame(m: Memory, n: Node, l: Node, r: Node, x: Node, q: Node, y: Node, p: Node, side: Side)
    requires DeepCells(m, n, l, r, x, q, y, p)
    ensures var m1 := WithParent(WithChild(m, q, L, y), y, q);
      Changes(Takeover(m1, n, x, p, side), DeepWrites(m, n, l, r, x, p, side), {n})
  {
    var a := Takeover(WithParent(WithChild(m, q, L, y), y, q), n, x, p, side);
    var b := DeepWrites(m, n, l, r, x, p, side);
    forall z: Node
      ensures z in a <==> z in b
      ensures z in a && z != n ==> b[z] == a[z]
    {
      DeepReference(m, n, l, r, x, q, y, p, side, z);
      DeepWritten(m, n, l, r, x, q, y, p, side, z);
    }
  }

  lemma DeepTouched(m: Memory, n: Node, l: Node, r: Node, x: Node, q: Node, y: Node, p: Node, side: Side)
    requires DeepCells(m, n, l, r, x, q, y, p)
    ensures Changes(m, DeepWrites(m, n, l, r, x, p, side),
        (if p == NULL then {} else {p}) + (if y == NULL then {} else {y}) + {l, x, q, r})
  {
  }

  method WriteDeep(t: Tree, n: Node, l: Node, r: Node, x: Node) returns (color: Color, gap: Node, p: Node)
    requires n in t.mem && x in t.mem && n != x && l != NULL && l in t.mem && l != x && r != NULL && r in t.mem
    requires t.mem[x].r != NULL ==> t.mem[x].r in t.mem
    modifies t`mem
    ensures t.mem == DeepTail(old(t.mem), n, l, r, x)
    ensures color == old(t.mem[x].color) && gap == old(t.mem[x].r) && p == old(t.mem[x].p)
  {
    color := t.mem[x].color;
    t.mem := t.mem[x := Cell(t.mem[x].p, l, t.mem[x].r, t.mem[n].color)];
    t.SetParent(l, x);
    p := t.mem[x].p;
    gap := t.mem[x].r;
    t.mem := t.mem[x := t.mem[x].(p := t.mem[n].p)];
    t.mem := WithChild(t.mem, p, L, gap);
    t.mem := t.mem[x := t.mem[x].(r := r)];
    t.SetParent(r, x);
    t.SetParent(gap, p);
  }

  method TakeSuccessorDeep(t: Tree, n: Node, l: Node, r: Node, x: Node, ghost v: Succession) returns (color: Color,
        gap: Node, p: Node)
    requires v.Holds(t.mem, t.root) && v.f.Down? && n == v.n && l == v.left.node && x == v.X.node && n in t.mem
        && r == TopOf(v.f, x)
    modifies t`root, t`mem
    ensures color == v.X.color && gap == RootOf(v.X.right) && p == ParentOf(v.At(x))
    ensures Zipped(t.mem, t.root, v.At(x), v.X.right) && Changes(old(t.mem), t.mem, Touched(v))
  {
    DeepAgrees(t.mem, t.root, v);
    SuccessionCells(t.mem, t.root, v);
    SubtreeZipped(v, t.mem, t.root, v.n, v.X);
    t.SetChild(t.mem[n].p, n, x, v.d);
    color, gap, p := WriteDeep(t, n, l, r, x);
  }

  /** The successor, at the right child or deeper, takes the place of `n`. */
  method TakeSuccessor(t: Tree, n: Node, l: Node, r: Node, x: Node, ghost v: Succession)
    returns (color: Color, gap: Node, p: Node)
    requires v.Holds(t.mem, t.root) && n == v.n && l == v.left.node && x == v.X.node && n in t.mem
    requires r == TopOf(v.f, x) && (v.f.Down? <==> x != r)
    modifies t`root, t`mem
    ensures color == v.X.color && gap == RootOf(v.X.right) && p == ParentOf(v.At(x))
    ensures Zipped(t.mem, t.root, v.At(x), v.X.right) && Changes(old(t.mem), t.mem, Touched(v))
  {
    if x != r {
      color, gap, p := TakeSuccessorDeep(t, n, l, r, x, v);
    } else {
      color, gap, p := TakeSuccessorNear(t, n, l, x, v);
    }
  }

  // ---------------------------------------------------------------- removal

  /** `after` is `before` without `n`. */
  ghost predicate TakenOut(before: seq<Node>, after: seq<Node>, n: Node) {
    exists a: seq<Node>, b: seq<Node> :: before == a + [n] + b && after == a + b
  }

  lemma TakenOutAt(a: seq<Node>, n: Node, b: seq<Node>)
    ensures TakenOut(a + [n] + b, a + b, n)
  {
  }

  lemma SuccessorFirst(f: Context, X: Shape)
    requires X.Branch? && X.left.Leaf? && AllLeft(f)
    ensures InOrder(Plug(f, X)) == [X.node] + InOrder(Plug(f, X.right))
  {
    AllLeftOrder(f);
    PlugOrder(f, X);
    PlugOrder(f, X.right);
    FrontOut(X.node, InOrder(X.right), After(f));
  }

  lemma SuccessionOrder(v: Succession)
    requires v.X.Branch? && v.X.left.Leaf? && AllLeft(v.f)
    ensures TakenOut(InOrder(Plug(v.At(v.n), v.X)), InOrder(Plug(v.At(v.X.node), v.X.right)), v.n)
  {
    var x := v.X.node;
    var a, b := Before(v.d) + InOrder(v.left), InOrder(Plug(v.f, v.X)) + After(v.d);
    var rest := InOrder(Plug(v.f, v.X.right));
    SubtreeZipped(v, map[], NULL, v.n, v.X);
    SubtreeZipped(v, map[], NULL, x, v.X.right);
    RenamedOrder(v.d, v.Subtree(v.n, v.X), x);
    RenamedOrder(v.d, v.Subtree(x, v.X.right), x);
    SuccessorFirst(v.f, v.X);
    Reassociate(a, x, rest, After(v.d));
    TakenOutAt(a, v.n, b);
  }

  lemma Reassociate(a: seq<Node>, x: Node, rest: seq<Node>, d: seq<Node>)
    ensures a + [x] + (rest + d) == a + (([x] + rest) + d)
  {
  }

  lemma FrontOut(x: Node, r: seq<Node>, f: seq<Node>)
    ensures [x] + ([] + r + f) == [] + ([] + [x] + r) + f
  {
  }

  lemma SingleOrder(d: Context, s: Shape, y: Shape)
    requires s.Branch? && ((s.left.Leaf? && y == s.right) || (s.right.Leaf? && y == s.left))
    ensures TakenOut(InOrder(Plug(d, s)), InOrder(Plug(d, y)), s.node)
  {
    RenamedOrder(d, s, s.node);
    PlugOrder(d, y);
    WithoutMiddle(Before(d), InOrder(s.left), InOrder(s.right), InOrder(y), After(d));
    TakenOutAt(Before(d) + InOrder(s.left), s.node, InOrder(s.right) + After(d));
  }

  lemma WithoutMiddle(a: seq<Node>, l: seq<Node>, r: seq<Node>, y: seq<Node>, b: seq<Node>)
    requires (l == [] && y == r) || (r == [] && y == l)
    ensures (a + l) + (r + b) == a + y + b
  {
  }

  /** A node of the given colour has left the gap: how much is missing. */
  ghost predicate Unlinked(mem: Memory, root: Node, c: Context, s: Shape, h: int, color: Color, order: seq<Node>,
        nodes: set<Node>) {
    && Zipped(mem, root, c, s) && Keeps(c, s, order, nodes)
    && BalancedContext(c, h) && Balanced(s, h - Rank(color)) && (color == Red ==> RootBlack(s))
  }

  /** The second half of `ss_rbremove`. */
  method Settle(t: Tree, color: Color, n: Node, p: Node, ghost c: Context, ghost s: Shape, ghost h: int,
        ghost order: seq<Node>, ghost nodes: set<Node>)
    requires Unlinked(t.mem, t.root, c, s, h, color, order, nodes) && n == RootOf(s) && p == ParentOf(c)
        && color != Undef
    modifies t
    ensures t.Valid() && InOrder(t.shape) == order && Nodes(t.shape) == nodes
    ensures Changes(old(t.mem), t.mem, nodes)
  {
    if color == Red {
      PlugBalanced(c, s, h);
      ZippedPlug(t.mem, t.root, c, s);
      t.shape := Plug(c, s);
      return;
    }
    Surroundings(t.mem, t.root, c, s);
    if n != NULL && t.mem[n].color == Red {
      assert Balanced(Painted(s, Black), h);
      MendedByRedParent(t.mem, t.root, c, s, h, order, nodes);
      PaintFocus(t, n, c, s, order, nodes);
      return;
    }
    assert Short(c, s, h - 1);
    Mend(t, n, p, c, s, h - 1, order, nodes);
  }

  /** Unlinking a node that has at most one child. */
  method UnlinkSingle(t: Tree, n: Node, x: Node, ghost d: Context, ghost s: Shape,
        ghost y: Shape) returns (color: Color, p: Node)
    requires Zipped(t.mem, t.root, d, s) && s.Branch? && n == s.node && n in t.mem && x == RootOf(y)
    requires (s.left.Leaf? && y == s.right) || (s.right.Leaf? && y == s.left)
    modifies t`root, t`mem
    ensures color == s.color && p == ParentOf(d)
    ensures Zipped(t.mem, t.root, d, y) && Changes(old(t.mem), t.mem, ParentSet(d) + RootSet(y))
  {
    Surroundings(t.mem, t.root, d, s);
    Children(t.mem, s, ParentOf(d));
    Closed(t.mem, t.root, d, s, y,
           WithParent(WithChild(t.mem, ParentOf(d), SideIn(d), RootOf(y)), RootOf(y), ParentOf(d)));
    color := t.mem[n].color;
    p := t.mem[n].p;
    t.SetChild(p, n, x, d);
    t.SetParent(x, p);
  }

  /** The leftmost node of the right subtree. */
  method FindSuccessor(t: Tree, r: Node, ghost v: Succession) returns (x: Node, ghost w: Succession)
    requires v.f.Top? && v.left.Branch? && v.X.Branch? && r == v.X.node && Zipped(t.mem, t.root, v.At(v.n), v.X)
    ensures w.Holds(t.mem, t.root) && x == w.X.node && r == TopOf(w.f, x) && x in t.mem && (x == r <==> w.f.Top?)
    ensures w.d == v.d && w.n == v.n && w.color == v.color && w.left == v.left && Plug(w.f, w.X) == v.X
  {
    x := r;
    w := v;
    Surroundings(t.mem, t.root, w.At(w.n), w.X);
    Children(t.mem, w.X, ParentOf(w.At(w.n)));
    while t.mem[x].l != NULL
      invariant w.d == v.d && w.n == v.n && w.color == v.color && w.left == v.left
      invariant AllLeft(w.f) && Plug(w.f, w.X) == v.X
      invariant w.X.Branch? && x == w.X.node && x in t.mem && Zipped(t.mem, t.root, w.At(w.n), w.X)
      invariant t.mem[x].l == RootOf(w.X.left) && (w.X.left.Branch? ==> w.X.left.node != NULL)
      decreases w.X
    {
      x := t.mem[x].l;
      ghost var f := Down(L, w.X.node, w.X.color, w.X.right, w.f);
      ghost var u := Succession(w.d, w.n, w.color, w.left, f, w.X.left);
      assert Fill(f, w.X.left) == w.X;
      assert Fill(u.At(w.n), w.X.left) == w.X;
      ZipUp(t.mem, t.root, u.At(w.n), w.X.left);
      w := u;
      Surroundings(t.mem, t.root, w.At(w.n), w.X);
      Children(t.mem, w.X, ParentOf(w.At(w.n)));
    }
    TopOfPlug(w.f, w.X);
    SuccessionCells(t.mem, t.root, w);
  }

  /** What is left once the successor stands in for the removed node. */
  lemma WithoutSuccessor(v: Succession) returns (h: int)
    requires v.X.Branch? && v.X.left.Leaf? && AllLeft(v.f) && DistinctPair(v.At(v.n), v.X)
    requires RedBlack(Plug(v.At(v.n), v.X))
    ensures TakenOut(InOrder(Plug(v.At(v.n), v.X)), InOrder(Plug(v.At(v.X.node), v.X.right)), v.n)
    ensures Nodes(Plug(v.At(v.X.node), v.X.right)) == Nodes(Plug(v.At(v.n), v.X)) - {v.n}
    ensures Touched(v) <= Nodes(Plug(v.At(v.n), v.X))
    ensures BalancedContext(v.At(v.X.node), h) && Balanced(v.X.right, h - Rank(v.X.color))
    ensures v.X.color != Undef && (v.X.color == Red ==> RootBlack(v.X.right))
  {
    h := UnplugBalanced(v.At(v.n), v.X);
    SuccessionOrder(v);
    RemovedOutside(v);
    TouchedInside(v);
    PlugNodes(v.At(v.n), v.X);
    PlugNodes(v.At(v.X.node), v.X.right);
    ComposeBalanced(v.f, Down(R, v.n, v.color, v.left, v.d), Down(R, v.X.node, v.color, v.left, v.d), h);
  }

  /** Removing a node with two children. */
  method RemoveInner(t: Tree, n: Node, l: Node, r: Node, ghost d: Context, ghost s: Shape)
    requires t.Valid() && t.shape == Plug(d, s) && s.Branch? && n == s.node && n in t.mem
    requires s.left.Branch? && s.right.Branch? && l == s.left.node && r == s.right.node
    modifies t
    ensures t.Valid() && TakenOut(old(InOrder(t.shape)), InOrder(t.shape), n)
    ensures Nodes(t.shape) == old(Nodes(t.shape)) - {n} && Changes(old(t.mem), t.mem, old(Nodes(t.shape)))
  {
    ghost var v := Succession(d, n, s.color, s.left, Top, s.right);
    assert v.Subtree(n, s.right) == s;
    ZippedPlug(t.mem, t.root, d, s);
    SubtreeZipped(v, t.mem, t.root, n, s.right);
    var x;
    x, v := FindSuccessor(t, r, v);
    SubtreeZipped(v, t.mem, t.root, n, v.X);
    assert v.Subtree(n, v.X) == s;
    SuccessionWhole(v, d, s);
    PutSuccessor(t, n, l, r, x, v);
  }

  lemma SuccessionWhole(v: Succession, d: Context, s: Shape)
    requires v.d == d && v.Subtree(v.n, v.X) == s
    ensures Plug(v.At(v.n), v.X) == Plug(d, s)
  {
    PlugCompose(v.f, Down(R, v.n, v.color, v.left, v.d), v.X);
  }

  /** With the successor found, take it out of its place and put it in the place of `n`. */
  method PutSuccessor(t: Tree, n: Node, l: Node, r: Node, x: Node, ghost v: Succession)
    requires t.Valid() && t.shape == Plug(v.At(n), v.X) && v.Holds(t.mem, t.root)
    requires n == v.n && l == v.left.node && x == v.X.node && n in t.mem && r == TopOf(v.f, x)
    requires v.f.Down? <==> x != r
    modifies t
    ensures t.Valid() && TakenOut(old(InOrder(t.shape)), InOrder(t.shape), n)
    ensures Nodes(t.shape) == old(Nodes(t.shape)) - {n} && Changes(old(t.mem), t.mem, old(Nodes(t.shape)))
  {
    ghost var h := WithoutSuccessor(v);
    ghost var order, nodes := InOrder(Plug(v.At(x), v.X.right)), Nodes(Plug(v.At(x), v.X.right));
    var color, gap, p := TakeSuccessor(t, n, l, r, x, v);
    Settle(t, color, gap, p, v.At(x), v.X.right, h, order, nodes);
  }

  lemma SingleNodes(d: Context, s: Shape, y: Shape)
    requires s.Branch? && DistinctPair(d, s)
    requires (s.left.Leaf? && y == s.right) || (s.right.Leaf? && y == s.left)
    ensures Nodes(Plug(d, y)) == Nodes(Plug(d, s)) - {s.node} && ParentSet(d) + RootSet(y) <= Nodes(Plug(d, y))
  {
    PlugNodes(d, s);
    PlugNodes(d, y);
  }

  method RemoveOuter(t: Tree, n: Node, x: Node, ghost d: Context, ghost s: Shape, ghost y: Shape)
    requires t.Valid() && t.shape == Plug(d, s) && s.Branch? && n == s.node && n in t.mem && x == RootOf(y)
    requires (s.left.Leaf? && y == s.right) || (s.right.Leaf? && y == s.left)
    modifies t
    ensures t.Valid() && TakenOut(old(InOrder(t.shape)), InOrder(t.shape), n)
    ensures Nodes(t.shape) == old(Nodes(t.shape)) - {n} && Changes(old(t.mem), t.mem, old(Nodes(t.shape)))
  {
    ZippedPlug(t.mem, t.root, d, s);
    ghost var h := UnplugBalanced(d, s);
    SingleOrder(d, s, y);
    SingleNodes(d, s, y);
    ghost var order, nodes := InOrder(Plug(d, y)), Nodes(Plug(d, y));
    var color, p := UnlinkSingle(t, n, x, d, s, y);
    Settle(t, color, x, p, d, y, h, order, nodes);
  }

  /** `ss_rbremove`: a node of the tree leaves it, the tree stays a red-black tree with everything
      else in order; a node that was never linked is left alone. */
  method Remove(t: Tree, n: Node)
    requires t.Valid() && n in t.mem && (n in Nodes(t.shape) || t.mem[n].color == Undef)
    modifies t
    ensures t.Valid()
    ensures n in old(Nodes(t.shape)) ==>
      TakenOut(old(InOrder(t.shape)), InOrder(t.shape), n) && Nodes(t.shape) == old(Nodes(t.shape)) - {n}
    ensures n !in old(Nodes(t.shape)) ==> t.shape == old(t.shape) && t.mem == old(t.mem) && t.root == old(t.root)
    ensures Changes(old(t.mem), t.mem, old(Nodes(t.shape)))
  {
    ghost var d, s := Top, Leaf;
    if n in Nodes(t.shape) {
      d, s := Focus(Top, t.shape, n);
      ZippedPlug(t.mem, t.root, d, s);
      Surroundings(t.mem, t.root, d, s);
      Children(t.mem, s, ParentOf(d));
      ghost var h := UnplugBalanced(d, s);
    }
    if t.mem[n].color == Undef {
      return;
    }
    var l, r := t.mem[n].l, t.mem[n].r;
    if l == NULL {
      RemoveOuter(t, n, r, d, s, s.right);
    } else if r == NULL {
      RemoveOuter(t, n, l, d, s, s.left);
    } else {
      RemoveInner(t, n, l, r, d, s);
    }
  }
}
