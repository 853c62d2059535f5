/** `ss_rbset`: linking a new node below a given parent and restoring the colours. */
module RbInsert {
  import opened RbShape
  import opened RbTree

  /** A red node whose parent is red too: the parent's context, its sibling and its grandparent. */
  ghost predicate RedPair(c: Context, s: Shape, h: int) {
    && s.Branch? && s.color == Red && Balanced(s, h)
    && c.Down? && c.color == Red && BalancedContext(c, h)
  }

  lemma RedPairFamily(c: Context, s: Shape, h: int)
    requires RedPair(c, s, h)
    ensures c.up.Down? && c.up.color == Black && Balanced(c.sibling, h) && RootBlack(c.sibling)
    ensures Balanced(c.up.sibling, h) && BalancedContext(c.up.up, h + 1)
  {
    assert BalancedContext(c.up, h + 0);
  }

  // ---------------------------------------------------------------- a red uncle

  /** Grandparent red, parent and uncle black. */
  ghost function Recolored(c: Context, s: Shape): Shape
    requires c.Down? && c.up.Down? && c.up.sibling.Branch?
  {
    Make(c.up.node, Red, c.up.side, Painted(Fill(c, s), Black), Painted(c.up.sibling, Black))
  }

  method Recolor(t: Tree, ghost c: Context, ghost s: Shape, g: Node, p: Node, u: Node)
    requires Zipped(t.mem, t.root, c, s) && c.Down? && c.up.Down? && c.up.sibling.Branch?
    requires g == c.up.node && p == c.node && u == c.up.sibling.node
    modifies t`mem
    ensures Zipped(t.mem, t.root, c.up.up, Recolored(c, s))
    ensures Changes(old(t.mem), t.mem, ContextNodes(c) + Nodes(s))
  {
    ghost var side, cg, P, U := c.up.side, c.up.up, Fill(c, s), c.up.sibling;
    ghost var G := Fill(c.up, P);
    ZipUp(t.mem, t.root, c, s);
    ZipUp(t.mem, t.root, c.up, P);
    t.Paint(g, Red, cg, G);
    ghost var cp := Down(side, g, Red, U, cg);
    assert Fill(cp, P) == Painted(G, Red);
    ZipUp(t.mem, t.root, cp, P);
    t.Paint(p, Black, cp, P);
    ZipUp(t.mem, t.root, cp, Painted(P, Black));
    ghost var cu := Down(side.Other(), g, Red, Painted(P, Black), cg);
    assert Fill(cu, U) == Fill(cp, Painted(P, Black));
    ZipUp(t.mem, t.root, cu, U);
    t.Paint(u, Black, cu, U);
    ZipUp(t.mem, t.root, cu, Painted(U, Black));
    assert Fill(cu, Painted(U, Black)) == Recolored(c, s);
  }

  lemma RecoloredBalanced(c: Context, s: Shape, h: int)
    requires RedPair(c, s, h) && c.up.Down? && c.up.sibling.Branch? && c.up.sibling.color == Red
    ensures Balanced(Recolored(c, s), h + 1) && Recolored(c, s).color == Red
    ensures BalancedContext(c.up.up, h + 1)
  {
    RedPairFamily(c, s, h);
    var U := Painted(c.up.sibling, Black);
    assert Balanced(U, h + 1);
    assert Balanced(Painted(Fill(c, s), Black), h + 1);
  }

  lemma RecoloredOrder(c: Context, s: Shape)
    requires c.Down? && c.up.Down? && c.up.sibling.Branch?
    ensures InOrder(Recolored(c, s)) == InOrder(Fill(c.up, Fill(c, s)))
    ensures Nodes(Recolored(c, s)) == Nodes(Fill(c.up, Fill(c, s)))
  {
  }

  // ---------------------------------------------------------------- a black uncle

  /** The node is on the inner side of its parent: after this rotation the parent hangs below it,
      on the outer side. */
  method Straighten(t: Tree, ghost c: Context, ghost s: Shape, p: Node, side: Side)
    requires Zipped(t.mem, t.root, c, s) && s.Branch? && c.Down? && c.up.Down?
    requires side == c.up.side && p == c.node && c.side == side.Other()
    modifies t`root, t`mem
    ensures Zipped(t.mem, t.root, Down(side, s.node, s.color, s.Kid(side.Other()), c.up),
                   Make(p, c.color, side, c.sibling, s.Kid(side)))
    ensures Changes(old(t.mem), t.mem, ContextNodes(c) + Nodes(s))
  {
    ZipUp(t.mem, t.root, c, s);
    t.Rotate(p, side, c.up, Fill(c, s));
    ghost var d := Down(side, s.node, s.color, s.Kid(side.Other()), c.up);
    ghost var r := Make(p, c.color, side, c.sibling, s.Kid(side));
    assert Fill(d, r) == Rotated(Fill(c, s), side);
    ZipUp(t.mem, t.root, d, r);
  }

  /** Parent black, grandparent red, and the parent takes the grandparent's place. */
  ghost function Lifted(c: Context): Context
    requires c.Down? && c.up.Down?
  {
    Down(c.side, c.node, Black, Make(c.up.node, Red, c.side, c.sibling, c.up.sibling), c.up.up)
  }

  method Lift(t: Tree, ghost c: Context, ghost s: Shape, g: Node, p: Node, side: Side)
    requires Zipped(t.mem, t.root, c, s) && c.Down? && c.up.Down?
    requires side == c.side == c.up.side && g == c.up.node && p == c.node
    modifies t`root, t`mem
    ensures Zipped(t.mem, t.root, Lifted(c), s)
    ensures Changes(old(t.mem), t.mem, ContextNodes(c) + Nodes(s))
  {
    ghost var cg, P := c.up.up, Fill(c, s);
    ZipUp(t.mem, t.root, c, s);
    ZipUp(t.mem, t.root, c.up, P);
    t.Paint(g, Red, cg, Fill(c.up, P));
    ghost var cp := Down(side, g, Red, c.up.sibling, cg);
    assert Fill(cp, P) == Painted(Fill(c.up, P), Red);
    ZipUp(t.mem, t.root, cp, P);
    t.Paint(p, Black, cp, P);
    ghost var G := Fill(cp, Painted(P, Black));
    ZipUp(t.mem, t.root, cp, Painted(P, Black));
    t.Rotate(g, side.Other(), cg, G);
    assert Fill(Lifted(c), s) == Rotated(G, side.Other());
    ZipUp(t.mem, t.root, Lifted(c), s);
  }

  lemma LiftedBalanced(c: Context, s: Shape, h: int)
    requires RedPair(c, s, h) && c.up.Down? && RootBlack(c.up.sibling)
    ensures BalancedContext(Lifted(c), h)
  {
    RedPairFamily(c, s, h);
    assert Balanced(Lifted(c).sibling, h);
  }

  lemma LiftedOrder(c: Context, s: Shape)
    requires c.Down? && c.up.Down? && c.side == c.up.side
    ensures InOrder(Fill(Lifted(c), s)) == InOrder(Fill(c.up, Fill(c, s)))
    ensures Nodes(Fill(Lifted(c), s)) == Nodes(Fill(c.up, Fill(c, s)))
  {
  }

  lemma StraightenedBalanced(c: Context, s: Shape, h: int)
    requires RedPair(c, s, h) && c.up.Down? && c.side == c.up.side.Other()
    ensures RedPair(Down(c.up.side, s.node, s.color, s.Kid(c.side), c.up),
                    Make(c.node, c.color, c.up.side, c.sibling, s.Kid(c.up.side)), h)
  {
  }

  // ---------------------------------------------------------------- the loop

  /** The state of the loop: a red node in focus, everything else balanced, order as at the start. */
  ghost predicate Fixing(mem: Memory, root: Node, n: Node, c: Context, s: Shape, h: int, order: seq<Node>,
        nodes: set<Node>) {
    && Zipped(mem, root, c, s)
    && s.Branch? && s.node == n && s.color == Red && Balanced(s, h) && BalancedContext(c, h)
    && InOrder(Plug(c, s)) == order && Nodes(Plug(c, s)) == nodes
  }

  method FixRedUncle(t: Tree, n: Node, g: Node, p: Node, u: Node, ghost c: Context, ghost s: Shape, ghost h: int,
        ghost order: seq<Node>, ghost nodes: set<Node>)
    requires Fixing(t.mem, t.root, n, c, s, h, order, nodes) && c.Down? && c.color == Red
    requires c.up.Down? && c.up.sibling.Branch? && c.up.sibling.color == Red
    requires g == c.up.node && p == c.node && u == c.up.sibling.node
    modifies t`mem
    ensures Fixing(t.mem, t.root, g, c.up.up, Recolored(c, s), h + 1, order, nodes)
    ensures Changes(old(t.mem), t.mem, nodes)
  {
    Recolor(t, c, s, g, p, u);
    RecoloredBalanced(c, s, h);
    RecoloredOrder(c, s);
    SwapInGap(c.up.up, Fill(c.up, Fill(c, s)), Recolored(c, s));
    PlugNodes(c, s);
  }

  method FixBlackUncle(t: Tree, n: Node, g: Node, p: Node, side: Side, ghost c: Context, ghost s: Shape, ghost h: int,
        ghost order: seq<Node>, ghost nodes: set<Node>)
    requires Fixing(t.mem, t.root, n, c, s, h, order, nodes) && c.Down? && c.color == Red
    requires c.up.Down? && RootBlack(c.up.sibling)
    requires g == c.up.node && p == c.node && side == c.up.side == c.side
    modifies t`root, t`mem
    ensures Fixing(t.mem, t.root, n, Lifted(c), s, h, order, nodes)
    ensures Changes(old(t.mem), t.mem, nodes)
  {
    Lift(t, c, s, g, p, side);
    LiftedBalanced(c, s, h);
    LiftedOrder(c, s);
    SwapInGap(c.up.up, Fill(c.up, Fill(c, s)), Fill(Lifted(c), s));
    PlugNodes(c, s);
  }

  method FixInnerNode(t: Tree, n: Node, p: Node, side: Side, ghost c: Context, ghost s: Shape, ghost h: int,
        ghost order: seq<Node>, ghost nodes: set<Node>)
    returns (ghost c': Context, ghost s': Shape)
    requires Fixing(t.mem, t.root, n, c, s, h, order, nodes) && c.Down? && c.color == Red
    requires c.up.Down? && p == c.node && side == c.up.side && c.side == side.Other()
    modifies t`root, t`mem
    ensures Fixing(t.mem, t.root, p, c', s', h, order, nodes)
    ensures c'.Down? && c'.color == Red && c'.node == n && c'.side == side && c'.up == c.up
    ensures Changes(old(t.mem), t.mem, nodes)
  {
    Straighten(t, c, s, p, side);
    StraightenedBalanced(c, s, h);
    c' := Down(side, s.node, s.color, s.Kid(side.Other()), c.up);
    s' := Make(p, c.color, side, c.sibling, s.Kid(side));
    assert Fill(c', s') == Rotated(Fill(c, s), side);
    RotateShape(Top, Fill(c, s), side);
    assert Nodes(Fill(c', s')) == Nodes(Fill(c, s));
    SwapInGap(c.up, Fill(c, s), Fill(c', s'));
    PlugNodes(c, s);
  }

  /** `ss_rbset_fixup`. */
  method Fixup(t: Tree, start: Node, ghost c0: Context, ghost s0: Shape, ghost h0: int)
    requires Fixing(t.mem, t.root, start, c0, s0, h0, InOrder(Plug(c0, s0)), Nodes(Plug(c0, s0)))
    modifies t
    ensures t.Valid()
    ensures InOrder(t.shape) == InOrder(Plug(c0, s0)) && Nodes(t.shape) == Nodes(Plug(c0, s0))
    ensures Changes(old(t.mem), t.mem, Nodes(t.shape))
  {
    ghost var order, nodes := InOrder(Plug(c0, s0)), Nodes(Plug(c0, s0));
    var n := start;
    ghost var c, s, h := c0, s0, h0;
    Surroundings(t.mem, t.root, c, s);
    while t.mem[n].p != NULL && t.mem[t.mem[n].p].color == Red
      invariant Fixing(t.mem, t.root, n, c, s, h, order, nodes)
      invariant n in t.mem && t.mem[n].p == ParentOf(c)
      invariant c.Down? ==> c.node != NULL && c.node in t.mem && t.mem[c.node].color == c.color
      invariant Changes(old(t.mem), t.mem, nodes)
      decreases Depth(c)
    {
      n, c, s, h := FixOnce(t, n, c, s, h, order, nodes);
      Surroundings(t.mem, t.root, c, s);
    }
    PaintRoot(t, c, s, h);
    PlugNodes(c, s);
  }

  /** One turn of the loop: the uncle decides. */
  method FixOnce(t: Tree, start: Node, ghost c0: Context, ghost s0: Shape, ghost h0: int, ghost order: seq<Node>,
        ghost nodes: set<Node>)
    returns (n: Node, ghost c: Context, ghost s: Shape, ghost h: int)
    requires Fixing(t.mem, t.root, start, c0, s0, h0, order, nodes) && c0.Down? && c0.color == Red
    modifies t`root, t`mem
    ensures Fixing(t.mem, t.root, n, c, s, h, order, nodes) && Depth(c) < Depth(c0)
    ensures Changes(old(t.mem), t.mem, nodes)
  {
    n, c, s, h := start, c0, s0, h0;
    RedPairFamily(c, s, h);
    Surroundings(t.mem, t.root, c, s);
    ZipUp(t.mem, t.root, c, s);
    Surroundings(t.mem, t.root, c.up, Fill(c, s));
    var p := t.mem[n].p;
    var g := t.mem[p].p;
    var side := if p == t.mem[g].l then L else R;
    assert side == c.up.side;
    var u := t.mem[g].Kid(side.Other());
    if u != NULL && t.mem[u].color == Red {
      FixRedUncle(t, n, g, p, u, c, s, h, order, nodes);
      n, c, s, h := g, c.up.up, Recolored(c, s), h + 1;
    } else {
      if n == t.mem[p].Kid(side.Other()) {
        c, s := FixInnerNode(t, n, p, side, c, s, h, order, nodes);
        n, p := p, n;
      }
      FixBlackUncle(t, n, g, p, side, c, s, h, order, nodes);
      c := Lifted(c);
    }
  }

  /** The last statement of the fixup: the root becomes black. */
  method PaintRoot(t: Tree, ghost c: Context, ghost s: Shape, ghost h: int)
    requires Zipped(t.mem, t.root, c, s) && s.Branch?
    requires Balanced(s, h) && BalancedContext(c, h) && (c.Top? || AcceptsRed(c))
    modifies t
    ensures t.Valid()
    ensures InOrder(t.shape) == InOrder(Plug(c, s)) && Nodes(t.shape) == Nodes(Plug(c, s))
    ensures Changes(old(t.mem), t.mem, Nodes(t.shape))
  {
    ghost var whole := Plug(c, s);
    ZippedPlug(t.mem, t.root, c, s);
    if c.Top? {
      assert Balanced(Painted(s, Black), if s.color == Black then h else h + 1);
    } else {
      PlugBalanced(c, s, h);
      PlugNodes(c, s);
      assert whole == Painted(whole, Black);
    }
    t.Paint(t.root, Black, Top, whole);
    t.shape := Painted(whole, Black);
    RepaintOrder(whole, Black);
  }

  // ---------------------------------------------------------------- insertion

  /** The comparison result `prel` says on which side of the parent the key belongs. */
  function SideOf(prel: int): Side {
    if prel > 0 then L else R
  }

  /** `after` is `before` with `n` put next to `p`, directly before it or directly after it. */
  ghost predicate PutBeside(before: seq<Node>, after: seq<Node>, p: Node, n: Node, side: Side) {
    exists a: seq<Node>, b: seq<Node> ::
      before == a + [p] + b && after == if side.L? then a + [n] + [p] + b else a + [p] + [n] + b
  }

  method LinkLeaf(t: Tree, p: Node, side: Side, n: Node, ghost c: Context)
    requires Zipped(t.mem, t.root, c, Leaf) && p == ParentOf(c) && (c.Down? ==> side == c.side)
    requires n != NULL && n in t.mem && n !in ContextNodes(c)
    modifies t`root, t`mem
    ensures Zipped(t.mem, t.root, c, Branch(n, Red, Leaf, Leaf))
    ensures Changes(old(t.mem), t.mem, {n} + ParentSet(c))
  {
    Surroundings(t.mem, t.root, c, Leaf);
    t.mem := t.mem[n := Cell(p, NULL, NULL, Red)];
    KeptContext(old(t.mem), t.mem, c, NULL, {n});
    ghost var m := t.mem;
    if p != NULL {
      t.mem := t.mem[p := t.mem[p].WithKid(side, n)];
    } else {
      t.root := n;
    }
    Refilled(m, t.mem, c, NULL, n);
  }

  lemma PutBefore(a: seq<Node>, p: Node, s: seq<Node>, d: seq<Node>, n: Node)
    ensures PutBeside(a + [] + ([p] + s + d), a + [n] + ([p] + s + d), p, n, L)
  {
    var b := s + d;
    assert a + [] + ([p] + s + d) == a + [p] + b;
    assert a + [n] + ([p] + s + d) == a + [n] + [p] + b;
  }

  lemma PutAfter(a: seq<Node>, s: seq<Node>, p: Node, d: seq<Node>, n: Node)
    ensures PutBeside((a + s + [p]) + [] + d, (a + s + [p]) + [n] + d, p, n, R)
  {
  }

  lemma PutBesideContext(c: Context, n: Node)
    requires c.Down?
    ensures PutBeside(InOrder(Plug(c, Leaf)), InOrder(Plug(c, Branch(n, Red, Leaf, Leaf))), c.node, n, c.side)
  {
    PlugOrder(c, Leaf);
    PlugOrder(c, Branch(n, Red, Leaf, Leaf));
    assert InOrder(Branch(n, Red, Leaf, Leaf)) == [n];
    if c.side.L? {
      PutBefore(Before(c), c.node, InOrder(c.sibling), After(c.up), n);
    } else {
      PutAfter(Before(c.up), InOrder(c.sibling), c.node, After(c), n);
    }
  }

  /** The gap below `p` on a side where it has no child. */
  lemma GapBelow(mem: Memory, root: Node, shape: Shape, p: Node, side: Side) returns (c: Context)
    requires Zipped(mem, root, Top, shape) && p in Nodes(shape) && p in mem && mem[p].Kid(side) == NULL
    ensures c.Down? && c.node == p && c.side == side && Plug(c, Leaf) == shape && Zipped(mem, root, c, Leaf)
  {
    var d, q := Focus(Top, shape, p);
    ZippedPlug(mem, root, d, q);
    Children(mem, q, ParentOf(d));
    c := Down(side, p, q.color, q.Kid(side.Other()), d);
    assert q.Kid(side) == Leaf;
    assert Fill(c, Leaf) == q;
    ZipUp(mem, root, c, Leaf);
  }

  /** `ss_rbset`: the tree stays a red-black tree, gains exactly the new node, and has it next to
      the given parent; the cells of nodes outside the tree are not touched. */
  method Set(t: Tree, p: Node, prel: int, n: Node)
    requires t.Valid() && n != NULL && n in t.mem && n !in Nodes(t.shape)
    requires if p == NULL then t.shape.Leaf?
             else prel != 0 && p in Nodes(t.shape) && p in t.mem && t.mem[p].Kid(SideOf(prel)) == NULL
    modifies t
    ensures t.Valid()
    ensures p == NULL ==> InOrder(t.shape) == [n]
    ensures p != NULL ==> PutBeside(old(InOrder(t.shape)), InOrder(t.shape), p, n, SideOf(prel))
    ensures Nodes(t.shape) == old(Nodes(t.shape)) + {n} && Changes(old(t.mem), t.mem, Nodes(t.shape))
  {
    ghost var c := Top;
    if p != NULL {
      c := GapBelow(t.mem, t.root, t.shape, p, SideOf(prel));
      PutBesideContext(c, n);
    }
    PlugNodes(c, Leaf);
    LinkLeaf(t, p, SideOf(prel), n, c);
    ghost var s := Branch(n, Red, Leaf, Leaf);
    ghost var h := UnplugBalanced(c, Leaf);
    PlugNodes(c, s);
    Fixup(t, n, c, s, h);
  }
}
