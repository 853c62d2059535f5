/** `ss_rbremove`: unlinking a node and restoring the black heights. */
module RbRemove {
  import opened RbShape
  import opened RbTree

  // ---------------------------------------------------------------- the four sibling cases

  /** The gap lacks one black node: what fills it is one short, and its root is black. */
  ghost predicate Short(c: Context, s: Shape, h: int) {
    BalancedContext(c, h + 1) && Balanced(s, h) && RootBlack(s)
  }

  lemma SiblingExists(c: Context, s: Shape, h: int)
    requires Short(c, s, h) && c.Down?
    ensures c.sibling.Branch? && Balanced(c.sibling, h + 1) && BalancedContext(c.up, h + 1 + Rank(c.color))
  {
    BlackHeightBounds(s, h);
  }

  /** Paint the sibling, which hangs below `p` beside the gap. */
  method PaintSibling(t: Tree, x: Node, color: Color, ghost c: Context, ghost s: Shape)
    requires Zipped(t.mem, t.root, c, s) && c.Down? && c.sibling.Branch? && x == c.sibling.node
    modifies t`mem
    ensures Zipped(t.mem, t.root, c.(sibling := Painted(c.sibling, color)), s)
    ensures Changes(old(t.mem), t.mem, ContextNodes(c))
  {
    ghost var d := Down(c.side.Other(), c.node, c.color, s, c.up);
    ghost var e := c.(sibling := Painted(c.sibling, color));
    ZipUp(t.mem, t.root, c, s);
    assert Fill(d, c.sibling) == Fill(c, s);
    ZipUp(t.mem, t.root, d, c.sibling);
    t.Paint(x, color, d, c.sibling);
    ZipUp(t.mem, t.root, d, Painted(c.sibling, color));
    assert Fill(d, Painted(c.sibling, color)) == Fill(e, s);
    ZipUp(t.mem, t.root, e, s);
  }

  method PaintParent(t: Tree, p: Node, color: Color, ghost c: Context, ghost s: Shape)
    requires Zipped(t.mem, t.root, c, s) && c.Down? && p == c.node
    modifies t`mem
    ensures Zipped(t.mem, t.root, c.(color := color), s)
    ensures Changes(old(t.mem), t.mem, ContextNodes(c))
  {
    ghost var e := c.(color := color);
    ZipUp(t.mem, t.root, c, s);
    t.Paint(p, color, c.up, Fill(c, s));
    assert Painted(Fill(c, s), color) == Fill(e, s);
    ZipUp(t.mem, t.root, e, s);
  }

  /** The sibling moves up, over `p`, away from the gap. */
  ghost function SiblingUp(c: Context): Context
    requires c.Down? && c.sibling.Branch?
  {
    Down(c.side, c.node, c.color, c.sibling.Kid(c.side),
         Down(c.side, c.sibling.node, c.sibling.color, c.sibling.Kid(c.side.Other()), c.up))
  }

  lemma SiblingUpShape(c: Context, s: Shape)
    requires c.Down? && c.sibling.Branch?
    ensures Plug(SiblingUp(c), s) == Plug(c.up, Rotated(Fill(c, s), c.side))
    ensures InOrder(Plug(SiblingUp(c), s)) == InOrder(Plug(c, s))
    ensures DistinctPair(c, s) ==> Nodes(Plug(SiblingUp(c), s)) == Nodes(Plug(c, s))
  {
    var e := SiblingUp(c);
    assert Fill(e.up, Fill(e, s)) == Rotated(Fill(c, s), c.side);
    assert Plug(e, s) == Plug(e.up, Fill(e, s)) == Plug(e.up.up, Fill(e.up, Fill(e, s)));
    RotateShape(c.up, Fill(c, s), c.side);
    PlugOrder(c.up, Fill(c, s));
    PlugOrder(c.up, Rotated(Fill(c, s), c.side));
    PlugNodes(c.up, Fill(c, s));
    PlugNodes(c.up, Rotated(Fill(c, s), c.side));
  }

  method RotateParent(t: Tree, p: Node, side: Side, ghost c: Context, ghost s: Shape)
    requires Zipped(t.mem, t.root, c, s) && c.Down? && c.sibling.Branch? && p == c.node && side == c.side
    modifies t`root, t`mem
    ensures Zipped(t.mem, t.root, SiblingUp(c), s)
    ensures Changes(old(t.mem), t.mem, ContextNodes(c) + Nodes(s))
  {
    ghost var e := SiblingUp(c);
    ZipUp(t.mem, t.root, c, s);
    t.Rotate(p, side, c.up, Fill(c, s));
    assert Fill(e.up, Fill(e, s)) == Rotated(Fill(c, s), side);
    ZipUp(t.mem, t.root, e.up, Fill(e, s));
    ZipUp(t.mem, t.root, e, s);
  }

  /** The nephew nearest to the gap moves up, over the sibling. */
  ghost function NephewUp(c: Context): Context
    requires c.Down? && c.sibling.Branch? && c.sibling.Kid(c.side).Branch?
  {
    c.(sibling := Rotated(c.sibling, c.side.Other()))
  }

  lemma NephewUpShape(c: Context, s: Shape)
    requires c.Down? && c.sibling.Branch? && c.sibling.Kid(c.side).Branch? && DistinctPair(c, s)
    ensures InOrder(Plug(NephewUp(c), s)) == InOrder(Plug(c, s))
    ensures Nodes(Plug(NephewUp(c), s)) == Nodes(Plug(c, s))
  {
    RotateShape(Top, c.sibling, c.side.Other());
    SwapInGap(c.up, Fill(c, s), Fill(NephewUp(c), s));
  }

  method RotateSibling(t: Tree, x: Node, side: Side, ghost c: Context, ghost s: Shape)
    requires Zipped(t.mem, t.root, c, s) && c.Down? && c.sibling.Branch? && c.sibling.Kid(c.side).Branch?
    requires x == c.sibling.node && side == c.side
    modifies t`root, t`mem
    ensures Zipped(t.mem, t.root, NephewUp(c), s)
    ensures Changes(old(t.mem), t.mem, ContextNodes(c) + Nodes(s))
  {
    ghost var d, e := Down(side.Other(), c.node, c.color, s, c.up), NephewUp(c);
    ZipUp(t.mem, t.root, c, s);
    assert Fill(d, c.sibling) == Fill(c, s);
    ZipUp(t.mem, t.root, d, c.sibling);
    t.Rotate(x, side.Other(), d, c.sibling);
    ZipUp(t.mem, t.root, d, e.sibling);
    assert Fill(d, e.sibling) == Fill(e, s);
    ZipUp(t.mem, t.root, e, s);
  }

  /** Paint the nephew on one side. */
  method PaintNephew(t: Tree, x: Node, color: Color, which: Side, ghost c: Context, ghost s: Shape)
    requires Zipped(t.mem, t.root, c, s) && c.Down? && c.sibling.Branch?
    requires c.sibling.Kid(which).Branch? && x == c.sibling.Kid(which).node
    modifies t`mem
    ensures Zipped(t.mem, t.root, c.(sibling := PaintedKid(c.sibling, which, color)), s)
    ensures Changes(old(t.mem), t.mem, ContextNodes(c))
  {
    ghost var S := c.sibling;
    ghost var d := Down(c.side.Other(), c.node, c.color, s, c.up);
    ghost var k := Down(which, S.node, S.color, S.Kid(which.Other()), d);
    ghost var e := c.(sibling := PaintedKid(S, which, color));
    ZipUp(t.mem, t.root, c, s);
    assert Fill(d, S) == Fill(c, s);
    ZipUp(t.mem, t.root, d, S);
    assert Fill(k, S.Kid(which)) == S;
    ZipUp(t.mem, t.root, k, S.Kid(which));
    t.Paint(x, color, k, S.Kid(which));
    ZipUp(t.mem, t.root, k, Painted(S.Kid(which), color));
    assert Fill(k, Painted(S.Kid(which), color)) == e.sibling;
    ZipUp(t.mem, t.root, d, e.sibling);
    assert Fill(d, e.sibling) == Fill(e, s);
    ZipUp(t.mem, t.root, e, s);
  }

  ghost function PaintedKid(s: Shape, which: Side, color: Color): Shape
    requires s.Branch? && s.Kid(which).Branch?
  {
    Make(s.node, s.color, which, Painted(s.Kid(which), color), s.Kid(which.Other()))
  }

  // ---------------------------------------------------------------- the loop

  /** The tree in focus has the order and the nodes it had at the start. */
  ghost predicate Keeps(c: Context, s: Shape, order: seq<Node>, nodes: set<Node>) {
    InOrder(Plug(c, s)) == order && Nodes(Plug(c, s)) == nodes
  }

  ghost predicate Mending(mem: Memory, root: Node, c: Context, s: Shape, h: int, order: seq<Node>, nodes: set<Node>) {
    Zipped(mem, root, c, s) && Short(c, s, h) && Keeps(c, s, order, nodes)
  }

  /** Colours do not matter for the order. */
  lemma KeepsPainted(c: Context, d: Context, s: Shape, order: seq<Node>, nodes: set<Node>)
    requires c.Down? && d.Down? && d.side == c.side && d.node == c.node && d.up == c.up
    requires InOrder(d.sibling) == InOrder(c.sibling) && Nodes(d.sibling) == Nodes(c.sibling)
    requires Keeps(c, s, order, nodes)
    ensures Keeps(d, s, order, nodes)
  {
    SwapInGap(c.up, Fill(c, s), Fill(d, s));
  }

  lemma PaintedKidOrder(s: Shape, which: Side, color: Color)
    requires s.Branch? && s.Kid(which).Branch?
    ensures InOrder(PaintedKid(s, which, color)) == InOrder(s) && Nodes(PaintedKid(s, which, color)) == Nodes(s)
  {
  }

  /** A red sibling: afterwards the sibling is black. */
  method MendRedSibling(t: Tree, p: Node, x: Node, side: Side, ghost c: Context, ghost s: Shape, ghost h: int,
        ghost order: seq<Node>, ghost nodes: set<Node>)
    returns (ghost d: Context)
    requires Mending(t.mem, t.root, c, s, h, order, nodes) && c.Down? && c.sibling.Branch? && c.sibling.color == Red
    requires p == c.node && x == c.sibling.node && side == c.side
    modifies t`root, t`mem
    ensures Mending(t.mem, t.root, d, s, h, order, nodes)
    ensures d.Down? && d.side == side && d.node == p && d.color == Red && d.sibling.Branch? && d.sibling.color == Black
    ensures Changes(old(t.mem), t.mem, nodes)
  {
    PlugNodes(c, s);
    SiblingExists(c, s, h);
    PaintSibling(t, x, Black, c, s);
    ghost var c1 := c.(sibling := Painted(c.sibling, Black));
    PaintParent(t, p, Red, c1, s);
    ghost var c2 := c1.(color := Red);
    RepaintOrder(c.sibling, Black);
    KeepsPainted(c, c2, s, order, nodes);
    PlugNodes(c2, s);
    SiblingUpShape(c2, s);
    RotateParent(t, p, side, c2, s);
    d := SiblingUp(c2);
    RedSiblingBalanced(c, s, h, d);
  }

  lemma RedSiblingBalanced(c: Context, s: Shape, h: int, d: Context)
    requires Short(c, s, h) && c.Down? && c.sibling.Branch? && c.sibling.color == Red
    requires d == Down(c.side, c.node, Red, c.sibling.Kid(c.side),
                       Down(c.side, c.sibling.node, Black, c.sibling.Kid(c.side.Other()), c.up))
    ensures Short(d, s, h) && d.sibling.Branch? && d.sibling.color == Black
  {
    SiblingExists(c, s, h);
    assert BalancedContext(d.up, h + 1);
    SiblingExists(d, s, h);
  }

  /** Both nephews black: the sibling turns red and the shortage moves up to `p`. */
  method MendBlackNephews(t: Tree, x: Node, ghost c: Context, ghost s: Shape, ghost h: int, ghost order: seq<Node>,
        ghost nodes: set<Node>)
    returns (ghost r: Shape)
    requires Mending(t.mem, t.root, c, s, h, order, nodes) && c.Down? && c.sibling.Branch? && x == c.sibling.node
    requires c.sibling.color == Black && RootBlack(c.sibling.left) && RootBlack(c.sibling.right)
    modifies t`mem
    ensures Zipped(t.mem, t.root, c.up, r) && Keeps(c.up, r, order, nodes) && r.Branch? && r.node == c.node
        && r.color == c.color
    ensures c.color == Black ==> Short(c.up, r, h + 1)
    ensures c.color == Red ==> BalancedContext(c.up, h + 1) && Balanced(Painted(r, Black), h + 1)
    ensures Changes(old(t.mem), t.mem, nodes)
  {
    PlugNodes(c, s);
    PaintSibling(t, x, Red, c, s);
    ghost var d := c.(sibling := Painted(c.sibling, Red));
    RepaintOrder(c.sibling, Red);
    KeepsPainted(c, d, s, order, nodes);
    ZipUp(t.mem, t.root, d, s);
    r := Fill(d, s);
    BlackNephewsBalanced(c, s, h, r);
  }

  lemma BlackNephewsBalanced(c: Context, s: Shape, h: int, r: Shape)
    requires Short(c, s, h) && c.Down? && c.sibling.Branch?
    requires c.sibling.color == Black && RootBlack(c.sibling.left) && RootBlack(c.sibling.right)
    requires r == Fill(c.(sibling := Painted(c.sibling, Red)), s)
    ensures c.color == Black ==> Short(c.up, r, h + 1)
    ensures c.color == Red ==> BalancedContext(c.up, h + 1) && Balanced(Painted(r, Black), h + 1)
  {
  }

  /** Only the nephew near the gap is red: it becomes the sibling. */
  method MendNearNephew(t: Tree, x: Node, near: Node, side: Side, ghost c: Context, ghost s: Shape, ghost h: int,
        ghost order: seq<Node>, ghost nodes: set<Node>)
    returns (ghost d: Context)
    requires Mending(t.mem, t.root, c, s, h, order, nodes) && c.Down? && side == c.side
    requires c.sibling.Branch? && x == c.sibling.node && c.sibling.color == Black
        && RootBlack(c.sibling.Kid(side.Other()))
    requires c.sibling.Kid(side).Branch? && near == c.sibling.Kid(side).node && c.sibling.Kid(side).color == Red
    modifies t`root, t`mem
    ensures Mending(t.mem, t.root, d, s, h, order, nodes)
    ensures d.Down? && d.side == side && d.node == c.node && d.color == c.color && d.up == c.up
        && d.sibling.Branch? && d.sibling.color == Black
    ensures d.sibling.Kid(side.Other()).Branch? && d.sibling.Kid(side.Other()).color == Red
    ensures Changes(old(t.mem), t.mem, nodes)
  {
    ghost var c2 := SwapColors(t, x, near, side, c, s, order, nodes);
    PlugNodes(c2, s);
    NephewUpShape(c2, s);
    RotateSibling(t, x, side, c2, s);
    d := NephewUp(c2);
    NearNephewShort(c, s, h, d);
  }

  lemma NearNephewShort(c: Context, s: Shape, h: int, d: Context)
    requires Short(c, s, h) && c.Down? && c.sibling.Branch? && c.sibling.color == Black
        && RootBlack(c.sibling.Kid(c.side.Other()))
    requires c.sibling.Kid(c.side).Branch? && c.sibling.Kid(c.side).color == Red
    requires d == c.(sibling := Rotated(Painted(PaintedKid(c.sibling, c.side, Black), Red), c.side.Other()))
    ensures Short(d, s, h) && d.sibling.Branch? && d.sibling.color == Black
    ensures d.sibling.Kid(c.side.Other()).Branch? && d.sibling.Kid(c.side.Other()).color == Red
  {
    SiblingExists(c, s, h);
    NearNephewBalanced(c.sibling, c.side, h + 1, d.sibling);
  }

  /** The near nephew black and the sibling red, before the rotation. */
  method SwapColors(t: Tree, x: Node, near: Node, side: Side, ghost c: Context, ghost s: Shape,
        ghost order: seq<Node>, ghost nodes: set<Node>)
    returns (ghost d: Context)
    requires Zipped(t.mem, t.root, c, s) && Keeps(c, s, order, nodes) && c.Down? && side == c.side
    requires c.sibling.Branch? && x == c.sibling.node && c.sibling.Kid(side).Branch? && near == c.sibling.Kid(side).node
    modifies t`mem
    ensures d == c.(sibling := Painted(PaintedKid(c.sibling, side, Black), Red))
    ensures Zipped(t.mem, t.root, d, s) && Keeps(d, s, order, nodes)
    ensures Changes(old(t.mem), t.mem, nodes)
  {
    PlugNodes(c, s);
    PaintNephew(t, near, Black, side, c, s);
    ghost var c1 := c.(sibling := PaintedKid(c.sibling, side, Black));
    PaintedKidOrder(c.sibling, side, Black);
    KeepsPainted(c, c1, s, order, nodes);
    PlugNodes(c1, s);
    PaintSibling(t, x, Red, c1, s);
    RepaintOrder(c1.sibling, Red);
    d := c1.(sibling := Painted(c1.sibling, Red));
    KeepsPainted(c1, d, s, order, nodes);
  }

  lemma NearNephewBalanced(S: Shape, side: Side, h: int, r: Shape)
    requires S.Branch? && S.color == Black && Balanced(S, h) && RootBlack(S.Kid(side.Other()))
    requires S.Kid(side).Branch? && S.Kid(side).color == Red
    requires r == Rotated(Painted(PaintedKid(S, side, Black), Red), side.Other())
    ensures Balanced(r, h) && r.color == Black && r.Kid(side.Other()).Branch? && r.Kid(side.Other()).color == Red
  {
  }

  /** The nephew away from the gap is red: one rotation ends the repair. */
  method MendFarNephew(t: Tree, p: Node, x: Node, far: Node, side: Side, ghost c: Context, ghost s: Shape,
        ghost h: int, ghost order: seq<Node>, ghost nodes: set<Node>)
    returns (ghost d: Context)
    requires Mending(t.mem, t.root, c, s, h, order, nodes) && c.Down? && side == c.side && p == c.node
    requires c.sibling.Branch? && x == c.sibling.node && c.sibling.color == Black
    requires c.sibling.Kid(side.Other()).Branch? && far == c.sibling.Kid(side.Other()).node
        && c.sibling.Kid(side.Other()).color == Red
    modifies t`root, t`mem
    ensures Zipped(t.mem, t.root, d, s) && Keeps(d, s, order, nodes) && BalancedContext(d, h) && d.Down?
    ensures Changes(old(t.mem), t.mem, nodes)
  {
    PlugNodes(c, s);
    Surroundings(t.mem, t.root, c, s);
    var color := t.mem[p].color;
    PaintSibling(t, x, color, c, s);
    ghost var c1 := c.(sibling := Painted(c.sibling, color));
    RepaintOrder(c.sibling, color);
    PaintParent(t, p, Black, c1, s);
    ghost var c2 := c1.(color := Black);
    KeepsPainted(c, c2, s, order, nodes);
    PlugNodes(c1, s);
    PlugNodes(c2, s);
    PaintNephew(t, far, Black, side.Other(), c2, s);
    ghost var c3 := c2.(sibling := PaintedKid(c2.sibling, side.Other(), Black));
    PaintedKidOrder(c2.sibling, side.Other(), Black);
    KeepsPainted(c2, c3, s, order, nodes);
    PlugNodes(c3, s);
    SiblingUpShape(c3, s);
    RotateParent(t, p, side, c3, s);
    d := SiblingUp(c3);
    FarNephewBalanced(c, s, h, d);
  }

  lemma FarNephewBalanced(c: Context, s: Shape, h: int, d: Context)
    requires Short(c, s, h) && c.Down? && c.sibling.Branch? && c.sibling.color == Black
    requires c.sibling.Kid(c.side.Other()).Branch? && c.sibling.Kid(c.side.Other()).color == Red
    requires d == Down(c.side, c.node, Black, c.sibling.Kid(c.side),
                       Down(c.side, c.sibling.node, c.color, Painted(c.sibling.Kid(c.side.Other()), Black), c.up))
    ensures BalancedContext(d, h)
  {
    SiblingExists(c, s, h);
    assert Balanced(c.sibling.Kid(c.side.Other()), h);
    assert Balanced(d.up.sibling, h + 1);
    assert BalancedContext(d.up, h + 1);
  }

  /** The loop is over: once `n`, the focus, is black, nothing is left to repair. */
  ghost predicate Mended(mem: Memory, root: Node, n: Node, c: Context, s: Shape, order: seq<Node>, nodes: set<Node>) {
    && Zipped(mem, root, c, s) && Keeps(c, s, order, nodes) && n == RootOf(s)
    && RedBlack(Plug(c, if s.Leaf? then s else Painted(s, Black)))
  }

  lemma MendedAtTop(mem: Memory, root: Node, s: Shape, h: int, order: seq<Node>, nodes: set<Node>)
    requires Mending(mem, root, Top, s, h, order, nodes)
    ensures Mended(mem, root, root, Top, s, order, nodes)
  {
  }

  lemma MendedByRotation(mem: Memory, root: Node, c: Context, s: Shape, h: int, order: seq<Node>, nodes: set<Node>)
    requires Zipped(mem, root, c, s) && Keeps(c, s, order, nodes) && c.Down?
    requires BalancedContext(c, h) && Balanced(s, h) && RootBlack(s)
    ensures Mended(mem, root, root, Top, Plug(c, s), order, nodes)
  {
    PlugBalanced(c, s, h);
    ZippedPlug(mem, root, c, s);
    var w := Plug(c, s);
    assert w.Branch? ==> Painted(w, Black) == w;
  }

  lemma MendedByRedParent(mem: Memory, root: Node, c: Context, s: Shape, h: int, order: seq<Node>, nodes: set<Node>)
    requires Zipped(mem, root, c, s) && Keeps(c, s, order, nodes) && s.Branch?
    requires BalancedContext(c, h) && Balanced(Painted(s, Black), h)
    ensures Mended(mem, root, s.node, c, s, order, nodes)
  {
    PlugBalanced(c, Painted(s, Black), h);
  }

  /** One of the nephews is red: a rotation or two end the shortage. */
  method MendRedNephew(t: Tree, p0: Node, x0: Node, near: Node, far0: Node, side: Side, ghost c0: Context,
        ghost s: Shape, ghost h: int, ghost order: seq<Node>, ghost nodes: set<Node>)
    returns (ghost r: Shape)
    requires Mending(t.mem, t.root, c0, s, h, order, nodes) && c0.Down? && p0 == c0.node && side == c0.side
    requires c0.sibling.Branch? && c0.sibling.color == Black && x0 == c0.sibling.node
    requires near == RootOf(c0.sibling.Kid(side)) && far0 == RootOf(c0.sibling.Kid(side.Other()))
    requires far0 != NULL ==> far0 in t.mem
    requires far0 == NULL || t.mem[far0].color == Black <==> RootBlack(c0.sibling.Kid(side.Other()))
    requires RootBlack(c0.sibling.Kid(side.Other())) ==> !RootBlack(c0.sibling.Kid(side))
    requires forall k: Side :: c0.sibling.Kid(k).Branch? ==> c0.sibling.Kid(k).color != Undef
    modifies t`root, t`mem
    ensures Mended(t.mem, t.root, t.root, Top, r, order, nodes)
    ensures Changes(old(t.mem), t.mem, nodes)
  {
    var x, far := x0, far0;
    ghost var c := c0;
    if far == NULL || t.mem[far].color == Black {
      c := MendNearNephew(t, x, near, side, c, s, h, order, nodes);
      NephewCells(t.mem, t.root, c, s);
      x := t.mem[p0].Kid(side.Other());
      far := t.mem[x].Kid(side.Other());
    }
    c := MendFarNephew(t, p0, x, far, side, c, s, h, order, nodes);
    MendedByRotation(t.mem, t.root, c, s, h, order, nodes);
    r := Plug(c, s);
  }

  /** The nephews, once the sibling is black. The loop goes on only when the shortage moved up. */
  method MendNephews(t: Tree, p0: Node, side: Side, ghost c0: Context, ghost s0: Shape, ghost h0: int,
        ghost order: seq<Node>, ghost nodes: set<Node>)
    returns (more: bool, n: Node, ghost c: Context, ghost s: Shape, ghost h: int)
    requires Mending(t.mem, t.root, c0, s0, h0, order, nodes) && c0.Down? && c0.sibling.Branch?
        && c0.sibling.color == Black
    requires p0 == c0.node && side == c0.side
    modifies t`root, t`mem
    ensures more ==> c0.color == Black && c == c0.up && n == RootOf(s) != NULL
                     && Mending(t.mem, t.root, c, s, h, order, nodes)
    ensures !more ==> Mended(t.mem, t.root, n, c, s, order, nodes)
    ensures Changes(old(t.mem), t.mem, nodes)
  {
    c, s, h := c0, s0, h0;
    NephewCells(t.mem, t.root, c, s);
    NephewColors(c, s, h);
    var x := t.mem[p0].Kid(side.Other());
    var near, far := t.mem[x].Kid(side), t.mem[x].Kid(side.Other());
    if (near == NULL || t.mem[near].color == Black) && (far == NULL || t.mem[far].color == Black) {
      s := MendBlackNephews(t, x, c, s, h, order, nodes);
      c, n := c.up, p0;
      Surroundings(t.mem, t.root, c, s);
      more := t.mem[n].color == Black;
      if more {
        h := h + 1;
      } else {
        MendedByRedParent(t.mem, t.root, c, s, h + 1, order, nodes);
      }
      return;
    }
    s := MendRedNephew(t, p0, x, near, far, side, c, s, h, order, nodes);
    more, n, c := false, t.root, Top;
  }

  lemma NephewCells(mem: Memory, root: Node, c: Context, s: Shape)
    requires Zipped(mem, root, c, s) && c.Down? && c.sibling.Branch?
    ensures c.node in mem && mem[c.node].Kid(c.side) == RootOf(s) && mem[c.node].Kid(c.side.Other()) == c.sibling.node
    ensures c.sibling.node in mem && mem[c.sibling.node].color == c.sibling.color && RootOf(s) != c.sibling.node
    ensures forall side: Side :: mem[c.sibling.node].Kid(side) == RootOf(c.sibling.Kid(side))
    ensures forall side: Side :: c.sibling.Kid(side).Branch? ==>
      var k := c.sibling.Kid(side); k.node != NULL && k.node in mem && mem[k.node].color == k.color
  {
    Surroundings(mem, root, c, s);
    Children(mem, c.sibling, c.node);
  }

  lemma NephewColors(c: Context, s: Shape, h: int)
    requires Short(c, s, h) && c.Down? && c.sibling.Branch?
    ensures forall side: Side :: c.sibling.Kid(side).Branch? ==> c.sibling.Kid(side).color != Undef
  {
    SiblingExists(c, s, h);
    assert Balanced(c.sibling.left, h + 1 - Rank(c.sibling.color));
    assert Balanced(c.sibling.right, h + 1 - Rank(c.sibling.color));
  }

  lemma {:induction false} RootInContext(mem: Memory, root: Node, c: Context, s: Shape)
    requires Zipped(mem, root, c, s)
    ensures c.Top? <==> root == RootOf(s)
  {
    if c.Down? {
      TopInContext(mem, c, RootOf(s));
    }
  }

  lemma {:induction false} TopInContext(mem: Memory, c: Context, hole: Node)
    requires c.Down? && LinkedContext(mem, c, hole)
    ensures TopOf(c, hole) in ContextNodes(c) && TopOf(c, hole) != NULL
    decreases c
  {
    if c.up.Down? {
      TopInContext(mem, c.up, c.node);
    }
  }

  /** One turn of the loop, away from the root. */
  method MendOnce(t: Tree, n0: Node, p0: Node, ghost c0: Context, ghost s0: Shape, ghost h0: int,
        ghost order: seq<Node>, ghost nodes: set<Node>)
    returns (more: bool, n: Node, p: Node, ghost c: Context, ghost s: Shape, ghost h: int)
    requires Mending(t.mem, t.root, c0, s0, h0, order, nodes) && c0.Down? && n0 == RootOf(s0) && p0 == c0.node
    modifies t`root, t`mem
    ensures more ==> Depth(c) < Depth(c0) && n == RootOf(s) && p == ParentOf(c)
                     && Mending(t.mem, t.root, c, s, h, order, nodes)
    ensures !more ==> Mended(t.mem, t.root, n, c, s, order, nodes)
    ensures Changes(old(t.mem), t.mem, nodes)
  {
    c, s, h := c0, s0, h0;
    SiblingExists(c, s, h);
    NephewCells(t.mem, t.root, c, s);
    var side := if n0 == t.mem[p0].l then L else R;
    assert side == c.side;
    var x := t.mem[p0].Kid(side.Other());
    if t.mem[x].color == Red {
      c := MendRedSibling(t, p0, x, side, c, s, h, order, nodes);
    }
    more, n, c, s, h := MendNephews(t, p0, side, c, s, h, order, nodes);
    p := NULL;
    if more {
      Surroundings(t.mem, t.root, c, s);
      p := t.mem[n].p;
    }
  }

  /** The do-while loop of `ss_rbremove` and the statement after it. `n0` may be no node. */
  method Mend(t: Tree, n0: Node, p0: Node, ghost c0: Context, ghost s0: Shape, ghost h0: int, ghost order: seq<Node>,
        ghost nodes: set<Node>)
    requires Mending(t.mem, t.root, c0, s0, h0, order, nodes) && n0 == RootOf(s0) && p0 == ParentOf(c0)
    modifies t
    ensures t.Valid() && InOrder(t.shape) == order && Nodes(t.shape) == nodes
    ensures Changes(old(t.mem), t.mem, nodes)
  {
    var n, p, more := n0, p0, true;
    ghost var c, s, h := c0, s0, h0;
    while more
      invariant more ==> Mending(t.mem, t.root, c, s, h, order, nodes) && n == RootOf(s) && p == ParentOf(c)
      invariant !more ==> Mended(t.mem, t.root, n, c, s, order, nodes)
      invariant Changes(old(t.mem), t.mem, nodes)
      decreases more, Depth(c)
    {
      RootInContext(t.mem, t.root, c, s);
      if n == t.root {
        MendedAtTop(t.mem, t.root, s, h, order, nodes);
        more := false;
      } else {
        more, n, p, c, s, h := MendOnce(t, n, p, c, s, h, order, nodes);
      }
    }
    PaintFocus(t, n, c, s, order, nodes);
  }

  method PaintFocus(t: Tree, n: Node, ghost c: Context, ghost s: Shape, ghost order: seq<Node>, ghost nodes: set<Node>)
    requires Mended(t.mem, t.root, n, c, s, order, nodes)
    modifies t
    ensures t.Valid() && InOrder(t.shape) == order && Nodes(t.shape) == nodes
    ensures Changes(old(t.mem), t.mem, nodes)
  {
    Surroundings(t.mem, t.root, c, s);
    PlugNodes(c, s);
    ghost var r := s;
    if n != NULL {
      t.Paint(n, Black, c, s);
      r := Painted(s, Black);
      RepaintOrder(s, Black);
      SwapInGap(c, s, r);
    }
    ZippedPlug(t.mem, t.root, c, r);
    t.shape := Plug(c, r);
  }
}
