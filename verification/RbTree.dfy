/**
 The red-black tree of `ss_rb.c`. Nodes are cells of an addressable memory, linked in place
 through parent, left and right pointers.
 */
module RbTree {
  import opened RbShape

  datatype Cell = Cell(p: Node, l: Node, r: Node, color: Color) {
    function Kid(side: Side): Node {
      if side.L? then l else r
    }

    function WithKid(side: Side, x: Node): Cell {
      if side.L? then this.(l := x) else this.(r := x)
    }
  }

  /** A cell given by the child on one side and the child on the other. */
  function MakeCell(p: Node, color: Color, side: Side, near: Node, far: Node): Cell {
    if side.L? then Cell(p, near, far, color) else Cell(p, far, near, color)
  }

  type Memory = map<Node, Cell>

  ghost function RootOf(s: Shape): Node {
    if s.Leaf? then NULL else s.node
  }

  ghost function ParentOf(c: Context): Node {
    if c.Top? then NULL else c.node
  }

  ghost function TopOf(c: Context, hole: Node): Node {
    if c.Top? then hole else TopOf(c.up, c.node)
  }

  /** The memory holds exactly this shape, hanging from `parent`. */
  ghost predicate Linked(mem: Memory, s: Shape, parent: Node) {
    s.Branch? ==>
      && s.node != NULL && s.node in mem
      && mem[s.node] == Cell(parent, RootOf(s.left), RootOf(s.right), s.color)
      && Linked(mem, s.left, s.node) && Linked(mem, s.right, s.node)
  }

  ghost predicate LinkedContext(mem: Memory, c: Context, hole: Node) {
    c.Down? ==>
      && c.node != NULL && c.node in mem
      && mem[c.node] == MakeCell(ParentOf(c.up), c.color, c.side, hole, RootOf(c.sibling))
      && Linked(mem, c.sibling, c.node) && LinkedContext(mem, c.up, c.node)
  }

  /** The memory below `root` is the context with the subtree in its gap. */
  ghost predicate Zipped(mem: Memory, root: Node, c: Context, s: Shape) {
    && DistinctPair(c, s)
    && root == TopOf(c, RootOf(s))
    && LinkedContext(mem, c, RootOf(s)) && Linked(mem, s, ParentOf(c))
  }

  lemma {:induction false} ZippedPlug(mem: Memory, root: Node, c: Context, s: Shape)
    ensures Zipped(mem, root, c, s) <==> Zipped(mem, root, Top, Plug(c, s))
    decreases c
  {
    if c.Down? {
      ZippedPlug(mem, root, c.up, Fill(c, s));
    }
  }

  lemma Children(mem: Memory, s: Shape, parent: Node)
    requires s.Branch? && Linked(mem, s, parent)
    ensures s.node in mem && mem[s.node] == Cell(parent, RootOf(s.left), RootOf(s.right), s.color)
    ensures Linked(mem, s.left, s.node) && Linked(mem, s.right, s.node)
    ensures s.left.Branch? ==> s.left.node != NULL && s.left.node in mem
    ensures s.right.Branch? ==> s.right.node != NULL && s.right.node in mem
  {
  }

  ghost function RootSet(s: Shape): set<Node> {
    if s.Leaf? then {} else {s.node}
  }

  ghost function ParentSet(c: Context): set<Node> {
    if c.Top? then {} else {c.node}
  }

  /** The same cells, apart from the touched ones. */
  ghost predicate Changes(a: Memory, b: Memory, touched: set<Node>) {
    a.Keys == b.Keys && forall x :: x in a && x !in touched ==> b[x] == a[x]
  }

  /** A shape none of whose nodes was written is still there. */
  lemma {:induction false} Kept(a: Memory, b: Memory, s: Shape, parent: Node, touched: set<Node>)
    requires Linked(a, s, parent) && Changes(a, b, touched) && Nodes(s) !! touched
    ensures Linked(b, s, parent)
    decreases s
  {
    if s.Branch? {
      Kept(a, b, s.left, s.node, touched);
      Kept(a, b, s.right, s.node, touched);
    }
  }

  lemma {:induction false} KeptContext(a: Memory, b: Memory, c: Context, hole: Node, touched: set<Node>)
    requires LinkedContext(a, c, hole) && Changes(a, b, touched) && ContextNodes(c) !! touched
    ensures LinkedContext(b, c, hole)
    decreases c
  {
    if c.Down? {
      Kept(a, b, c.sibling, c.node, touched);
      KeptContext(a, b, c.up, c.node, touched);
    }
  }

  /** A shape whose root alone was hung from another parent. */
  lemma Rehung(a: Memory, b: Memory, s: Shape, former: Node, parent: Node, touched: set<Node>)
    requires Linked(a, s, former) && Distinct(s) && Changes(a, b, touched) && Nodes(s) * touched <= RootSet(s)
    requires s.Branch? ==> b[s.node] == a[s.node].(p := parent)
    ensures Linked(b, s, parent)
  {
  }

  /** A context whose gap alone was filled with another child. */
  lemma Refilled(a: Memory, b: Memory, c: Context, former: Node, hole: Node)
    requires LinkedContext(a, c, former) && DistinctContext(c) && Changes(a, b, ParentSet(c))
    requires c.Down? ==> b[c.node] == a[c.node].WithKid(c.side, hole)
    ensures LinkedContext(b, c, hole)
  {
    if c.Down? {
      Kept(a, b, c.sibling, c.node, ParentSet(c));
      KeptContext(a, b, c.up, c.node, ParentSet(c));
    }
  }

  /** Moving the focus one level up. */
  lemma ZipUp(mem: Memory, root: Node, c: Context, s: Shape)
    requires c.Down?
    ensures Zipped(mem, root, c, s) <==> Zipped(mem, root, c.up, Fill(c, s))
  {
  }

  /** What the cells around the focus say. */
  lemma Surroundings(mem: Memory, root: Node, c: Context, s: Shape)
    requires Zipped(mem, root, c, s)
    ensures s.Branch? ==>
      s.node != NULL && s.node in mem && mem[s.node].color == s.color && mem[s.node].p == ParentOf(c)
    ensures c.Down? ==>
      && c.node != NULL && c.node in mem && mem[c.node].color == c.color && mem[c.node].p == ParentOf(c.up)
      && mem[c.node].Kid(c.side) == RootOf(s) && mem[c.node].Kid(c.side.Other()) == RootOf(c.sibling)
      && (s.Branch? || c.sibling.Branch? ==> RootOf(s) != RootOf(c.sibling))
      && (c.sibling.Branch? ==>
            c.sibling.node != NULL && c.sibling.node in mem && mem[c.sibling.node].color == c.sibling.color)
    ensures c.Top? ==> root == RootOf(s)
  {
  }

  function WithParent(m: Memory, x: Node, p: Node): Memory {
    if x == NULL || x !in m then m else m[x := m[x].(p := p)]
  }

  function WithChild(m: Memory, p: Node, side: Side, x: Node): Memory {
    if p == NULL || p !in m then m else m[p := m[p].WithKid(side, x)]
  }

  ghost function SideIn(c: Context): Side {
    if c.Down? then c.side else L
  }

  /** A tree with its memory: the address of its root, and the cells of all nodes there are,
      in this tree or not. The shape says what the cells below the root look like. */
  class Tree {
    var root: Node
    var mem: Memory
    ghost var shape: Shape

    ghost predicate Valid()
      reads this
    {
      Zipped(mem, root, Top, shape) && RedBlack(shape)
    }

    /** Make `q` the child of `parent` in the place of `n`; without a parent it is the root. */
    method SetChild(parent: Node, n: Node, q: Node, ghost c: Context)
      requires parent == ParentOf(c) && n !in ContextNodes(c) && n != NULL && DistinctContext(c)
      requires LinkedContext(mem, c, n) && root == TopOf(c, n)
      modifies this`root, this`mem
      ensures root == TopOf(c, q) && LinkedContext(mem, c, q)
      ensures Changes(old(mem), mem, ParentSet(c))
      ensures mem == WithChild(old(mem), parent, SideIn(c), q)
    {
      if parent != NULL {
        if mem[parent].l == n {
          mem := mem[parent := mem[parent].(l := q)];
        } else {
          mem := mem[parent := mem[parent].(r := q)];
        }
      } else {
        root := q;
      }
      Refilled(old(mem), mem, c, n, q);
    }

    /** Hang a node, if there is one, from another parent. */
    method SetParent(x: Node, parent: Node)
      requires x != NULL ==> x in mem
      modifies this`mem
      ensures mem == WithParent(old(mem), x, parent)
    {
      if x != NULL {
        mem := mem[x := mem[x].(p := parent)];
      }
    }

    /** Change the colour of one node. */
    method Paint(n: Node, color: Color, ghost c: Context, ghost s: Shape)
      requires Zipped(mem, root, c, s) && s.Branch? && s.node == n
      modifies this`mem
      ensures Zipped(mem, root, c, Painted(s, color))
      ensures Changes(old(mem), mem, {n})
    {
      mem := mem[n := mem[n].(color := color)];
      Kept(old(mem), mem, s.left, n, {n});
      Kept(old(mem), mem, s.right, n, {n});
      KeptContext(old(mem), mem, c, n, {n});
    }

    /** `ss_rbrotate_left` and `ss_rbrotate_right`: the child of `n` away from `side` takes its place. */
    method Rotate(n: Node, side: Side, ghost c: Context, ghost s: Shape)
      requires Zipped(mem, root, c, s) && s.Branch? && s.node == n && s.Kid(side.Other()).Branch?
      modifies this`root, this`mem
      ensures Zipped(mem, root, c, Rotated(s, side))
      ensures Changes(old(mem), mem, Nodes(s) + ContextNodes(c))
    {
      RotationParts(mem, root, c, s, side);
      var q, parent := mem[n].Kid(side.Other()), mem[n].p;
      SetChild(parent, n, q, c);
      ghost var m := mem;
      Swing(n, q, parent, side);
      RotationJoined(old(mem), m, mem, root, c, s, side);
    }

    /** The links below the parent: `q` comes up, `n` goes down, and a child of `q` changes hands. */
    method Swing(n: Node, q: Node, parent: Node, side: Side)
      requires n in mem && q in mem && n != q
      requires var child := mem[q].Kid(side); child != NULL ==> child in mem && child != n && child != q
      modifies this`mem
      ensures var child := old(mem[q].Kid(side));
              && Changes(old(mem), mem, {n, q} + if child == NULL then {} else {child})
              && mem[n] == old(mem[n]).(p := q).WithKid(side.Other(), child)
              && mem[q] == old(mem[q]).(p := parent).WithKid(side, n)
              && (child != NULL ==> mem[child] == old(mem[child]).(p := n))
    {
      var child := mem[q].Kid(side);
      mem := mem[q := mem[q].(p := parent)];
      mem := mem[n := mem[n].(p := q)];
      mem := mem[n := mem[n].WithKid(side.Other(), child)];
      if child != NULL {
        mem := mem[child := mem[child].(p := n)];
      }
      mem := mem[q := mem[q].WithKid(side, n)];
    }
  }

  /** What the memory says about the two nodes of a rotation and the three subtrees below them. */
  ghost predicate RotationLinked(mem: Memory, s: Shape, side: Side, parent: Node)
    requires s.Branch? && s.Kid(side.Other()).Branch?
  {
    var t := s.Kid(side.Other());
    var n, q, a, b, d := s.node, t.node, s.Kid(side), t.Kid(side), t.Kid(side.Other());
    && n in mem && q in mem && n != NULL && q != NULL
    && mem[n] == MakeCell(parent, s.color, side, RootOf(a), q)
    && mem[q] == MakeCell(n, t.color, side, RootOf(b), RootOf(d))
    && (b.Branch? ==> b.node != NULL && b.node in mem)
    && Linked(mem, a, n) && Linked(mem, b, q) && Linked(mem, d, q)
  }

  lemma RotationParts(mem: Memory, root: Node, c: Context, s: Shape, side: Side)
    requires Zipped(mem, root, c, s) && s.Branch? && s.Kid(side.Other()).Branch?
    ensures RotationLinked(mem, s, side, ParentOf(c))
    ensures var t := s.Kid(side.Other());
      && {s.node, t.node} + RootSet(t.Kid(side)) <= Nodes(s)
      && s.node != t.node && s.node !in RootSet(t.Kid(side)) && t.node !in RootSet(t.Kid(side))
    ensures ParentSet(c) <= ContextNodes(c) && ContextNodes(c) !! Nodes(s)
  {
    assert RotationLinked(mem, s, side, ParentOf(c)) by {
      Children(mem, s, ParentOf(c));
      Children(mem, s.Kid(side.Other()), s.node);
    }
    RotateShape(c, s, side);
  }

  /** `m` differs from the memory before the rotation only in the cell above it. */
  lemma RotationJoined(before: Memory, m: Memory, mem: Memory, root: Node, c: Context, s: Shape, side: Side)
    requires s.Branch? && s.Kid(side.Other()).Branch? && RotationLinked(before, s, side, ParentOf(c))
        && DistinctPair(c, s)
    requires var t := s.Kid(side.Other());
      var n, q, b := s.node, t.node, t.Kid(side);
      && root == TopOf(c, q) && LinkedContext(m, c, q)
      && Changes(before, m, ParentSet(c)) && Changes(m, mem, {n, q} + RootSet(b))
      && mem[n] == MakeCell(q, s.color, side, RootOf(s.Kid(side)), RootOf(b))
      && mem[q] == MakeCell(ParentOf(c), t.color, side, n, RootOf(t.Kid(side.Other())))
      && (b.Branch? ==> mem[b.node] == before[b.node].(p := n))
    ensures Zipped(mem, root, c, Rotated(s, side))
  {
    var t := s.Kid(side.Other());
    var n, q, a, b, d := s.node, t.node, s.Kid(side), t.Kid(side), t.Kid(side.Other());
    RotateShape(c, s, side);
    var pair := {n, q} + RootSet(b);
    var touched := pair + ParentSet(c);
    assert Linked(mem, a, n) by { Kept(before, mem, a, n, touched); }
    assert Linked(mem, b, n) by { Rehung(before, mem, b, q, n, touched); }
    assert Linked(mem, d, q) by { Kept(before, mem, d, q, touched); }
    assert LinkedContext(mem, c, q) by { KeptContext(m, mem, c, q, pair); }
  }
}
