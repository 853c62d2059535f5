/** Walking the tree: `ss_rbmin`, `ss_rbmax`, `ss_rbnext`, `ss_rbprev` and the `ss_rbget` descent. */
module RbWalk {
  import opened RbShape
  import opened RbTree

  ghost function First(s: seq<Node>): Node {
    if s == [] then NULL else s[0]
  }

  ghost function Last(s: seq<Node>): Node {
    if s == [] then NULL else s[|s| - 1]
  }

  /** The node at one end of a sequence. */
  ghost function End(s: seq<Node>, side: Side): Node {
    if side.L? then First(s) else Last(s)
  }

  /** What lies beyond the gap of a context, on one side. */
  ghost function Beyond(c: Context, side: Side): seq<Node> {
    if side.R? then After(c) else Before(c)
  }

  /** `ss_rbmin` for the left side, `ss_rbmax` for the right, of the subtree at `x`. */
  method Outermost(t: Tree, x: Node, side: Side, ghost c0: Context, ghost s0: Shape) returns (n: Node)
    requires Zipped(t.mem, t.root, c0, s0) && x == RootOf(s0)
    ensures n == End(InOrder(s0), side)
  {
    n := x;
    if n == NULL {
      Surroundings(t.mem, t.root, c0, s0);
      return;
    }
    ghost var c, s := c0, s0;
    Surroundings(t.mem, t.root, c, s);
    Children(t.mem, s, ParentOf(c));
    while t.mem[n].Kid(side) != NULL
      invariant s.Branch? && n == s.node && n in t.mem && Zipped(t.mem, t.root, c, s)
      invariant t.mem[n].Kid(side) == RootOf(s.Kid(side)) && (s.Kid(side).Branch? ==> s.Kid(side).node != NULL)
      invariant End(InOrder(s), side) == End(InOrder(s0), side)
      decreases s
    {
      n := t.mem[n].Kid(side);
      OuterKid(s, side);
      ghost var d := Down(side, s.node, s.color, s.Kid(side.Other()), c);
      assert Fill(d, s.Kid(side)) == s;
      ZipUp(t.mem, t.root, d, s.Kid(side));
      c, s := d, s.Kid(side);
      Children(t.mem, s, ParentOf(c));
    }
    OuterKid(s, side);
  }

  lemma OuterKid(s: Shape, side: Side)
    requires s.Branch?
    ensures End(InOrder(s), side) == if s.Kid(side).Leaf? then s.node else End(InOrder(s.Kid(side)), side)
    ensures InOrder(s) != []
  {
  }

  /** `r` is next to `n` in the order, on the given side; `NULL` at the end. */
  ghost predicate NextTo(order: seq<Node>, n: Node, side: Side, r: Node) {
    exists a: seq<Node>, b: seq<Node> :: order == a + [n] + b && r == if side.R? then First(b) else Last(a)
  }

  lemma NextToAt(a: seq<Node>, n: Node, b: seq<Node>, side: Side, r: Node)
    requires r == if side.R? then First(b) else Last(a)
    ensures NextTo(a + [n] + b, n, side, r)
  {
  }

  lemma EndOfSum(a: seq<Node>, b: seq<Node>)
    ensures First(a + b) == if a == [] then First(b) else First(a)
    ensures Last(a + b) == if b == [] then Last(a) else Last(b)
  {
  }

  /** `ss_rbnext` for the right side, `ss_rbprev` for the left: the neighbour of `n` in order, or, from no
      node, the node at the other end. */
  method Neighbor(t: Tree, n: Node, side: Side) returns (r: Node)
    requires t.Valid() && (n == NULL || (n in Nodes(t.shape) && n in t.mem))
    ensures n == NULL ==> r == End(InOrder(t.shape), side.Other())
    ensures n != NULL ==> NextTo(InOrder(t.shape), n, side, r)
  {
    if n == NULL {
      r := Outermost(t, t.root, side.Other(), Top, t.shape);
      return;
    }
    ghost var c, s := Focus(Top, t.shape, n);
    ZippedPlug(t.mem, t.root, c, s);
    Children(t.mem, s, ParentOf(c));
    FocusOrder(c, s);
    var kid := t.mem[n].Kid(side);
    if kid != NULL {
      ghost var d := Down(side, s.node, s.color, s.Kid(side.Other()), c);
      assert Fill(d, s.Kid(side)) == s;
      ZipUp(t.mem, t.root, d, s.Kid(side));
      r := Outermost(t, kid, side.Other(), d, s.Kid(side));
      OuterKid(s.Kid(side), side.Other());
    } else {
      r := Climb(t, n, side, c, s);
    }
    EndOfSum(InOrder(s.right), After(c));
    EndOfSum(Before(c), InOrder(s.left));
    NextToAt(Before(c) + InOrder(s.left), n, InOrder(s.right) + After(c), side, r);
  }

  /** Up while coming from the far side; where that ends is the neighbour. */
  method Climb(t: Tree, n0: Node, side: Side, ghost c0: Context, ghost s0: Shape) returns (p: Node)
    requires Zipped(t.mem, t.root, c0, s0) && s0.Branch? && n0 == s0.node && n0 in t.mem
    ensures p == End(Beyond(c0, side), side.Other())
  {
    var n := n0;
    ghost var c, s := c0, s0;
    Surroundings(t.mem, t.root, c, s);
    p := t.mem[n].p;
    while p != NULL && t.mem[p].Kid(side) == n
      invariant Zipped(t.mem, t.root, c, s) && s.Branch? && n == s.node && p == ParentOf(c)
      invariant c.Down? ==> p != NULL && p in t.mem && t.mem[p].Kid(c.side) == n && t.mem[p].Kid(c.side.Other()) != n
      invariant End(Beyond(c, side), side.Other()) == End(Beyond(c0, side), side.Other())
      decreases Depth(c)
    {
      n := p;
      ZipUp(t.mem, t.root, c, s);
      c, s := c.up, Fill(c, s);
      Surroundings(t.mem, t.root, c, s);
      p := t.mem[n].p;
    }
    if c.Down? {
      assert c.side == side.Other();
    }
  }

  // ---------------------------------------------------------------- search

  /** `cmp(x)` compares the key of `x` with the key looked for; along the order it never falls. */
  ghost predicate Ascending(order: seq<Node>, cmp: Node -> int) {
    && (forall i :: 0 <= i < |order| ==> -1 <= cmp(order[i]) <= 1)
    && (forall i, j :: 0 <= i < j < |order| ==> cmp(order[i]) <= cmp(order[j]))
  }

  ghost predicate AllCompare(s: seq<Node>, cmp: Node -> int, rc: int) {
    forall i :: 0 <= i < |s| ==> cmp(s[i]) == rc
  }

  /** The descent of `ss_rbget`. It ends at a node with the key, or at the parent below which a
      node with that key is to be linked: everything smaller lies on one side of the gap and
      everything greater on the other. */
  method Get(t: Tree, cmp: Node -> int) returns (rc: int, found: Node, ghost gap: Context)
    requires t.Valid() && Ascending(InOrder(t.shape), cmp)
    ensures rc == 0 && found != NULL ==> found in Nodes(t.shape) && cmp(found) == 0
    ensures found == NULL <==> t.shape.Leaf?
    ensures found == NULL ==> rc == 0
    ensures !(rc == 0 && found != NULL) ==>
      && Plug(gap, Leaf) == t.shape && ParentOf(gap) == found
      && AllCompare(Before(gap), cmp, -1) && AllCompare(After(gap), cmp, 1)
      && (gap.Down? ==> rc == if gap.side.L? then 1 else -1)
  {
    var n := t.root;
    rc, found, gap := 0, NULL, Top;
    ghost var s := t.shape;
    Surroundings(t.mem, t.root, gap, s);
    while n != NULL
      invariant Zipped(t.mem, t.root, gap, s) && Plug(gap, s) == t.shape && n == RootOf(s)
      invariant s.Branch? ==> n != NULL && n in t.mem
      invariant AllCompare(Before(gap), cmp, -1) && AllCompare(After(gap), cmp, 1)
      invariant found == ParentOf(gap) && (found == NULL <==> gap.Top?)
      invariant gap.Down? ==> rc == (if gap.side.L? then 1 else -1)
      invariant gap.Top? ==> rc == 0
      decreases s
    {
      found := n;
      rc := cmp(n);
      Children(t.mem, s, ParentOf(gap));
      SplitAt(gap, s, cmp);
      PlugNodes(gap, s);
      if rc == 0 {
        return;
      }
      var side := if rc == 1 then L else R;
      n := t.mem[n].Kid(side);
      ghost var d := Down(side, s.node, s.color, s.Kid(side.Other()), gap);
      assert Fill(d, s.Kid(side)) == s;
      ZipUp(t.mem, t.root, d, s.Kid(side));
      gap, s := d, s.Kid(side);
    }
    PlugNodes(gap, s);
  }

  /** The key of the node in focus decides for everything to its left or right. */
  lemma SplitAt(c: Context, s: Shape, cmp: Node -> int)
    requires s.Branch? && Ascending(InOrder(Plug(c, s)), cmp)
    requires AllCompare(Before(c), cmp, -1) && AllCompare(After(c), cmp, 1)
    ensures -1 <= cmp(s.node) <= 1
    ensures cmp(s.node) == -1 ==> AllCompare(Before(c) + InOrder(s.left) + [s.node], cmp, -1)
    ensures cmp(s.node) == 1 ==> AllCompare([s.node] + InOrder(s.right) + After(c), cmp, 1)
  {
    FocusOrder(c, s);
    Associative([s.node], InOrder(s.right), After(c));
    CompareAround(Before(c) + InOrder(s.left), s.node, InOrder(s.right) + After(c), cmp);
  }

  lemma Associative(a: seq<Node>, b: seq<Node>, d: seq<Node>)
    ensures a + b + d == a + (b + d)
  {
  }

  lemma CompareAround(a: seq<Node>, n: Node, b: seq<Node>, cmp: Node -> int)
    requires Ascending(a + [n] + b, cmp)
    ensures -1 <= cmp(n) <= 1
    ensures cmp(n) == -1 ==> AllCompare(a + [n], cmp, -1)
    ensures cmp(n) == 1 ==> AllCompare([n] + b, cmp, 1)
  {
    var whole := a + [n] + b;
    var k := |a|;
    assert whole[k] == n;
    forall i | 0 <= i < |a|
      ensures -1 <= cmp(a[i]) <= cmp(n)
    {
      assert whole[i] == a[i];
    }
    forall i | 0 <= i < |b|
      ensures cmp(n) <= cmp(b[i]) <= 1
    {
      assert whole[k + 1 + i] == b[i];
    }
  }
}
