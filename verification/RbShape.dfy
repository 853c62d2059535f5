/**
 Red-black trees as values. A `Shape` records which node sits where and its colour; a `Context`
 is a shape with one subtree missing. Nothing here looks at the memory the nodes live in.
 */
module RbShape {

  datatype Color = Black | Red | Undef

  /** The address of a node; `NULL` is no node. */
  type Node = nat
  const NULL: Node := 0

  /** The source writes each case twice, once for either side; here the side is a parameter. */
  datatype Side = L | R {
    function Other(): Side {
      if L? then R else L
    }
  }

  datatype Shape = Leaf | Branch(node: Node, color: Color, left: Shape, right: Shape) {
    ghost function Kid(side: Side): Shape
      requires Branch?
    {
      if side.L? then left else right
    }
  }

  /** A branch given by the child on one side and the child on the other. */
  ghost function Make(node: Node, color: Color, side: Side, near: Shape, far: Shape): (s: Shape)
    ensures s.Branch? && s.node == node && s.color == color && s.Kid(side) == near && s.Kid(side.Other()) == far
  {
    if side.L? then Branch(node, color, near, far) else Branch(node, color, far, near)
  }

  ghost function Painted(s: Shape, color: Color): (r: Shape)
    requires s.Branch?
    ensures r.Branch? && r.node == s.node && r.color == color && forall side: Side :: r.Kid(side) == s.Kid(side)
  {
    Branch(s.node, color, s.left, s.right)
  }

  /** The missing subtree hangs on the given side of `node`. */
  datatype Context = Top | Down(side: Side, node: Node, color: Color, sibling: Shape, up: Context)

  ghost function Plug(c: Context, s: Shape): Shape {
    if c.Top? then s else Plug(c.up, Fill(c, s))
  }

  /** The innermost branch of a context, once its gap is filled. */
  ghost function Fill(c: Context, s: Shape): (r: Shape)
    requires c.Down?
    ensures r.Branch? && r.node == c.node && r.color == c.color
    ensures r.Kid(c.side) == s && r.Kid(c.side.Other()) == c.sibling
  {
    Make(c.node, c.color, c.side, s, c.sibling)
  }

  // ---------------------------------------------------------------- nodes

  ghost function Nodes(s: Shape): set<Node> {
    if s.Leaf? then {} else {s.node} + Nodes(s.left) + Nodes(s.right)
  }

  ghost predicate Distinct(s: Shape) {
    s.Branch? ==>
      && Distinct(s.left) && Distinct(s.right)
      && s.node !in Nodes(s.left) && s.node !in Nodes(s.right) && Nodes(s.left) !! Nodes(s.right)
  }

  ghost function ContextNodes(c: Context): set<Node> {
    if c.Top? then {} else {c.node} + ContextNodes(c.up) + Nodes(c.sibling)
  }

  ghost predicate DistinctContext(c: Context) {
    c.Down? ==>
      && DistinctContext(c.up) && Distinct(c.sibling)
      && c.node !in ContextNodes(c.up) && c.node !in Nodes(c.sibling) && ContextNodes(c.up) !! Nodes(c.sibling)
  }

  ghost predicate DistinctPair(c: Context, s: Shape) {
    DistinctContext(c) && Distinct(s) && ContextNodes(c) !! Nodes(s)
  }

  lemma {:induction false} PlugNodes(c: Context, s: Shape)
    ensures Nodes(Plug(c, s)) == ContextNodes(c) + Nodes(s)
    decreases c
  {
    if c.Down? {
      PlugNodes(c.up, Fill(c, s));
    }
  }

  lemma {:induction false} PlugDistinct(c: Context, s: Shape)
    ensures Distinct(Plug(c, s)) <==> DistinctPair(c, s)
    decreases c
  {
    if c.Down? {
      PlugDistinct(c.up, Fill(c, s));
    }
  }

  /** Any node of a shape can be brought into focus. */
  lemma {:induction false} Focus(c: Context, s: Shape, n: Node) returns (d: Context, t: Shape)
    requires n in Nodes(s)
    ensures t.Branch? && t.node == n && Plug(d, t) == Plug(c, s)
    decreases s
  {
    if s.node == n {
      d, t := c, s;
    } else if n in Nodes(s.left) {
      d, t := Focus(Down(L, s.node, s.color, s.right, c), s.left, n);
    } else {
      d, t := Focus(Down(R, s.node, s.color, s.left, c), s.right, n);
    }
  }

  // ---------------------------------------------------------------- order

  ghost function InOrder(s: Shape): seq<Node> {
    if s.Leaf? then [] else InOrder(s.left) + [s.node] + InOrder(s.right)
  }

  ghost function Before(c: Context): seq<Node> {
    if c.Top? then []
    else if c.side.L? then Before(c.up)
    else Before(c.up) + InOrder(c.sibling) + [c.node]
  }

  ghost function After(c: Context): seq<Node> {
    if c.Top? then []
    else if c.side.L? then [c.node] + InOrder(c.sibling) + After(c.up)
    else After(c.up)
  }

  lemma {:induction false} PlugOrder(c: Context, s: Shape)
    ensures InOrder(Plug(c, s)) == Before(c) + InOrder(s) + After(c)
    decreases c
  {
    if c.Down? {
      PlugOrder(c.up, Fill(c, s));
      Regroup(Before(c.up), InOrder(c.sibling), c.node, InOrder(s), After(c.up));
    }
  }

  /** The order around the node in focus. */
  lemma FocusOrder(c: Context, s: Shape)
    requires s.Branch?
    ensures InOrder(Plug(c, s)) == (Before(c) + InOrder(s.left)) + [s.node] + (InOrder(s.right) + After(c))
  {
    PlugOrder(c, s);
    Around(Before(c), InOrder(s.left), s.node, InOrder(s.right), After(c));
  }

  lemma Around(a: seq<Node>, l: seq<Node>, n: Node, r: seq<Node>, b: seq<Node>)
    ensures a + (l + [n] + r) + b == (a + l) + [n] + (r + b)
  {
  }

  lemma Regroup(a: seq<Node>, b: seq<Node>, n: Node, s: seq<Node>, d: seq<Node>)
    ensures a + (b + [n] + s) + d == (a + b + [n]) + s + d
    ensures a + (s + [n] + b) + d == a + s + ([n] + b + d)
  {
  }

  // ---------------------------------------------------------------- the red-black rules

  ghost predicate RootBlack(s: Shape) {
    s.Leaf? || s.color == Black
  }

  ghost function Rank(c: Color): nat {
    if c == Black then 1 else 0
  }

  /** Every path down to a leaf passes `h` black nodes and never two red ones in a row. */
  ghost predicate Balanced(s: Shape, h: int) {
    if s.Leaf? then h == 0
    else
      && s.color != Undef
      && (s.color == Red ==> RootBlack(s.left) && RootBlack(s.right))
      && Balanced(s.left, h - Rank(s.color)) && Balanced(s.right, h - Rank(s.color))
  }

  /** The same, for a tree whose missing part is to have black height `h`; the root is black. */
  ghost predicate BalancedContext(c: Context, h: int) {
    c.Down? ==>
      && c.color != Undef
      && (c.color == Red ==> RootBlack(c.sibling) && c.up.Down? && c.up.color == Black)
      && Balanced(c.sibling, h) && BalancedContext(c.up, h + Rank(c.color))
  }

  /** Whether a red subtree may be put in the gap. */
  ghost predicate AcceptsRed(c: Context) {
    c.Down? && c.color == Black
  }

  ghost predicate RedBlack(s: Shape) {
    RootBlack(s) && exists h :: Balanced(s, h)
  }

  lemma {:induction false} PlugBalanced(c: Context, s: Shape, h: int)
    requires BalancedContext(c, h) && Balanced(s, h) && (RootBlack(s) || AcceptsRed(c))
    ensures RedBlack(Plug(c, s))
    decreases c
  {
    if c.Down? {
      PlugBalanced(c.up, Fill(c, s), h + Rank(c.color));
    }
  }

  /** A balanced tree, taken apart anywhere, is a balanced context and a balanced subtree. */
  lemma {:induction false} UnplugBalanced(c: Context, s: Shape) returns (h: int)
    requires RedBlack(Plug(c, s))
    ensures BalancedContext(c, h) && Balanced(s, h) && (RootBlack(s) || AcceptsRed(c))
    decreases c
  {
    if c.Top? {
      h :| Balanced(s, h);
    } else {
      h := UnplugBalanced(c.up, Fill(c, s));
      h := h - Rank(c.color);
    }
  }

  // ---------------------------------------------------------------- height

  ghost function Size(s: Shape): nat {
    if s.Leaf? then 0 else Size(s.left) + 1 + Size(s.right)
  }

  ghost function Height(s: Shape): nat {
    if s.Leaf? then 0
    else 1 + if Height(s.left) < Height(s.right) then Height(s.right) else Height(s.left)
  }

  ghost function Pow2(n: nat): nat {
    if n == 0 then 1 else 2 * Pow2(n - 1)
  }

  lemma {:induction false} BlackHeightBounds(s: Shape, h: int)
    requires Balanced(s, h)
    ensures 0 <= h && Pow2(h) <= Size(s) + 1
    ensures Height(s) <= 2 * h + if RootBlack(s) then 0 else 1
  {
    if s.Branch? {
      BlackHeightBounds(s.left, h - Rank(s.color));
      BlackHeightBounds(s.right, h - Rank(s.color));
    }
  }

  lemma {:induction false} Pow2Monotone(m: nat, n: nat)
    requires m <= n
    ensures Pow2(m) <= Pow2(n)
  {
    if m < n {
      Pow2Monotone(m, n - 1);
    }
  }

  lemma {:induction false} Pow2Double(n: nat)
    ensures Pow2(2 * n) == Pow2(n) * Pow2(n)
  {
    if n > 0 {
      Pow2Double(n - 1);
      assert Pow2(2 * n) == 2 * Pow2(2 * n - 1) == 4 * Pow2(2 * (n - 1));
    }
  }

  /** Height is at most twice the logarithm of the size: 2^height <= (size + 1)^2. */
  lemma HeightBound(s: Shape)
    requires RedBlack(s)
    ensures Pow2(Height(s)) <= (Size(s) + 1) * (Size(s) + 1)
  {
    var h :| Balanced(s, h);
    BlackHeightBounds(s, h);
    Pow2Monotone(Height(s), 2 * h);
    Pow2Double(h);
    Square(Pow2(h), Size(s) + 1);
  }

  lemma Square(a: nat, b: nat)
    requires a <= b
    ensures a * a <= b * b
  {
  }

  // ---------------------------------------------------------------- rotations

  /** The child away from `side` moves up and `s` moves down to `side`. */
  ghost function Rotated(s: Shape, side: Side): Shape
    requires s.Branch? && s.Kid(side.Other()).Branch?
  {
    var q := s.Kid(side.Other());
    Make(q.node, q.color, side, Make(s.node, s.color, side, s.Kid(side), q.Kid(side)), q.Kid(side.Other()))
  }

  /** A rotation keeps the nodes and their order, and is undone by the opposite one. */
  lemma RotateShape(c: Context, s: Shape, side: Side)
    requires s.Branch? && s.Kid(side.Other()).Branch?
    ensures DistinctPair(c, s) ==>
      && DistinctPair(c, Rotated(s, side)) && Nodes(Rotated(s, side)) == Nodes(s)
      && var q := s.Kid(side.Other());
         var a, b, d := s.Kid(side), q.Kid(side), q.Kid(side.Other());
         && s.node != q.node && Nodes(s) == {s.node, q.node} + Nodes(a) + Nodes(b) + Nodes(d)
         && s.node !in Nodes(a) + Nodes(b) + Nodes(d) + ContextNodes(c)
         && q.node !in Nodes(a) + Nodes(b) + Nodes(d) + ContextNodes(c)
         && Nodes(a) !! Nodes(b) !! Nodes(d) !! ContextNodes(c) && Distinct(b)
    ensures InOrder(Rotated(s, side)) == InOrder(s)
    ensures Rotated(Rotated(s, side), side.Other()) == s
  {
    RotateOrder(s, side);
    if DistinctPair(c, s) {
      RotateDistinct(c, s, side);
    }
  }

  lemma RotateOrder(s: Shape, side: Side)
    requires s.Branch? && s.Kid(side.Other()).Branch?
    ensures InOrder(Rotated(s, side)) == InOrder(s) && Rotated(Rotated(s, side), side.Other()) == s
  {
    var q := s.Kid(side.Other());
    var a, b, d := s.Kid(side), q.Kid(side), q.Kid(side.Other());
    Flatten(InOrder(a), s.node, InOrder(b), q.node, InOrder(d));
    Flatten(InOrder(d), q.node, InOrder(b), s.node, InOrder(a));
  }

  lemma RotateDistinct(c: Context, s: Shape, side: Side)
    requires s.Branch? && s.Kid(side.Other()).Branch? && DistinctPair(c, s)
    ensures DistinctPair(c, Rotated(s, side)) && Nodes(Rotated(s, side)) == Nodes(s)
    ensures var q := s.Kid(side.Other());
            var a, b, d := s.Kid(side), q.Kid(side), q.Kid(side.Other());
            && s.node != q.node && Nodes(s) == {s.node, q.node} + Nodes(a) + Nodes(b) + Nodes(d)
            && s.node !in Nodes(a) + Nodes(b) + Nodes(d) + ContextNodes(c)
            && q.node !in Nodes(a) + Nodes(b) + Nodes(d) + ContextNodes(c)
            && Nodes(a) !! Nodes(b) !! Nodes(d) !! ContextNodes(c) && Distinct(b)
  {
    var q := s.Kid(side.Other());
    var a, b, d := s.Kid(side), q.Kid(side), q.Kid(side.Other());
    assert Distinct(q);
    assert Nodes(s) == {s.node} + Nodes(a) + ({q.node} + Nodes(b) + Nodes(d));
    assert Distinct(Rotated(s, side).Kid(side));
  }

  lemma Flatten(a: seq<Node>, n: Node, b: seq<Node>, q: Node, d: seq<Node>)
    ensures a + [n] + (b + [q] + d) == (a + [n] + b) + [q] + d
  {
  }

  lemma RepaintOrder(s: Shape, color: Color)
    requires s.Branch?
    ensures InOrder(Painted(s, color)) == InOrder(s) && Nodes(Painted(s, color)) == Nodes(s)
  {
  }

  ghost function Depth(c: Context): nat {
    if c.Top? then 0 else 1 + Depth(c.up)
  }

  /** Replacing the subtree in a gap by one of the same order and nodes. */
  lemma SwapInGap(c: Context, s: Shape, t: Shape)
    requires InOrder(s) == InOrder(t) && Nodes(s) == Nodes(t)
    ensures InOrder(Plug(c, s)) == InOrder(Plug(c, t)) && Nodes(Plug(c, s)) == Nodes(Plug(c, t))
  {
  }
}
