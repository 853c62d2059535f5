/**
 Which node of an index a key belongs to. The nodes cover disjoint ranges of keys in ascending
 order; a key between two ranges belongs to the node before it, and one below all to the first.
 */
module NodeRouting {
  import opened RbShape
  import opened RbTree
  import opened RbWalk

  datatype Range = Range(min: int, max: int)

  /** Position `i` is where a key belongs among nodes with these ranges. */
  ghost predicate BelongsAt(ranges: seq<Range>, key: int, i: nat) {
    && i < |ranges|
    && (i == 0 || ranges[i].min <= key)
    && (i + 1 < |ranges| ==> key < ranges[i + 1].min)
  }

  ghost predicate Disjoint(ranges: seq<Range>) {
    && (forall i :: 0 <= i < |ranges| ==> ranges[i].min <= ranges[i].max)
    && (forall i, j :: 0 <= i < j < |ranges| ==> ranges[i].max < ranges[j].min)
  }

  /** A key belongs to one node. */
  lemma BelongsOnce(ranges: seq<Range>, key: int, i: nat, j: nat)
    requires Disjoint(ranges) && BelongsAt(ranges, key, i) && BelongsAt(ranges, key, j)
    ensures i == j
  {
  }

  ghost function RangesOf(order: seq<Node>, range: Node -> Range): (r: seq<Range>)
    ensures |r| == |order| && forall i :: 0 <= i < |order| ==> r[i] == range(order[i])
  {
    seq(|order|, i requires 0 <= i < |order| => range(order[i]))
  }

  /** `n` is where a key belongs in an index whose nodes are in this order. */
  ghost predicate Belongs(order: seq<Node>, range: Node -> Range, key: int, n: Node) {
    exists i :: 0 <= i < |order| && order[i] == n && BelongsAt(RangesOf(order, range), key, i)
  }

  /** The range holds the key. */
  predicate Covers(r: Range, key: int) {
    r.min <= key <= r.max
  }

  /** A node's range against a key. */
  function Compare(r: Range, key: int): int {
    if r.min <= key <= r.max then 0 else if r.min < key then -1 else 1
  }

  function Comparator(range: Node -> Range, key: int): Node -> int {
    (n: Node) => Compare(range(n), key)
  }

  lemma CompareAscends(order: seq<Node>, range: Node -> Range, key: int)
    requires Disjoint(RangesOf(order, range))
    ensures Ascending(order, Comparator(range, key))
  {
  }

  lemma NodesApart(order: seq<Node>, range: Node -> Range, i: nat, j: nat)
    requires Disjoint(RangesOf(order, range)) && i < |order| && j < |order| && order[i] == order[j]
    ensures i == j
  {
  }

  lemma BelongsIntro(order: seq<Node>, range: Node -> Range, key: int, i: nat)
    requires i < |order| && (i == 0 || range(order[i]).min <= key)
    requires i + 1 < |order| ==> key < range(order[i + 1]).min
    ensures Belongs(order, range, key, order[i])
  {
  }

  /** A node whose range holds the key is where it belongs. */
  lemma InsideBelongs(order: seq<Node>, range: Node -> Range, key: int, n: Node)
    requires Disjoint(RangesOf(order, range)) && n in order && Covers(range(n), key)
    ensures Belongs(order, range, key, n)
  {
  }

  /** In a gap the key belongs to the node before it, or to the first node. */
  lemma GapBelongs(order: seq<Node>, range: Node -> Range, key: int, a: seq<Node>, b: seq<Node>, i: nat)
    requires order == a + b && order != [] && i == if a == [] then 0 else |a| - 1
    requires Disjoint(RangesOf(order, range))
    requires AllCompare(a, Comparator(range, key), -1) && AllCompare(b, Comparator(range, key), 1)
    ensures Belongs(order, range, key, order[i]) && !Covers(range(order[i]), key)
  {
  }

  /** The node before the first of `b`, if any, is the last of `a`. */
  lemma PreviousOf(order: seq<Node>, range: Node -> Range, a: seq<Node>, b: seq<Node>, r: Node)
    requires order == a + b && b != [] && Disjoint(RangesOf(order, range)) && NextTo(order, b[0], L, r)
    ensures r == Last(a) && (a != [] ==> r in order && r == order[|a| - 1])
  {
    var x: seq<Node>, y: seq<Node> :| order == x + [b[0]] + y && r == Last(x);
    assert order[|a|] == b[0] && order[|x|] == b[0];
    NodesApart(order, range, |a|, |x|);
    assert x == order[..|x|] && a == order[..|a|];
  }

  lemma {:induction false} NodesInOrder(s: Shape, n: Node)
    ensures n in Nodes(s) <==> n in InOrder(s)
  {
    if s.Branch? {
      NodesInOrder(s.left, n);
      NodesInOrder(s.right, n);
    }
  }

  lemma {:induction false} NeverNull(mem: Memory, s: Shape, parent: Node)
    requires Linked(mem, s, parent)
    ensures NULL !in Nodes(s)
    decreases s
  {
    if s.Branch? {
      NeverNull(mem, s.left, s.node);
      NeverNull(mem, s.right, s.node);
    }
  }

  lemma GapNode(mem: Memory, root: Node, shape: Shape, gap: Context)
    requires Zipped(mem, root, Top, shape) && Plug(gap, Leaf) == shape && gap.Down?
    ensures gap.node != NULL && gap.node in mem && gap.node in Nodes(shape)
    ensures InOrder(shape) == Before(gap) + After(gap)
  {
    PlugOrder(gap, Leaf);
    PlugNodes(gap, Leaf);
    ZippedPlug(mem, root, gap, Leaf);
    Surroundings(mem, root, gap, Leaf);
  }

  /** The node before the one the search ended at, or the first node. */
  method Previous(t: Tree, found: Node, range: Node -> Range, ghost gap: Context) returns (n: Node)
    requires t.Valid() && Disjoint(RangesOf(InOrder(t.shape), range))
    requires Plug(gap, Leaf) == t.shape && gap.Down? && gap.side.L? && found == gap.node
    ensures InOrder(t.shape) == Before(gap) + After(gap) && InOrder(t.shape) != []
    ensures n == InOrder(t.shape)[if Before(gap) == [] then 0 else |Before(gap)| - 1]
  {
    GapNode(t.mem, t.root, t.shape, gap);
    n := Neighbor(t, found, L);
    PreviousOf(InOrder(t.shape), range, Before(gap), After(gap), n);
    NeverNull(t.mem, t.shape, NULL);
    NodesInOrder(t.shape, n);
    if n == NULL {
      n := Outermost(t, t.root, L, Top, t.shape);
    }
  }

  /** The gap a search ended in: the node there, or the one before it, is where the key belongs. */
  method FromGap(t: Tree, range: Node -> Range, key: int, rc: int, found: Node, ghost gap: Context) returns (n: Node)
    requires t.Valid() && Disjoint(RangesOf(InOrder(t.shape), range))
    requires Plug(gap, Leaf) == t.shape && gap.Down? && found == gap.node && rc == if gap.side.L? then 1 else -1
    requires AllCompare(Before(gap), Comparator(range, key), -1) && AllCompare(After(gap), Comparator(range, key), 1)
    ensures Belongs(InOrder(t.shape), range, key, n) && !Covers(range(n), key)
  {
    n := found;
    GapNode(t.mem, t.root, t.shape, gap);
    ghost var i := if Before(gap) == [] then 0 else |Before(gap)| - 1;
    GapBelongs(InOrder(t.shape), range, key, Before(gap), After(gap), i);
    if rc == 1 {
      n := Previous(t, found, range, gap);
    }
  }

  method RouteByKey(t: Tree, range: Node -> Range, key: int) returns (n: Node, eq: bool)
    requires t.Valid() && InOrder(t.shape) != [] && Disjoint(RangesOf(InOrder(t.shape), range))
    ensures Belongs(InOrder(t.shape), range, key, n) && (eq <==> Covers(range(n), key))
  {
    CompareAscends(InOrder(t.shape), range, key);
    var rc, found, gap := Get(t, Comparator(range, key));
    eq := rc == 0;
    if rc == 0 {
      n := found;
      NodesInOrder(t.shape, found);
      InsideBelongs(InOrder(t.shape), range, key, found);
    } else {
      n := FromGap(t, range, key, rc, found, gap);
    }
  }

  /** Where a walk over the nodes starts: at a key, or without one at either end. */
  datatype Start = FromKey(key: int) | FromFirst | FromLast

  /** Open the index: a key leads to the node it belongs to. `eq` tells whether the node's range holds the
      key; with a single node it is always set. */
  method Route(t: Tree, count: nat, range: Node -> Range, start: Start) returns (n: Node, eq: bool)
    requires t.Valid() && count == |InOrder(t.shape)| && 0 < count
    requires Disjoint(RangesOf(InOrder(t.shape), range))
    ensures start.FromKey? ==> Belongs(InOrder(t.shape), range, start.key, n)
    ensures start.FromFirst? ==> n == InOrder(t.shape)[0]
    ensures start.FromLast? ==> n == InOrder(t.shape)[count - 1]
    ensures eq <==> count == 1 || (start.FromKey? && Covers(range(n), start.key))
  {
    if count == 1 {
      n := Outermost(t, t.root, L, Top, t.shape);
      if start.FromKey? {
        BelongsIntro(InOrder(t.shape), range, start.key, 0);
      }
      return n, true;
    }
    match start
    case FromFirst =>
      n := Outermost(t, t.root, L, Top, t.shape);
      eq := false;
    case FromLast =>
      n := Outermost(t, t.root, R, Top, t.shape);
      eq := false;
    case FromKey(key) =>
      n, eq := RouteByKey(t, range, key);
  }
}
