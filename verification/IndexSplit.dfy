/**
 Putting the replacements of a node in its place in the index, and finding versions there: the first
 replacement takes over the node's place in the tree, the others are inserted by their least key.
 */
module IndexSplit {
  import opened Sequences
  import opened RbShape
  import opened RbTree
  import opened RbInsert
  import opened RbUnlink
  import opened RbWalk
  import opened NodeRouting
  import opened Redistribution

  // ---------------------------------------------------------------- orders

  ghost predicate Single(order: seq<Node>) {
    forall i, j :: 0 <= i < j < |order| ==> order[i] != order[j]
  }

  lemma SplitOnce(order: seq<Node>, n: Node, a: seq<Node>, b: seq<Node>, x: seq<Node>, y: seq<Node>)
    requires Single(order) && order == a + [n] + b && order == x + [n] + y
    ensures a == x && b == y
  {
    assert order[|a|] == n && order[|x|] == n;
    assert a == order[..|a|] && x == order[..|x|] && b == order[|a| + 1..] && y == order[|x| + 1..];
  }

  lemma JoinSingle(a: seq<Node>, n: Node, b: seq<Node>)
    requires Single(a) && Single(b) && n !in a && n !in b && forall x :: x in a ==> x !in b
    ensures Single(a + [n] + b)
  {
    forall i, j | 0 <= i < j < |a + [n] + b|
      ensures (a + [n] + b)[i] != (a + [n] + b)[j]
    {
      if i < |a| {
        assert a[i] in a;
      }
      if |a| < j {
        assert b[j - |a| - 1] in b;
      }
    }
  }

  /** A tree that holds every node once lists every node once. */
  lemma {:induction false} DistinctOrder(s: Shape)
    requires Distinct(s)
    ensures Single(InOrder(s))
  {
    if s.Branch? {
      DistinctOrder(s.left);
      DistinctOrder(s.right);
      forall x
        ensures x in InOrder(s.left) <==> x in Nodes(s.left)
        ensures x in InOrder(s.right) <==> x in Nodes(s.right)
      {
        NodesInOrder(s.left, x);
        NodesInOrder(s.right, x);
      }
      JoinSingle(InOrder(s.left), s.node, InOrder(s.right));
    }
  }

  lemma DisjointSingle(order: seq<Node>, range: Node -> Range)
    requires Disjoint(RangesOf(order, range))
    ensures Single(order)
  {
    var ranges := RangesOf(order, range);
    forall i, j | 0 <= i < j < |order|
      ensures order[i] != order[j]
    {
      assert ranges[i].max < ranges[j].min && ranges[i].min <= ranges[i].max;
    }
  }

  lemma DisjointWithin(a: seq<Node>, x: seq<Node>, b: seq<Node>, range: Node -> Range)
    requires Disjoint(RangesOf(a + x + b, range))
    ensures Disjoint(RangesOf(a + b, range))
  {
    var whole, part := RangesOf(a + x + b, range), RangesOf(a + b, range);
    forall i, j | 0 <= i < j < |a + b|
      ensures part[i].max < part[j].min
    {
      var i', j' := if i < |a| then i else i + |x|, if j < |a| then j else j + |x|;
      assert part[i] == whole[i'] && part[j] == whole[j'];
    }
    forall i | 0 <= i < |a + b|
      ensures part[i].min <= part[i].max
    {
      var i' := if i < |a| then i else i + |x|;
      assert part[i] == whole[i'];
    }
  }

  // ---------------------------------------------------------------- inserting one node

  /** The least keys of a node and of the one looked for. */
  function MinComparator(range: Node -> Range, key: int): Node -> int {
    (n: Node) => if range(n).min < key then -1 else if range(n).min > key then 1 else 0
  }

  lemma MinAround(a: seq<Node>, n: Node, b: seq<Node>, range: Node -> Range)
    requires Disjoint(RangesOf(a + [n] + b, range))
    ensures AllCompare(a, MinComparator(range, range(n).min), -1)
    ensures AllCompare(b, MinComparator(range, range(n).min), 1)
  {
    var ranges := RangesOf(a + [n] + b, range);
    forall i | 0 <= i < |a|
      ensures range(a[i]).min < range(n).min
    {
      assert ranges[i] == range(a[i]) && ranges[|a|] == range(n);
    }
    forall i | 0 <= i < |b|
      ensures range(n).min < range(b[i]).min
    {
      assert ranges[|a| + 1 + i] == range(b[i]) && ranges[|a|] == range(n);
    }
  }

  lemma AroundAscends(a: seq<Node>, b: seq<Node>, cmp: Node -> int)
    requires AllCompare(a, cmp, -1) && AllCompare(b, cmp, 1)
    ensures Ascending(a + b, cmp)
  {
  }

  /** The one place where everything before is smaller and everything behind greater. */
  lemma GapUnique(a: seq<Node>, b: seq<Node>, x: seq<Node>, y: seq<Node>, cmp: Node -> int)
    requires a + b == x + y && AllCompare(a, cmp, -1) && AllCompare(b, cmp, 1)
    requires AllCompare(x, cmp, -1) && AllCompare(y, cmp, 1)
    ensures a == x && b == y
  {
    var s := a + b;
    assert |a| <= |x| by {
      assert |x| < |s| ==> s[|x|] == y[0];
    }
    assert |x| <= |a| by {
      assert |a| < |s| ==> s[|a|] == b[0];
    }
    assert a == s[..|a|] && x == s[..|x|] && b == s[|a|..] && y == s[|x|..];
  }

  /** A node put beside the one a search ended at is put in the gap. */
  lemma PutInGap(gap: Context, before: seq<Node>, after: seq<Node>, n: Node)
    requires gap.Down? && before == InOrder(Plug(gap, Leaf)) && Single(before)
    requires PutBeside(before, after, gap.node, n, gap.side)
    ensures before == Before(gap) + After(gap) && after == Before(gap) + [n] + After(gap)
  {
    PlugOrder(gap, Leaf);
    assert InOrder(Leaf) == [];
    if gap.side.L? {
      PutInFront(before, after, Before(gap), gap.node, InOrder(gap.sibling) + After(gap.up), n);
    } else {
      PutBehind(before, after, Before(gap.up) + InOrder(gap.sibling), gap.node, After(gap), n);
    }
  }

  lemma PutInFront(before: seq<Node>, after: seq<Node>, front: seq<Node>, p: Node, rest: seq<Node>, n: Node)
    requires before == front + ([p] + rest) && Single(before) && PutBeside(before, after, p, n, L)
    ensures after == front + [n] + ([p] + rest)
  {
    var a: seq<Node>, b: seq<Node> :| before == a + [p] + b && after == a + [n] + [p] + b;
    assert before == front + [p] + rest;
    SplitOnce(before, p, a, b, front, rest);
  }

  lemma PutBehind(before: seq<Node>, after: seq<Node>, front: seq<Node>, p: Node, rest: seq<Node>, n: Node)
    requires before == front + [p] + rest && Single(before) && PutBeside(before, after, p, n, R)
    ensures after == front + [p] + [n] + rest
  {
    var a: seq<Node>, b: seq<Node> :| before == a + [p] + b && after == a + [p] + [n] + b;
    SplitOnce(before, p, a, b, front, rest);
  }

  lemma GapOpen(mem: Memory, root: Node, shape: Shape, gap: Context)
    requires Zipped(mem, root, Top, shape) && Plug(gap, Leaf) == shape && gap.Down?
    ensures gap.node != NULL && gap.node in mem && gap.node in Nodes(shape) && mem[gap.node].Kid(gap.side) == NULL
  {
    GapNode(mem, root, shape, gap);
    ZippedPlug(mem, root, gap, Leaf);
    Surroundings(mem, root, gap, Leaf);
  }

  /** Insert a node by its least key: it comes to stand where its range belongs. */
  method Insert(t: Tree, range: Node -> Range, n: Node, ghost a: seq<Node>, ghost b: seq<Node>)
    requires t.Valid() && InOrder(t.shape) == a + b && Disjoint(RangesOf(a + [n] + b, range))
    requires n != NULL && n in t.mem && n !in Nodes(t.shape)
    modifies t
    ensures t.Valid() && InOrder(t.shape) == a + [n] + b
    ensures Nodes(t.shape) == old(Nodes(t.shape)) + {n} && t.mem.Keys == old(t.mem.Keys)
  {
    ghost var order := a + b;
    MinAround(a, n, b, range);
    AroundAscends(a, b, MinComparator(range, range(n).min));
    assert Single(order) by {
      DisjointWithin(a, [n], b, range);
      DisjointSingle(order, range);
    }
    var rc, p, gap := Get(t, MinComparator(range, range(n).min));
    FoundGap(t.mem, t.root, t.shape, a, b, MinComparator(range, range(n).min), rc, p, gap);
    Set(t, p, rc, n);
    if p != NULL {
      PutInGap(gap, order, InOrder(t.shape), n);
    }
  }

  /** A search that nothing compares equal to ends in the gap between the smaller and the greater. */
  lemma FoundGap(mem: Memory, root: Node, shape: Shape, a: seq<Node>, b: seq<Node>, cmp: Node -> int,
        rc: int, p: Node, gap: Context)
    requires Zipped(mem, root, Top, shape) && InOrder(shape) == a + b
    requires AllCompare(a, cmp, -1) && AllCompare(b, cmp, 1)
    requires rc == 0 && p != NULL ==> p in Nodes(shape) && cmp(p) == 0
    requires p == NULL <==> shape.Leaf?
    requires !(rc == 0 && p != NULL) ==>
      && Plug(gap, Leaf) == shape && ParentOf(gap) == p
      && AllCompare(Before(gap), cmp, -1) && AllCompare(After(gap), cmp, 1)
      && (gap.Down? ==> rc == if gap.side.L? then 1 else -1)
    ensures p == NULL ==> a + b == []
    ensures p != NULL ==>
      && rc != 0 && gap.Down? && gap.node == p && SideOf(rc) == gap.side && Plug(gap, Leaf) == shape
      && p in mem && p in Nodes(shape) && mem[p].Kid(gap.side) == NULL
      && Before(gap) == a && After(gap) == b
  {
    if p != NULL {
      NodesInOrder(shape, p);
      assert rc != 0;
      GapOpen(mem, root, shape, gap);
      PlugOrder(gap, Leaf);
      GapUnique(a, b, Before(gap), After(gap), cmp);
    }
  }

  // ---------------------------------------------------------------- all replacements

  /** Put the first replacement where the node was. */
  method TakePlace(t: Tree, node: Node, n: Node, ghost left: seq<Node>, ghost right: seq<Node>)
    requires t.Valid() && InOrder(t.shape) == left + [node] + right
    requires node in t.mem && n != NULL && n in t.mem && n !in Nodes(t.shape)
    modifies t
    ensures t.Valid() && InOrder(t.shape) == left + [n] + right
    ensures Nodes(t.shape) == old(Nodes(t.shape)) - {node} + {n} && t.mem.Keys == old(t.mem.Keys)
  {
    ghost var order := left + [node] + right;
    DistinctOrder(t.shape);
    assert order[|left|] == node;
    NodesInOrder(t.shape, node);
    Replace(t, node, n);
    ghost var a, b :| order == a + [node] + b && InOrder(t.shape) == a + [n] + b;
    SplitOnce(order, node, a, b, left, right);
  }

  lemma DisjointMiddle(left: seq<Node>, news: seq<Node>, right: seq<Node>, k: nat, range: Node -> Range)
    requires Disjoint(RangesOf(left + news + right, range)) && k < |news|
    ensures Disjoint(RangesOf(left + news[..k] + [news[k]] + right, range))
  {
    assert news == news[..k + 1] + news[k + 1..] && news[..k + 1] == news[..k] + [news[k]];
    assert left + news + right == (left + news[..k] + [news[k]]) + news[k + 1..] + right;
    DisjointWithin(left + news[..k] + [news[k]], news[k + 1..], right, range);
  }

  /** The replacements come to stand in the node's place, in their order. */
  method PutReplacements(t: Tree, range: Node -> Range, node: Node, news: seq<Node>,
        ghost left: seq<Node>, ghost right: seq<Node>)
    requires t.Valid() && InOrder(t.shape) == left + [node] + right && node in t.mem
    requires news != [] && Disjoint(RangesOf(left + news + right, range))
    requires forall n :: n in news ==> n != NULL && n in t.mem && n !in Nodes(t.shape)
    modifies t
    ensures t.Valid() && InOrder(t.shape) == left + news + right
  {
    assert news[0] in news && news[..1] == [news[0]];
    TakePlace(t, node, news[0], left, right);
    for k := 1 to |news|
      invariant t.Valid() && InOrder(t.shape) == left + news[..k] + right
      invariant t.mem.Keys == old(t.mem.Keys)
    {
      assert news[k] in news;
      PutNext(t, range, news, k, left, right);
    }
    assert news[..|news|] == news;
  }

  method PutNext(t: Tree, range: Node -> Range, news: seq<Node>, k: nat, ghost left: seq<Node>, ghost right: seq<Node>)
    requires t.Valid() && k < |news| && InOrder(t.shape) == left + news[..k] + right
    requires Disjoint(RangesOf(left + news + right, range)) && news[k] != NULL && news[k] in t.mem
    modifies t
    ensures t.Valid() && InOrder(t.shape) == left + news[..k + 1] + right && t.mem.Keys == old(t.mem.Keys)
  {
    DisjointMiddle(left, news, right, k, range);
    NotYet(left + news[..k], news[k], right, range);
    NodesInOrder(t.shape, news[k]);
    Insert(t, range, news[k], left + news[..k], right);
    assert news[..k + 1] == news[..k] + [news[k]];
    Associate(left, news[..k], [news[k]]);
  }

  lemma NotYet(a: seq<Node>, n: Node, b: seq<Node>, range: Node -> Range)
    requires Disjoint(RangesOf(a + [n] + b, range))
    ensures n !in a + b
  {
    var order := a + [n] + b;
    DisjointSingle(order, range);
    assert order[|a|] == n;
    forall i | 0 <= i < |a + b|
      ensures (a + b)[i] != n
    {
      assert (a + b)[i] == order[if i < |a| then i else i + 1];
    }
  }

  // ---------------------------------------------------------------- routing

  lemma RangesJoin(left: seq<Node>, news: seq<Node>, right: seq<Node>, range: Node -> Range)
    ensures RangesOf(left + news + right, range)
            == RangesOf(left, range) + RangesOf(news, range) + RangesOf(right, range)
  {
  }

  /** A key that was placed with a replacement belongs to it in the index just if it is not below the first
      replacement, or nothing is to the left. */
  lemma PlacedBelongs(left: seq<Node>, news: seq<Node>, right: seq<Node>, range: Node -> Range, key: int, j: nat)
    requires Disjoint(RangesOf(left + news + right, range)) && BelongsAt(RangesOf(news, range), key, j)
    requires right != [] ==> key < range(right[0]).min
    ensures Belongs(left + news + right, range, key, news[j]) <==> left == [] || range(news[0]).min <= key
  {
    var order := left + news + right;
    RangesJoin(left, news, right, range);
    PlacedIsRouted(RangesOf(left, range), RangesOf(news, range), RangesOf(right, range), key, j);
    assert order[|left| + j] == news[j];
    if Belongs(order, range, key, news[j]) {
      var i :| 0 <= i < |order| && order[i] == news[j] && BelongsAt(RangesOf(order, range), key, i);
      NodesApart(order, range, i, |left| + j);
    }
  }

  lemma BelongsToOne(order: seq<Node>, range: Node -> Range, key: int, m: Node, n: Node)
    requires Disjoint(RangesOf(order, range)) && Belongs(order, range, key, m) && Belongs(order, range, key, n)
    ensures m == n
  {
    var i :| 0 <= i < |order| && order[i] == m && BelongsAt(RangesOf(order, range), key, i);
    var j :| 0 <= j < |order| && order[j] == n && BelongsAt(RangesOf(order, range), key, j);
    BelongsOnce(RangesOf(order, range), key, i, j);
  }

  /** Split a node: its versions go to the replacements, and these into the index. A read of a version's key
      is then routed to the replacement that got it, just if the key is not below the first replacement or
      the node was the leftmost. */
  method Split(t: Tree, range: Node -> Range, node: Node, news: seq<Node>, versions: seq<Version>,
        ghost left: seq<Node>, ghost right: seq<Node>) returns (placed: seq<seq<Version>>)
    requires t.Valid() && InOrder(t.shape) == left + [node] + right && node in t.mem
    requires news != [] && Disjoint(RangesOf(left + news + right, range)) && SortedVersions(versions)
    requires forall n :: n in news ==> n != NULL && n in t.mem && n !in Nodes(t.shape)
    requires right != [] ==> forall v :: v in versions ==> v.key < range(right[0]).min
    modifies t
    ensures t.Valid() && InOrder(t.shape) == left + news + right
    ensures |placed| == |news| && Flat(placed) == versions
    ensures forall j, k :: 0 <= j < |placed| && 0 <= k < |placed[j]| ==>
              (Belongs(left + news + right, range, placed[j][k].key, news[j])
               <==> left == [] || range(news[0]).min <= placed[j][k].key)
  {
    var ranges := seq(|news|, i requires 0 <= i < |news| => range(news[i]));
    assert ranges == RangesOf(news, range);
    MiddleDisjoint(left, news, right, range);
    placed := Redistribute(versions, ranges);
    forall j, k | 0 <= j < |placed| && 0 <= k < |placed[j]|
      ensures Belongs(left + news + right, range, placed[j][k].key, news[j])
              <==> left == [] || range(news[0]).min <= placed[j][k].key
    {
      FlatHas(placed, j, k);
      PlacedBelongs(left, news, right, range, placed[j][k].key, j);
    }
    PutReplacements(t, range, node, news, left, right);
  }

  lemma MiddleDisjoint(left: seq<Node>, news: seq<Node>, right: seq<Node>, range: Node -> Range)
    requires Disjoint(RangesOf(left + news + right, range))
    ensures Disjoint(RangesOf(news, range))
  {
    assert left + news + right == [] + left + (news + right);
    DisjointWithin([], left, news + right, range);
    assert [] + (news + right) == news + right + [];
    DisjointWithin(news, right, [], range);
    assert news + [] == news;
  }

  lemma {:induction false} FlatHas(placed: seq<seq<Version>>, j: nat, k: nat)
    requires j < |placed| && k < |placed[j]|
    ensures placed[j][k] in Flat(placed)
  {
    if j < |placed| - 1 {
      FlatHas(placed[..|placed| - 1], j, k);
    }
  }

  /** Reading: the index opened at a key gives the replacement the key was placed with, just if the key is not
      below the first replacement or nothing is to the left. */
  method RoutePlaced(t: Tree, count: nat, range: Node -> Range, key: int,
        ghost left: seq<Node>, ghost news: seq<Node>, ghost right: seq<Node>, ghost j: nat) returns (n: Node)
    requires t.Valid() && InOrder(t.shape) == left + news + right && count == |InOrder(t.shape)|
    requires Disjoint(RangesOf(left + news + right, range)) && BelongsAt(RangesOf(news, range), key, j)
    requires right != [] ==> key < range(right[0]).min
    ensures n == news[j] <==> left == [] || range(news[0]).min <= key
  {
    var eq;
    n, eq := Route(t, count, range, FromKey(key));
    PlacedBelongs(left, news, right, range, key, j);
    if Belongs(left + news + right, range, key, news[j]) {
      BelongsToOne(left + news + right, range, key, n, news[j]);
    }
  }
}
