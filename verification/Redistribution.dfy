/** Handing the versions held in memory by a node to the nodes it is split into. */
module Redistribution {
  import opened NodeRouting
  import opened Sequences

  datatype Version = Version(key: int, lsn: nat)

  ghost predicate SortedVersions(vs: seq<Version>) {
    forall i, j :: 0 <= i < j < |vs| ==> vs[i].key <= vs[j].key
  }

  /** Every version is where its key belongs among the new nodes. */
  ghost predicate WellPlaced(placed: seq<seq<Version>>, ranges: seq<Range>) {
    && |placed| <= |ranges|
    && forall j, k :: 0 <= j < |placed| && 0 <= k < |placed[j]| ==> BelongsAt(ranges, placed[j][k].key, j)
  }

  lemma {:induction false} FlatEmpty(placed: seq<seq<Version>>, n: nat)
    ensures Flat(placed + seq(n, _ => [])) == Flat(placed)
    decreases n
  {
    var empties := seq(n, _ => []);
    if n == 0 {
      assert placed + empties == placed;
    } else {
      var fewer := seq(n - 1, _ => []);
      assert placed + empties == (placed + fewer) + [[]];
      FlatSnoc(placed + fewer, []);
      FlatEmpty(placed, n - 1);
    }
  }

  /** The versions from `i` on that belong before the next node; none can be below this node. */
  method Take(versions: seq<Version>, i: nat, ranges: seq<Range>, prev: nat) returns (taken: seq<Version>, next: nat)
    requires i <= |versions| && prev < |ranges| && SortedVersions(versions) && Disjoint(ranges)
    requires prev == 0 || (i < |versions| ==> ranges[prev].min <= versions[i].key)
    ensures i <= next <= |versions| && taken == versions[i..next]
    ensures forall k :: 0 <= k < |taken| ==> BelongsAt(ranges, taken[k].key, prev)
    ensures next < |versions| ==> prev + 1 < |ranges| && ranges[prev + 1].min <= versions[next].key
  {
    taken, next := [], i;
    while next < |versions|
      invariant i <= next <= |versions| && taken == versions[i..next]
      invariant forall k :: 0 <= k < |taken| ==> BelongsAt(ranges, taken[k].key, prev)
    {
      if prev + 1 < |ranges| && versions[next].key >= ranges[prev + 1].min {
        return;
      }
      assert versions[i].key <= versions[next].key;
      taken := taken + [versions[next]];
      next := next + 1;
    }
  }

  /** Every version goes to exactly one new node, in order, and to the one its key belongs to. */
  method Redistribute(versions: seq<Version>, ranges: seq<Range>) returns (placed: seq<seq<Version>>)
    requires ranges != [] && SortedVersions(versions) && Disjoint(ranges)
    ensures |placed| == |ranges| && Flat(placed) == versions && WellPlaced(placed, ranges)
  {
    placed := [];
    var i, prev := 0, 0;
    while i < |versions|
      invariant i <= |versions| && prev == |placed| <= |ranges|
      invariant i < |versions| ==> prev < |ranges| && (prev == 0 || ranges[prev].min <= versions[i].key)
      invariant Flat(placed) == versions[..i] && WellPlaced(placed, ranges)
      decreases |ranges| - prev, |versions| - i
    {
      var taken, next := Take(versions, i, ranges, prev);
      FlatSnoc(placed, taken);
      assert versions[..next] == versions[..i] + versions[i..next];
      placed := placed + [taken];
      prev, i := prev + 1, next;
    }
    assert versions[..i] == versions;
    FlatEmpty(placed, |ranges| - prev);
    placed := placed + seq(|ranges| - prev, _ => []);
  }

  // ---------------------------------------------------------------- placement and routing agree

  /** In the whole index, with nodes to the left and right of the new ones, a key is routed to the new
      node that holds it just if it is not below the first new node, or nothing is to the left. */
  lemma PlacedIsRouted(left: seq<Range>, news: seq<Range>, right: seq<Range>, key: int, j: nat)
    requires Disjoint(left + news + right) && BelongsAt(news, key, j) && (right != [] ==> key < right[0].min)
    ensures BelongsAt(left + news + right, key, |left| + j) <==> left == [] || news[0].min <= key
  {
    var all := left + news + right;
    assert all[|left| + j] == news[j] && all[|left|] == news[0];
    if |left| + j + 1 < |all| {
      assert all[|left| + j + 1] == if j + 1 < |news| then news[j + 1] else right[0];
    }
    if 0 < j {
      assert all[|left|].max < all[|left| + j].min && all[|left|].min <= all[|left|].max;
    }
  }

  /** Otherwise it is routed to the left neighbour. */
  lemma BelowIsRoutedLeft(left: seq<Range>, news: seq<Range>, right: seq<Range>, key: int)
    requires left != [] && news != [] && key < news[0].min && left[|left| - 1].min <= key
    ensures BelongsAt(left + news + right, key, |left| - 1)
  {
  }

  // ---------------------------------------------------------------- the compaction after

  /** A compaction gives new nodes whose ranges begin at the least of the keys and end at the greatest. */
  ghost predicate Spans(news: seq<Range>, keys: seq<int>) {
    && news != [] && Disjoint(news) && news[0].min in keys && news[|news| - 1].max in keys
    && forall k :: k in keys ==> news[0].min <= k <= news[|news| - 1].max
  }

  /** A key is behind everything to the left and before everything to the right. */
  ghost predicate Between(left: seq<Range>, right: seq<Range>, key: int) {
    (left == [] || left[|left| - 1].max < key) && (right == [] || key < right[0].min)
  }

  ghost predicate Below(a: seq<Range>, b: seq<Range>) {
    a == [] || b == [] || a[|a| - 1].max < b[0].min
  }

  lemma DisjointJoin(a: seq<Range>, b: seq<Range>)
    requires Disjoint(a) && Disjoint(b)
    ensures Disjoint(a + b) <==> Below(a, b)
  {
    var all := a + b;
    if a == [] {
      assert all == b;
    } else if b == [] {
      assert all == a;
    } else {
      assert all[|a| - 1] == a[|a| - 1] && all[|a|] == b[0];
      if Below(a, b) {
        forall i, j | 0 <= i < j < |all|
          ensures all[i].max < all[j].min
        {
          if i < |a| <= j {
            assert i == |a| - 1 || a[i].max < a[|a| - 1].min;
            assert j == |a| || b[0].max < b[j - |a|].min;
          }
        }
      }
    }
  }

  lemma DisjointParts(a: seq<Range>, b: seq<Range>)
    requires Disjoint(a + b)
    ensures Disjoint(a) && Disjoint(b)
  {
    assert forall i :: 0 <= i < |a| ==> a[i] == (a + b)[i];
    assert forall i :: 0 <= i < |b| ==> b[i] == (a + b)[|a| + i];
  }

  lemma KeysBetween(left: seq<Range>, right: seq<Range>, news: seq<Range>, keys: seq<int>)
    requires Spans(news, keys)
    ensures (forall k :: k in keys ==> Between(left, right, k)) <==> Below(left, news) && Below(news, right)
  {
    var least, greatest := news[0].min, news[|news| - 1].max;
    assert least in keys && greatest in keys;
    if forall k :: k in keys ==> Between(left, right, k) {
      assert Between(left, right, least) && Between(left, right, greatest);
    }
  }

  /** The ranges stay disjoint just if all keys the compacted node held are between its neighbours. */
  lemma CompactionKeepsDisjoint(left: seq<Range>, right: seq<Range>, news: seq<Range>, keys: seq<int>)
    requires Disjoint(left) && Disjoint(right) && Spans(news, keys)
    ensures Disjoint(left + news + right) <==> forall k :: k in keys ==> Between(left, right, k)
  {
    KeysBetween(left, right, news, keys);
    DisjointJoin(left, news);
    if Disjoint(left + news) {
      DisjointJoin(left + news, right);
      assert right != [] ==> (left + news)[|left + news| - 1] == news[|news| - 1];
    } else if Disjoint(left + news + right) {
      DisjointParts(left + news, right);
    }
  }

  /** Of the versions a split places, those with the first new node may not be above the left neighbour's keys; all
      others are between the neighbours of the node they are placed with. */
  lemma PlacedBetween(left: seq<Range>, news: seq<Range>, right: seq<Range>, key: int, j: nat)
    requires Disjoint(left + news + right) && BelongsAt(news, key, j) && (right != [] ==> key < right[0].min)
    ensures Between(left + news[..j], news[j + 1..] + right, key)
            <==> 0 < j || left == [] || left[|left| - 1].max < key
  {
    var all := left + news + right;
    assert all[|left| + j] == news[j];
    if 0 < j {
      assert all[|left| + j - 1] == news[j - 1] == (left + news[..j])[|left| + j - 1];
    }
  }

  /** The next compaction of a new node, which holds keys of its range and keys placed with it: the ranges stay
      disjoint just if it is not the first, or nothing is to the left, or all keys are above the left neighbour's. */
  lemma NextCompaction(left: seq<Range>, news: seq<Range>, right: seq<Range>, j: nat, again: seq<Range>,
                       keys: seq<int>)
    requires Disjoint(left + news + right) && j < |news| && Spans(again, keys)
    requires forall k :: k in keys ==> BelongsAt(news, k, j) && (right != [] ==> k < right[0].min)
    ensures Disjoint((left + news[..j]) + again + (news[j + 1..] + right))
            <==> 0 < j || left == [] || forall k :: k in keys ==> left[|left| - 1].max < k
  {
    assert left + news + right == (left + news[..j]) + ([news[j]] + (news[j + 1..] + right));
    DisjointParts(left + news[..j], [news[j]] + (news[j + 1..] + right));
    DisjointParts([news[j]], news[j + 1..] + right);
    CompactionKeepsDisjoint(left + news[..j], news[j + 1..] + right, again, keys);
    forall k | k in keys
      ensures Between(left + news[..j], news[j + 1..] + right, k)
              <==> 0 < j || left == [] || left[|left| - 1].max < k
    {
      PlacedBetween(left, news, right, k, j);
    }
  }

  /** Keys that were routed to a node are always between its neighbours. */
  lemma RoutedBetween(left: seq<Range>, node: Range, right: seq<Range>, key: int)
    requires Disjoint(left + [node] + right) && BelongsAt(left + [node] + right, key, |left|)
    ensures Between(left, right, key)
  {
    var all := left + [node] + right;
    if left != [] {
      assert all[|left| - 1] == left[|left| - 1] && all[|left|] == node;
    }
    if right != [] {
      assert all[|left| + 1] == right[0];
    }
  }
}
