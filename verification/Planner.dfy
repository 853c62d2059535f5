/** The planner's peeks: the first unlocked node of a range queue, if it reaches a watermark. */
module Planner {
  import opened BucketLists
  import opened RangeCore
  import opened RangeQueue
  import opened Arithmetic

  /** The first node of a walk that is not locked. */
  ghost function FirstFree(walk: seq<Id>, locked: set<Id>): Pick {
    if walk == [] then Nothing
    else if walk[0] in locked then FirstFree(walk[1..], locked)
    else Picked(walk[0])
  }

  lemma {:induction false} SkipLocked(x: seq<Id>, y: seq<Id>, locked: set<Id>)
    requires forall k :: 0 <= k < |x| ==> x[k] in locked
    ensures FirstFree(x + y, locked) == FirstFree(y, locked)
  {
    if x == [] {
      assert x + y == y;
    } else {
      assert (x + y)[1..] == x[1..] + y;
      SkipLocked(x[1..], y, locked);
    }
  }

  /** What is behind a node of a walk in which every node occurs once is determined. */
  lemma BehindOnce(walk: seq<Id>, n: Id, x: seq<Id>, y: seq<Id>, x': seq<Id>, y': seq<Id>)
    requires Once(walk) && walk == x + [n] + y && walk == x' + [n] + y'
    ensures x == x' && y == y'
  {
    assert walk[|x|] == n && walk[|x'|] == n;
    assert x == walk[..|x|] && x' == walk[..|x'|] && y == walk[|x| + 1..] && y' == walk[|x'| + 1..];
  }

  /** The node behind `n`, which is the first of `y`. */
  method GoOn(q: Queue, n: Id, ghost x: seq<Id>, ghost y: seq<Id>) returns (r: Pick)
    requires q.Valid() && q.Walk() == x + y && y != [] && y[0] == n && n in q.nodes && Once(q.Walk())
    requires Queued(q.lists, n)
    ensures r == FirstOf(y[1..])
  {
    ghost var walk := q.Walk();
    r := q.Prev(Picked(n));
    ghost var x', y' :| walk == x' + [n] + y' && r == FirstOf(y');
    assert walk == x + [n] + y[1..];
    BehindOnce(walk, n, x, y[1..], x', y');
  }

  lemma SkipOne(x: seq<Id>, y: seq<Id>, locked: set<Id>)
    requires y != [] && y[0] in locked && forall k :: 0 <= k < |x| ==> x[k] in locked
    ensures x + y == (x + [y[0]]) + y[1..] && forall k :: 0 <= k < |x + [y[0]]| ==> (x + [y[0]])[k] in locked
  {
  }

  /** The first unlocked node, if it reaches the watermark. */
  ghost function PeekOf(walk: seq<Id>, nodes: map<Id, Place>, locked: set<Id>, watermark: nat): Pick {
    var free := FirstFree(walk, locked);
    if free.Picked? && free.node in nodes && nodes[free.node].value >= watermark then free else Nothing
  }

  /** Take the first unlocked node and lock it if it reaches the watermark; give up otherwise. */
  method Peek(q: Queue, locked: set<Id>, watermark: nat) returns (r: Pick, locked': set<Id>)
    requires q.Valid()
    ensures r == PeekOf(q.Walk(), q.nodes, locked, watermark)
    ensures locked' == if r.Picked? then locked + {r.node} else locked
  {
    ghost var walk := q.Walk();
    WalkVisitsAll(q.Memory(), q.lists);
    var pn := q.Prev(Nothing);
    ghost var x, y := [], walk;
    while pn.Picked? && pn.node in locked
      invariant walk == x + y && pn == FirstOf(y)
      invariant forall k :: 0 <= k < |x| ==> x[k] in locked
      decreases |y|
    {
      InWalk(walk, q.nodes, x, y);
      SkipOne(x, y, locked);
      pn := GoOn(q, pn.node, x, y);
      x, y := x + [y[0]], y[1..];
    }
    SkipLocked(x, y, locked);
    if pn.Nothing? {
      return Nothing, locked;
    }
    InWalk(walk, q.nodes, x, y);
    if q.nodes[pn.node].value >= watermark {
      return pn, locked + {pn.node};
    }
    return Nothing, locked;
  }

  lemma InWalk(walk: seq<Id>, nodes: map<Id, Place>, x: seq<Id>, y: seq<Id>)
    requires walk == x + y && y != [] && Falling(walk, nodes)
    ensures y[0] in nodes && y[0] in walk
  {
    assert walk[|x|] == y[0];
  }

  lemma {:induction false} FirstFreeIsFirst(walk: seq<Id>, locked: set<Id>, n: Id)
    requires n in walk && n !in locked
    ensures FirstFree(walk, locked).Picked?
    ensures exists i, j :: 0 <= i <= j < |walk| && walk[i] == FirstFree(walk, locked).node && walk[j] == n
  {
    if walk[0] in locked {
      assert n in walk[1..];
      FirstFreeIsFirst(walk[1..], locked, n);
      var i, j :| 0 <= i <= j < |walk[1..]| && walk[1..][i] == FirstFree(walk[1..], locked).node && walk[1..][j] == n;
      assert walk[i + 1] == FirstFree(walk, locked).node && walk[j + 1] == n;
    } else {
      var j :| 0 <= j < |walk| && walk[j] == n;
      assert walk[0] == FirstFree(walk, locked).node;
    }
  }

  /** No bucket holds both values below the watermark and values that reach it. */
  ghost predicate Splits(watermark: nat, range: nat, buckets: nat)
    requires 0 < range && 2 <= buckets
  {
    forall v, w :: 0 <= v < watermark <= w ==> BucketOf(v, range, buckets) < BucketOf(w, range, buckets)
  }

  lemma MultipleSplits(k: nat, range: nat, buckets: nat, v: nat, w: nat)
    requires 0 < range && k + 2 <= buckets && v < k * range <= w
    ensures BucketOf(v, range, buckets) < BucketOf(w, range, buckets)
  {
    QuotientAtLeast(v, range, k);
    QuotientAtLeast(w, range, k);
  }

  lemma InsideDoesNot(watermark: nat, range: nat, buckets: nat)
    requires 0 < range && 2 <= buckets && watermark % range != 0 && watermark != 1
    ensures !Splits(watermark, range, buckets)
  {
    var q, r := watermark / range, watermark % range;
    assert watermark == q * range + r;
    var v := if q == 0 then 1 else q * range;
    assert v / range == q by {
      if q == 0 {
        DivideUnique(1, range, 0, 1);
      } else {
        DivideUnique(v, range, q, 0);
      }
    }
    assert BucketOf(v, range, buckets) == BucketOf(watermark, range, buckets);
  }

  lemma BeyondDoesNot(watermark: nat, range: nat, buckets: nat)
    requires 0 < range && 2 <= buckets && 1 < watermark && watermark % range == 0 && (buckets - 2) * range < watermark
    ensures !Splits(watermark, range, buckets)
  {
    var k := watermark / range;
    assert watermark == k * range;
    assert buckets - 1 <= k by {
      QuotientAtLeast(watermark, range, buckets - 2);
      assert k != buckets - 2;
    }
    QuotientAtLeast(watermark - 1, range, k - 1);
    assert (k - 1) * range == k * range - range;
    assert BucketOf(watermark - 1, range, buckets) == BucketOf(watermark, range, buckets);
  }

  /** Just zero, one and the multiples of the range short of the last bucket are such watermarks. */
  lemma SplitsExactly(watermark: nat, range: nat, buckets: nat)
    requires 0 < range && 2 <= buckets
    ensures Splits(watermark, range, buckets)
            <==> watermark <= 1 || (watermark % range == 0 && watermark <= (buckets - 2) * range)
  {
    if 1 < watermark {
      if watermark % range != 0 {
        InsideDoesNot(watermark, range, buckets);
      } else if (buckets - 2) * range < watermark {
        BeyondDoesNot(watermark, range, buckets);
      } else {
        MultiplesSplit(watermark, range, buckets);
      }
    }
  }

  lemma MultiplesSplit(watermark: nat, range: nat, buckets: nat)
    requires 0 < range && 2 <= buckets && watermark % range == 0 && watermark <= (buckets - 2) * range
    ensures Splits(watermark, range, buckets)
  {
    var k := watermark / range;
    assert watermark == k * range;
    assert k + 2 <= buckets by {
      QuotientAtLeast(watermark, range, buckets - 1);
      assert (buckets - 1) * range == (buckets - 2) * range + range;
    }
    forall v, w | 0 <= v < watermark <= w
      ensures BucketOf(v, range, buckets) < BucketOf(w, range, buckets)
    {
      MultipleSplits(k, range, buckets, v, w);
    }
  }

  // ---------------------------------------------------------------- when nothing means that there is nothing

  /** A peek finds nothing although an unlocked node reaches the watermark. */
  ghost predicate Misses(c: Core, lists: seq<seq<Id>>, locked: set<Id>, watermark: nat)
    requires Holds(c, lists)
  {
    && PeekOf(Down(lists, c.last), c.nodes, locked, watermark) == Nothing
    && exists n :: Queued(lists, n) && n !in locked && c.nodes[n].value >= watermark
  }

  /** No peek at a queue of this range and size misses a node. */
  ghost predicate Reliable(watermark: nat, range: nat, buckets: nat) {
    forall c, lists, locked :: Holds(c, lists) && c.range == range && |c.counts| == buckets ==>
                                 !Misses(c, lists, locked, watermark)
  }

  /** Where a node reaches a watermark that splits the buckets, the first unlocked node does. */
  lemma FirstReaches(c: Core, lists: seq<seq<Id>>, locked: set<Id>, watermark: nat, n: Id)
    requires Holds(c, lists) && Splits(watermark, c.range, |c.counts|)
    requires Queued(lists, n) && n !in locked && c.nodes[n].value >= watermark
    ensures PeekOf(Down(lists, c.last), c.nodes, locked, watermark).Picked?
  {
    var walk := Down(lists, c.last);
    WalkVisitsAll(c, lists);
    FirstFreeIsFirst(walk, locked, n);
    var free := FirstFree(walk, locked).node;
    var i, j :| 0 <= i <= j < |walk| && walk[i] == free && walk[j] == n;
    assert free in walk;
    HigherReaches(c, lists, watermark, n, free);
  }

  lemma HigherReaches(c: Core, lists: seq<seq<Id>>, watermark: nat, n: Id, m: Id)
    requires Holds(c, lists) && Splits(watermark, c.range, |c.counts|)
    requires Queued(lists, n) && Queued(lists, m) && c.nodes[n].bucket <= c.nodes[m].bucket
    requires c.nodes[n].value >= watermark
    ensures c.nodes[m].value >= watermark
  {
    assert c.nodes[n].bucket == BucketOf(c.nodes[n].value, c.range, |c.counts|);
    assert c.nodes[m].bucket == BucketOf(c.nodes[m].value, c.range, |c.counts|);
  }

  /** With a watermark that splits the buckets, a peek that finds nothing means that no unlocked node
      reaches the watermark. */
  lemma NothingMeansNone(c: Core, lists: seq<seq<Id>>, locked: set<Id>, watermark: nat)
    requires Holds(c, lists) && Splits(watermark, c.range, |c.counts|)
    ensures !Misses(c, lists, locked, watermark)
  {
    forall n | Queued(lists, n) && n !in locked && c.nodes[n].value >= watermark
      ensures PeekOf(Down(lists, c.last), c.nodes, locked, watermark).Picked?
    {
      FirstReaches(c, lists, locked, watermark, n);
    }
  }

  /** The queue of two nodes, filed under `v` and then under `w`. */
  ghost function Two(range: nat, buckets: nat, v: nat, w: nat): (Core, seq<seq<Id>>)
    requires 0 < range && 2 <= buckets
  {
    EmptyHolds(range, buckets);
    AddedHolds(Empty(range, buckets), NoLists(buckets), 0, v);
    (Added(Added(Empty(range, buckets), 0, v), 1, w),
     WithAdded(WithAdded(NoLists(buckets), BucketOf(v, range, buckets), 0), BucketOf(w, range, buckets), 1))
  }

  lemma TwoHold(range: nat, buckets: nat, v: nat, w: nat, c: Core, lists: seq<seq<Id>>)
    requires 0 < range && 2 <= buckets && BucketOf(w, range, buckets) <= BucketOf(v, range, buckets)
    requires (c, lists) == Two(range, buckets, v, w)
    ensures Holds(c, lists) && c.range == range && |c.counts| == buckets
    ensures 0 in c.nodes && c.nodes[0].value == v && 1 in c.nodes && c.nodes[1].value == w && Queued(lists, 1)
    ensures Down(lists, c.last) != [] && Down(lists, c.last)[0] == 0
  {
    var bv, bw := BucketOf(v, range, buckets), BucketOf(w, range, buckets);
    var e, none := Empty(range, buckets), NoLists(buckets);
    EmptyHolds(range, buckets);
    AddedHolds(e, none, 0, v);
    AddedHolds(Added(e, 0, v), WithAdded(none, bv, 0), 1, w);
    assert 1 in lists[bw];
    assert c.last == bv && lists[bv][0] == 0;
  }

  /** If a value below the watermark has as high a bucket as one that reaches it, filing the two in
      that order makes a peek miss the second. */
  lemma TwoMissed(range: nat, buckets: nat, v: nat, w: nat, watermark: nat, c: Core, lists: seq<seq<Id>>)
    requires 0 < range && 2 <= buckets && BucketOf(w, range, buckets) <= BucketOf(v, range, buckets)
    requires v < watermark <= w && (c, lists) == Two(range, buckets, v, w)
    ensures Holds(c, lists) && Misses(c, lists, {}, watermark)
  {
    TwoHold(range, buckets, v, w, c, lists);
  }

  /** Peeks are reliable just for zero, one and the multiples of the range short of the last bucket. */
  lemma ReliableExactly(watermark: nat, range: nat, buckets: nat)
    requires 0 < range && 2 <= buckets
    ensures Reliable(watermark, range, buckets)
            <==> watermark <= 1 || (watermark % range == 0 && watermark <= (buckets - 2) * range)
  {
    SplitsExactly(watermark, range, buckets);
    if Splits(watermark, range, buckets) {
      forall c, lists, locked | Holds(c, lists) && c.range == range && |c.counts| == buckets
        ensures !Misses(c, lists, locked, watermark)
      {
        NothingMeansNone(c, lists, locked, watermark);
      }
    } else {
      var v: nat, w: nat :| v < watermark <= w && BucketOf(w, range, buckets) <= BucketOf(v, range, buckets);
      var (c, lists) := Two(range, buckets, v, w);
      TwoHold(range, buckets, v, w, c, lists);
      TwoMissed(range, buckets, v, w, watermark, c, lists);
    }
  }

  method FileTwo(range: nat, count: nat, v: nat, w: nat) returns (q: Queue)
    requires 0 < range && 0 < count && BucketOf(w, range, count + 1) <= BucketOf(v, range, count + 1)
    ensures q.Valid() && (q.Memory(), q.lists) == Two(range, count + 1, v, w)
  {
    q := new Queue(range, count);
    EmptyHolds(range, count + 1);
    AddedHolds(q.Memory(), q.lists, 0, v);
    q.Add(0, v);
    q.Add(1, w);
    TwoHold(range, count + 1, v, w, q.Memory(), q.lists);
  }

  /** The same with the queue itself: the peek returns nothing, and an unlocked node reaches the watermark. */
  method PeekMisses(range: nat, count: nat, v: nat, w: nat, watermark: nat) returns (q: Queue, r: Pick)
    requires 0 < range && 0 < count && v < watermark <= w
    requires BucketOf(w, range, count + 1) <= BucketOf(v, range, count + 1)
    ensures q.Valid() && q.range == range && |q.counts| == count + 1
    ensures r == Nothing && 1 in q.nodes && q.nodes[1].value >= watermark && Misses(q.Memory(), q.lists, {}, watermark)
  {
    q := FileTwo(range, count, v, w);
    TwoHold(range, count + 1, v, w, q.Memory(), q.lists);
    TwoMissed(range, count + 1, v, w, watermark, q.Memory(), q.lists);
    var locked;
    r, locked := Peek(q, {}, watermark);
  }
}
