/**
 The memory of a queue of nodes in buckets by ranges of their values. A node remembers its bucket,
 also after it was deleted from the queue.
 */
module RangeCore {
  import opened Machine
  import opened BucketLists

  datatype Place = Place(bucket: nat, value: nat)

  /** The bucket of a value: zero has its own, and the last takes everything beyond. */
  function BucketOf(value: nat, range: nat, buckets: nat): (b: nat)
    requires 0 < range && 2 <= buckets
    ensures b < buckets
  {
    if value == 0 then 0
    else if value / range + 1 >= buckets then buckets - 1
    else value / range + 1
  }

  // ---------------------------------------------------------------- the queue's memory

  /** Counters of 32 bits, the highest bucket in use, what every node filed since it was initialised
      remembers, and the links. */
  datatype Core = Core(range: nat, counts: seq<nat>, last: nat, nodes: map<Id, Place>, links: Links)

  ghost predicate Sound(c: Core) {
    && 0 < c.range && 2 <= |c.counts| && c.last < |c.counts|
    && (forall b :: 0 <= b < |c.counts| ==> c.counts[b] < TWO32 && Head(b) in c.links)
    && (forall n :: n in c.nodes ==> c.nodes[n].bucket < |c.counts| && Of(n) in c.links)
    && Closed(c.links)
  }

  /** The highest bucket in use from `i` down, or `last` if there is none. */
  function Lower(counts: seq<nat>, i: int, last: nat): nat
    requires i < |counts|
    decreases i + 1
  {
    if i < 0 then last else if counts[i] > 0 then i else Lower(counts, i - 1, last)
  }

  function Added(c: Core, n: Id, value: nat): Core
    requires Sound(c)
  {
    var pos := BucketOf(value, c.range, |c.counts|);
    InitClosed(c.links, Of(n));
    AppendClosed(Init(c.links, Of(n)), Head(pos), Of(n));
    Core(c.range,
         c.counts[pos := (c.counts[pos] + 1) % TWO32],
         if c.counts[pos] == 0 && pos > c.last then pos else c.last,
         c.nodes[n := Place(pos, value)],
         Append(Init(c.links, Of(n)), Head(pos), Of(n)))
  }

  function Deleted(c: Core, n: Id): Core
    requires Sound(c) && n in c.nodes
  {
    var pos := c.nodes[n].bucket;
    var counts := c.counts[pos := (c.counts[pos] - 1) % TWO32];
    UnlinkClosed(c.links, Of(n));
    Core(c.range,
         counts,
         if counts[pos] == 0 && c.last == pos then Lower(counts, pos - 1, c.last) else c.last,
         c.nodes,
         Unlink(c.links, Of(n)))
  }

  /** A node that remembers a bucket is deleted first, whether or not it is queued. */
  function Updated(c: Core, n: Id, value: nat): Core
    requires Sound(c)
  {
    DeletedSound(c, n);
    Added(if n in c.nodes then Deleted(c, n) else c, n, value)
  }

  lemma {:induction false} LowerBound(counts: seq<nat>, i: int, last: nat)
    requires i < |counts| && last < |counts|
    ensures Lower(counts, i, last) < |counts|
    decreases i + 1
  {
    if 0 <= i {
      LowerBound(counts, i - 1, last);
    }
  }

  lemma DeletedSound(c: Core, n: Id)
    requires Sound(c)
    ensures n in c.nodes ==> Sound(Deleted(c, n))
  {
    if n in c.nodes {
      var pos: int := c.nodes[n].bucket;
      LowerBound(Deleted(c, n).counts, pos - 1, c.last);
      UnlinkClosed(c.links, Of(n));
    }
  }

  lemma AddedSound(c: Core, n: Id, value: nat)
    requires Sound(c)
    ensures Sound(Added(c, n, value))
  {
    var pos := BucketOf(value, c.range, |c.counts|);
    InitClosed(c.links, Of(n));
    AppendClosed(Init(c.links, Of(n)), Head(pos), Of(n));
  }

  /** A node of the walk, its end, or a list head taken for a node. */
  datatype Pick = Nothing | Picked(node: Id) | Stray(bucket: nat)

  function PickOf(x: Addr): Pick {
    match x
    case Of(n) => Picked(n)
    case Head(b) => Stray(b)
  }

  /** The first node of the buckets from `top` down, by their counters. */
  function First(c: Core, top: int): Pick
    requires Sound(c) && top < |c.counts|
    decreases top + 1
  {
    if top < 0 then Nothing
    else if c.counts[top] == 0 then First(c, top - 1)
    else PickOf(c.links[Head(top)].next)
  }

  /** The node behind `n`. */
  function Behind(c: Core, n: Id): Pick
    requires Sound(c) && n in c.nodes
  {
    var pos, next := c.nodes[n].bucket, c.links[Of(n)].next;
    if next != Head(pos) then PickOf(next) else First(c, pos - 1)
  }

  // ---------------------------------------------------------------- what a queue is

  /** The lists hold each queued node once, in the bucket it remembers. */
  ghost predicate Filed(lists: seq<seq<Id>>, nodes: map<Id, Place>) {
    && (forall b :: 0 <= b < |lists| ==> Once(lists[b]))
    && (forall b, n :: 0 <= b < |lists| && n in lists[b] ==> n in nodes && nodes[n].bucket == b)
  }

  ghost predicate Counted(lists: seq<seq<Id>>, counts: seq<nat>) {
    |counts| == |lists| && forall b :: 0 <= b < |lists| ==> counts[b] == |lists[b]|
  }

  ghost predicate EmptyAbove(lists: seq<seq<Id>>, top: nat) {
    forall b :: top < b < |lists| ==> lists[b] == []
  }

  ghost predicate Linked(links: Links, lists: seq<seq<Id>>) {
    forall b :: 0 <= b < |lists| ==> Ring(links, b, lists[b])
  }

  ghost predicate Bucketed(c: Core, lists: seq<seq<Id>>)
    requires Sound(c)
  {
    forall b, n :: 0 <= b < |lists| && n in lists[b] && n in c.nodes ==>
                     b == BucketOf(c.nodes[n].value, c.range, |c.counts|)
  }

  /** The memory is that of a queue with these lists. */
  ghost predicate Holds(c: Core, lists: seq<seq<Id>>) {
    && Sound(c) && Filed(lists, c.nodes) && Counted(lists, c.counts) && EmptyAbove(lists, c.last)
    && Linked(c.links, lists) && Bucketed(c, lists)
  }

  ghost predicate Queued(lists: seq<seq<Id>>, n: Id) {
    exists b :: 0 <= b < |lists| && n in lists[b]
  }

  /** No counter of 32 bits is about to wrap. */
  ghost predicate Roomy(lists: seq<seq<Id>>) {
    forall b :: 0 <= b < |lists| ==> |lists[b]| + 1 < TWO32
  }

  function Without(s: seq<Id>, n: Id): seq<Id> {
    if s == [] then [] else if s[0] == n then s[1..] else [s[0]] + Without(s[1..], n)
  }

  lemma {:induction false} WithoutSplit(s: seq<Id>, n: Id) returns (x: seq<Id>, y: seq<Id>)
    requires n in s
    ensures s == x + [n] + y && Without(s, n) == x + y
  {
    if s[0] == n {
      x, y := [], s[1..];
    } else {
      var x';
      x', y := WithoutSplit(s[1..], n);
      x := [s[0]] + x';
    }
  }

  lemma OnceSplit(x: seq<Id>, n: Id, y: seq<Id>)
    requires Once(x + [n] + y)
    ensures Once(x + y) && n !in x && n !in y
  {
    var s := x + [n] + y;
    forall i, j | 0 <= i < j < |x + y|
      ensures (x + y)[i] != (x + y)[j]
    {
      var i', j' := if i < |x| then i else i + 1, if j < |x| then j else j + 1;
      assert s[i'] == (x + y)[i] && s[j'] == (x + y)[j];
    }
    assert s[|x|] == n;
    forall i | 0 <= i < |x|
      ensures x[i] != n
    {
      assert s[i] == x[i];
    }
    forall i | 0 <= i < |y|
      ensures y[i] != n
    {
      assert s[|x| + 1 + i] == y[i];
    }
  }

  lemma WithoutOnce(s: seq<Id>, n: Id)
    requires Once(s) && n in s
    ensures Once(Without(s, n)) && |Without(s, n)| == |s| - 1
    ensures forall m :: m in Without(s, n) <==> m in s && m != n
  {
    var x, y := WithoutSplit(s, n);
    OnceSplit(x, n, y);
  }

  // ---------------------------------------------------------------- adding and deleting

  /** The cells of one list are none of another's. */
  lemma StopApart(lists: seq<seq<Id>>, nodes: map<Id, Place>, pos: nat, i: int, b: nat)
    requires Filed(lists, nodes) && pos < |lists| && b < |lists| && b != pos
    ensures var x := Stop(pos, lists[pos], i); x != Head(b) && (x.Of? ==> x.node !in lists[b])
  {
    if 1 <= i <= |lists[pos]| {
      var n := lists[pos][i - 1];
      assert n in lists[pos];
      assert nodes[n].bucket == pos;
      assert n !in lists[b];
    }
  }

  lemma AddedLinks(links: Links, lists: seq<seq<Id>>, nodes: map<Id, Place>, pos: nat, n: Id)
    requires Closed(links) && Linked(links, lists) && Filed(lists, nodes) && pos < |lists| && !Queued(lists, n)
    ensures Head(pos) in links && Init(links, Of(n))[Head(pos)].prev in links
    ensures Linked(Append(Init(links, Of(n)), Head(pos), Of(n)), lists[pos := lists[pos] + [n]])
  {
    var fresh_, after := Init(links, Of(n)), lists[pos := lists[pos] + [n]];
    forall b | 0 <= b < |lists|
      ensures Ring(fresh_, b, lists[b])
    {
      RingKept(links, fresh_, b, lists[b]);
    }
    RingEnds(fresh_, pos, lists[pos]);
    AppendRing(fresh_, pos, lists[pos], n);
    var done := Append(fresh_, Head(pos), Of(n));
    forall b | 0 <= b < |lists| && b != pos
      ensures Ring(done, b, after[b])
    {
      StopApart(lists, nodes, pos, |lists[pos]|, b);
      RingKept(fresh_, done, b, lists[b]);
    }
  }

  lemma DeletedLinks(links: Links, lists: seq<seq<Id>>, nodes: map<Id, Place>, pos: nat, n: Id)
    requires Linked(links, lists) && Filed(lists, nodes) && pos < |lists| && n in lists[pos]
    ensures Of(n) in links && links[Of(n)].next in links && links[Of(n)].prev in links
    ensures Linked(Unlink(links, Of(n)), lists[pos := Without(lists[pos], n)])
  {
    var x, y := WithoutSplit(lists[pos], n);
    UnlinkRing(links, pos, x, n, y);
    RingAt(links, pos, lists[pos], |x|);
    var done := Unlink(links, Of(n));
    forall b | 0 <= b < |lists| && b != pos
      ensures Ring(done, b, lists[b])
    {
      StopApart(lists, nodes, pos, |x|, b);
      StopApart(lists, nodes, pos, |x| + 2, b);
      RingKept(links, done, b, lists[b]);
    }
  }

  ghost function WithAdded(lists: seq<seq<Id>>, pos: nat, n: Id): seq<seq<Id>>
    requires pos < |lists|
  {
    lists[pos := lists[pos] + [n]]
  }

  ghost function WithDeleted(lists: seq<seq<Id>>, pos: nat, n: Id): seq<seq<Id>>
    requires pos < |lists|
  {
    lists[pos := Without(lists[pos], n)]
  }

  lemma AddedFiled(lists: seq<seq<Id>>, nodes: map<Id, Place>, n: Id, place: Place)
    requires Filed(lists, nodes) && !Queued(lists, n) && place.bucket < |lists|
    ensures Filed(WithAdded(lists, place.bucket, n), nodes[n := place])
  {
  }

  lemma DeletedFiled(lists: seq<seq<Id>>, nodes: map<Id, Place>, pos: nat, n: Id)
    requires Filed(lists, nodes) && pos < |lists| && n in lists[pos]
    ensures Filed(WithDeleted(lists, pos, n), nodes)
  {
    WithoutOnce(lists[pos], n);
  }

  lemma AddedHolds(c: Core, lists: seq<seq<Id>>, n: Id, value: nat)
    requires Holds(c, lists) && !Queued(lists, n) && Roomy(lists)
    ensures Holds(Added(c, n, value), WithAdded(lists, BucketOf(value, c.range, |c.counts|), n))
  {
    var pos := BucketOf(value, c.range, |c.counts|);
    AddedSound(c, n, value);
    AddedFiled(lists, c.nodes, n, Place(pos, value));
    AddedLinks(c.links, lists, c.nodes, pos, n);
  }

  lemma {:induction false} LowerIsTop(lists: seq<seq<Id>>, counts: seq<nat>, i: int, last: nat)
    requires Counted(lists, counts) && -1 <= i < |lists| && last < |lists| && i <= last
    requires forall b :: i < b < |lists| ==> lists[b] == []
    ensures EmptyAbove(lists, Lower(counts, i, last))
    decreases i + 1
  {
    if 0 <= i && counts[i] == 0 {
      LowerIsTop(lists, counts, i - 1, last);
    }
  }

  lemma DeletedHolds(c: Core, lists: seq<seq<Id>>, n: Id)
    requires Holds(c, lists) && Queued(lists, n)
    ensures n in c.nodes && c.nodes[n].bucket < |lists| && n in lists[c.nodes[n].bucket]
    ensures Holds(Deleted(c, n), WithDeleted(lists, c.nodes[n].bucket, n))
  {
    var pos := c.nodes[n].bucket;
    var after := WithDeleted(lists, pos, n);
    WithoutOnce(lists[pos], n);
    DeletedSound(c, n);
    DeletedFiled(lists, c.nodes, pos, n);
    DeletedLinks(c.links, lists, c.nodes, pos, n);
    var d := Deleted(c, n);
    assert Counted(after, d.counts);
    if d.counts[pos] == 0 && c.last == pos {
      LowerIsTop(after, d.counts, (pos as int) - 1, c.last);
    }
  }

  // ---------------------------------------------------------------- updating

  /** The queued nodes are those of `lists`, and `n`. */
  ghost predicate Gains(lists: seq<seq<Id>>, n: Id, after: seq<seq<Id>>) {
    forall m :: Queued(after, m) <==> Queued(lists, m) || m == n
  }

  /** An update does what it is for: a queue again, with `n` in it and every other node kept. */
  ghost predicate UpdateWorks(c: Core, lists: seq<seq<Id>>, n: Id, value: nat)
    requires Sound(c)
  {
    exists after :: Holds(Updated(c, n, value), after) && Gains(lists, n, after)
  }

  ghost function ListsUpdated(c: Core, lists: seq<seq<Id>>, n: Id, value: nat): seq<seq<Id>>
    requires Holds(c, lists)
  {
    var pos := BucketOf(value, c.range, |c.counts|);
    WithAdded(if Queued(lists, n) then WithDeleted(lists, c.nodes[n].bucket, n) else lists, pos, n)
  }

  lemma WithAddedGains(lists: seq<seq<Id>>, pos: nat, n: Id)
    requires pos < |lists|
    ensures Gains(lists, n, WithAdded(lists, pos, n))
  {
    var after := WithAdded(lists, pos, n);
    forall m
      ensures Queued(after, m) <==> Queued(lists, m) || m == n
    {
      if Queued(lists, m) {
        var b :| 0 <= b < |lists| && m in lists[b];
        assert m in after[b];
      }
      assert n in after[pos];
    }
  }

  lemma WithDeletedLoses(lists: seq<seq<Id>>, nodes: map<Id, Place>, pos: nat, n: Id)
    requires Filed(lists, nodes) && pos < |lists| && n in lists[pos]
    ensures forall m :: Queued(WithDeleted(lists, pos, n), m) <==> Queued(lists, m) && m != n
  {
    var after := WithDeleted(lists, pos, n);
    WithoutOnce(lists[pos], n);
    forall m
      ensures Queued(after, m) <==> Queued(lists, m) && m != n
    {
      if Queued(lists, m) && m != n {
        var b :| 0 <= b < |lists| && m in lists[b];
        assert m in after[b];
      }
      if Queued(after, m) {
        var b :| 0 <= b < |after| && m in after[b];
        assert m in lists[b];
        assert b == pos || nodes[m].bucket != pos;
      }
    }
  }

  lemma UpdateHolds(c: Core, lists: seq<seq<Id>>, n: Id, value: nat)
    requires Holds(c, lists) && Roomy(lists) && (Queued(lists, n) || n !in c.nodes)
    ensures Holds(Updated(c, n, value), ListsUpdated(c, lists, n, value))
    ensures Gains(lists, n, ListsUpdated(c, lists, n, value))
  {
    var pos := BucketOf(value, c.range, |c.counts|);
    if Queued(lists, n) {
      var without := WithDeleted(lists, c.nodes[n].bucket, n);
      DeletedHolds(c, lists, n);
      WithDeletedLoses(lists, c.nodes, c.nodes[n].bucket, n);
      WithoutOnce(lists[c.nodes[n].bucket], n);
      AddedHolds(Deleted(c, n), without, n, value);
      WithAddedGains(without, pos, n);
    } else {
      AddedHolds(c, lists, n, value);
      WithAddedGains(lists, pos, n);
    }
  }

  lemma {:induction false} NoLonger(s: seq<Id>, t: seq<Id>)
    requires Once(s) && Once(t) && forall m :: m in s ==> m in t
    ensures |s| <= |t|
  {
    if s != [] {
      var n := s[0];
      assert s == [n] + s[1..];
      WithoutOnce(t, n);
      NoLonger(s[1..], Without(t, n));
    }
  }

  lemma WrapBack(x: nat)
    requires x < TWO32
    ensures ((x - 1) % TWO32 + 1) % TWO32 == x
  {
  }

  lemma ShortCount(c: Core, n: Id, value: nat)
    requires Sound(c) && n in c.nodes
    ensures var b, pos := c.nodes[n].bucket, BucketOf(value, c.range, |c.counts|);
            && Updated(c, n, value).counts[b] == (c.counts[b] - if pos == b then 0 else 1) % TWO32
            && Updated(c, n, value).nodes == c.nodes[n := Place(pos, value)]
            && |Updated(c, n, value).counts| == |c.counts|
  {
    DeletedSound(c, n);
    WrapBack(c.counts[c.nodes[n].bucket]);
  }

  /** After a delete the counter of the remembered bucket comes out one short. */
  lemma UpdateMiscounts(c: Core, lists: seq<seq<Id>>, n: Id, value: nat, after: seq<seq<Id>>)
    requires Holds(c, lists) && Roomy(lists) && n in c.nodes && !Queued(lists, n)
    requires Holds(Updated(c, n, value), after)
    ensures !Gains(lists, n, after)
  {
    var b, pos := c.nodes[n].bucket, BucketOf(value, c.range, |c.counts|);
    ShortCount(c, n, value);
    if Gains(lists, n, after) {
      GainedSize(lists, c.nodes, b, n, Place(pos, value), after);
    }
  }

  lemma GainedSize(lists: seq<seq<Id>>, nodes: map<Id, Place>, b: nat, n: Id, place: Place, after: seq<seq<Id>>)
    requires Filed(lists, nodes) && Filed(after, nodes[n := place]) && Gains(lists, n, after) && !Queued(lists, n)
    requires b < |lists| == |after|
    ensures |after[b]| == |lists[b]| + if place.bucket == b then 1 else 0
  {
    var expected := if place.bucket == b then lists[b] + [n] else lists[b];
    assert n !in lists[b];
    forall m
      ensures m in expected <==> m in after[b]
    {
      MemberOf(lists, nodes, m, b);
      MemberOf(after, nodes[n := place], m, b);
    }
    NoLonger(expected, after[b]);
    NoLonger(after[b], expected);
  }

  lemma MemberOf(lists: seq<seq<Id>>, nodes: map<Id, Place>, m: Id, b: nat)
    requires Filed(lists, nodes) && b < |lists|
    ensures m in lists[b] <==> Queued(lists, m) && nodes[m].bucket == b
  {
  }

  /** An update works just if the node is queued, or was not filed since it was initialised. */
  lemma UpdateExactly(c: Core, lists: seq<seq<Id>>, n: Id, value: nat)
    requires Holds(c, lists) && Roomy(lists)
    ensures UpdateWorks(c, lists, n, value) <==> Queued(lists, n) || n !in c.nodes
  {
    if Queued(lists, n) || n !in c.nodes {
      UpdateHolds(c, lists, n, value);
    } else if UpdateWorks(c, lists, n, value) {
      var after :| Holds(Updated(c, n, value), after) && Gains(lists, n, after);
      UpdateMiscounts(c, lists, n, value, after);
    }
  }

  // ---------------------------------------------------------------- an empty queue

  function Heads(buckets: nat): Links {
    if buckets == 0 then map[] else Init(Heads(buckets - 1), Head(buckets - 1))
  }

  /** An empty queue. */
  function Empty(range: nat, buckets: nat): Core {
    Core(range, seq(buckets, _ => 0), 0, map[], Heads(buckets))
  }

  lemma {:induction false} HeadsAre(buckets: nat)
    ensures forall x :: x in Heads(buckets) <==> x.Head? && x.bucket < buckets
    ensures forall x :: x in Heads(buckets) ==> Heads(buckets)[x] == Link(x, x)
  {
    if 0 < buckets {
      HeadsAre(buckets - 1);
    }
  }

  ghost function NoLists(buckets: nat): (r: seq<seq<Id>>)
    ensures |r| == buckets && forall b :: 0 <= b < buckets ==> r[b] == []
  {
    seq(buckets, _ => [])
  }

  lemma EmptyHolds(range: nat, buckets: nat)
    requires 0 < range && 2 <= buckets
    ensures Holds(Empty(range, buckets), NoLists(buckets)) && Roomy(NoLists(buckets))
    ensures forall n :: !Queued(NoLists(buckets), n)
  {
    var links := Heads(buckets);
    HeadsAre(buckets);
    forall x
      ensures Leads(links, x)
    {
    }
    forall b | 0 <= b < buckets
      ensures Ring(links, b, [])
    {
    }
  }
}
