/** A queue of nodes in buckets by ranges of their values, walked from the highest bucket down. */
module RangeQueue {
  import opened Machine
  import opened BucketLists
  import opened RangeCore

  // ---------------------------------------------------------------- the walk

  /** The nodes of the buckets from `top` down. */
  ghost function Down(lists: seq<seq<Id>>, top: int): seq<Id>
    requires -1 <= top < |lists|
    decreases top + 1
  {
    if top < 0 then [] else lists[top] + Down(lists, top - 1)
  }

  /** Bucket numbers fall along the walk, or stay the same. */
  ghost predicate Falling(s: seq<Id>, nodes: map<Id, Place>) {
    && (forall i :: 0 <= i < |s| ==> s[i] in nodes)
    && (forall i, j :: 0 <= i < j < |s| ==> nodes[s[j]].bucket <= nodes[s[i]].bucket)
  }

  lemma {:induction false} DownProperties(lists: seq<seq<Id>>, nodes: map<Id, Place>, top: int)
    requires Filed(lists, nodes) && -1 <= top < |lists|
    ensures Falling(Down(lists, top), nodes) && Once(Down(lists, top))
    ensures forall n :: n in Down(lists, top) <==> Queued(lists, n) && nodes[n].bucket <= top
    decreases top + 1
  {
    if 0 <= top {
      DownProperties(lists, nodes, top - 1);
      JoinFalling(lists[top], Down(lists, top - 1), nodes, top);
    }
  }

  lemma JoinFalling(a: seq<Id>, b: seq<Id>, nodes: map<Id, Place>, top: int)
    requires Once(a) && Once(b) && Falling(b, nodes)
    requires forall n :: n in a ==> n in nodes && nodes[n].bucket == top
    requires forall n :: n in b ==> n in nodes && nodes[n].bucket < top
    ensures Once(a + b) && Falling(a + b, nodes)
  {
    assert forall k :: 0 <= k < |a| ==> a[k] in a;
    assert forall k :: 0 <= k < |b| ==> b[k] in b;
  }

  ghost function FirstOf(s: seq<Id>): Pick {
    if s == [] then Nothing else Picked(s[0])
  }

  lemma {:induction false} FirstIsFirst(c: Core, lists: seq<seq<Id>>, top: int)
    requires Holds(c, lists) && -1 <= top < |lists|
    ensures First(c, top) == FirstOf(Down(lists, top))
    decreases top + 1
  {
    if 0 <= top {
      if c.counts[top] == 0 {
        FirstIsFirst(c, lists, top - 1);
        assert Down(lists, top) == Down(lists, top - 1);
      } else {
        RingEnds(c.links, top, lists[top]);
      }
    }
  }

  /** What comes behind a node in the walk. */
  lemma {:induction false} DownSplit(lists: seq<seq<Id>>, top: int, b: int, k: nat) returns (before: seq<Id>)
    requires 0 <= b <= top < |lists| && k < |lists[b]|
    ensures Down(lists, top) == before + [lists[b][k]] + (lists[b][k + 1..] + Down(lists, b - 1))
    decreases top
  {
    if b == top {
      before := lists[b][..k];
      assert lists[b] == before + [lists[b][k]] + lists[b][k + 1..];
    } else {
      var rest := DownSplit(lists, top - 1, b, k);
      before := lists[top] + rest;
    }
  }

  lemma BehindIsNext(c: Core, lists: seq<seq<Id>>, n: Id)
    requires Holds(c, lists) && Queued(lists, n)
    ensures n in c.nodes && exists x, y :: Down(lists, c.last) == x + [n] + y && Behind(c, n) == FirstOf(y)
  {
    var b: int := c.nodes[n].bucket;
    var k :| 0 <= k < |lists[b]| && lists[b][k] == n;
    RingAt(c.links, b, lists[b], k);
    FirstIsFirst(c, lists, b - 1);
    var x := DownSplit(lists, c.last, b, k);
    var y := lists[b][k + 1..] + Down(lists, b - 1);
    assert Down(lists, c.last) == x + [n] + y && Behind(c, n) == FirstOf(y);
  }

  /** The walk visits each queued node once, and never climbs to a higher bucket. */
  lemma WalkVisitsAll(c: Core, lists: seq<seq<Id>>)
    requires Holds(c, lists)
    ensures Once(Down(lists, c.last)) && Falling(Down(lists, c.last), c.nodes)
    ensures forall n :: n in Down(lists, c.last) <==> Queued(lists, n)
  {
    DownProperties(lists, c.nodes, c.last);
  }

  // ---------------------------------------------------------------- runs

  datatype Op = Update(node: Id, value: nat) | Delete(node: Id)

  /** Only queued nodes are deleted, and a deleted node is not updated again. */
  ghost predicate Fit(c: Core, lists: seq<seq<Id>>, op: Op) {
    match op
    case Update(n, _) => Roomy(lists) && (Queued(lists, n) || n !in c.nodes)
    case Delete(n) => Queued(lists, n)
  }

  ghost predicate Step(c: Core, lists: seq<seq<Id>>, op: Op, c': Core, lists': seq<seq<Id>>) {
    && Holds(c, lists) && Fit(c, lists, op)
    && match op
       case Update(n, v) => c' == Updated(c, n, v) && lists' == ListsUpdated(c, lists, n, v)
       case Delete(n) => n in c.nodes && c' == Deleted(c, n) && c.nodes[n].bucket < |lists|
                         && lists' == WithDeleted(lists, c.nodes[n].bucket, n)
  }

  /** The nodes last updated, and not deleted since. */
  ghost function Members(ops: seq<Op>): set<Id> {
    if ops == [] then {}
    else
      var before := Members(ops[..|ops| - 1]);
      match ops[|ops| - 1]
      case Update(n, _) => before + {n}
      case Delete(n) => before - {n}
  }

  ghost predicate Runs(range: nat, buckets: nat, ops: seq<Op>, cores: seq<Core>, lists: seq<seq<seq<Id>>>) {
    && 0 < range && 2 <= buckets && |cores| == |lists| == |ops| + 1
    && cores[0] == Empty(range, buckets) && lists[0] == NoLists(buckets)
    && forall i, j :: 0 <= i < |ops| && j == i + 1 ==> Step(cores[i], lists[i], ops[i], cores[j], lists[j])
  }

  /** After every such run the memory is a queue of exactly the nodes updated and not deleted since. */
  lemma {:induction false} EveryRun(range: nat, buckets: nat, ops: seq<Op>, cores: seq<Core>,
                                    lists: seq<seq<seq<Id>>>, i: nat)
    requires Runs(range, buckets, ops, cores, lists) && i <= |ops|
    ensures Holds(cores[i], lists[i]) && forall n :: Queued(lists[i], n) <==> n in Members(ops[..i])
  {
    if i == 0 {
      EmptyHolds(range, buckets);
    } else {
      EveryRun(range, buckets, ops, cores, lists, i - 1);
      assert ops[..i][..i - 1] == ops[..i - 1];
      var c, ls, op := cores[i - 1], lists[i - 1], ops[i - 1];
      assert Step(c, ls, op, cores[i], lists[i]);
      match op
      case Update(n, v) => UpdateHolds(c, ls, n, v);
      case Delete(n) =>
        DeletedHolds(c, ls, n);
        WithDeletedLoses(ls, c.nodes, c.nodes[n].bucket, n);
    }
  }

  // ---------------------------------------------------------------- the queue

  class Queue {
    const range: nat
    var counts: seq<nat>
    var last: nat
    var nodes: map<Id, Place>
    var links: Links
    ghost var lists: seq<seq<Id>>

    ghost function Memory(): Core
      reads this
    {
      Core(range, counts, last, nodes, links)
    }

    ghost predicate Valid()
      reads this
    {
      Holds(Memory(), lists)
    }

    /** The order in which the queue is walked. */
    ghost function Walk(): seq<Id>
      requires Valid()
      reads this
    {
      Down(lists, last)
    }

    constructor (range: nat, count: nat)
      requires 0 < range && 0 < count
      ensures Valid() && this.range == range && Memory() == Empty(range, count + 1) && lists == NoLists(count + 1)
    {
      this.range := range;
      counts := seq(count + 1, _ => 0);
      last, nodes := 0, map[];
      lists := NoLists(count + 1);
      var heads: Links := map[];
      for i := 0 to count + 1
        invariant heads == Heads(i)
      {
        heads := Init(heads, Head(i));
      }
      links := heads;
      EmptyHolds(range, count + 1);
    }

    method Add(n: Id, value: nat)
      requires Sound(Memory())
      modifies this
      ensures Memory() == Added(old(Memory()), n, value)
      ensures old(Valid()) && !Queued(old(lists), n) && Roomy(old(lists)) ==>
                Valid() && lists == WithAdded(old(lists), BucketOf(value, range, |counts|), n)
    {
      ghost var before := Memory();
      AddedSound(before, n, value);
      if Holds(before, lists) && !Queued(lists, n) && Roomy(lists) {
        AddedHolds(before, lists, n, value);
        lists := WithAdded(lists, BucketOf(value, range, |counts|), n);
      }
      var pos := BucketOf(value, range, |counts|);
      InitClosed(links, Of(n));
      AppendClosed(Init(links, Of(n)), Head(pos), Of(n));
      links := Init(links, Of(n));
      nodes := nodes[n := Place(pos, value)];
      links := Append(links, Head(pos), Of(n));
      if counts[pos] == 0 {
        if pos > last {
          last := pos;
        }
      }
      counts := counts[pos := (counts[pos] + 1) % TWO32];
    }

    method Delete(n: Id)
      requires Sound(Memory()) && n in nodes
      modifies this
      ensures Memory() == Deleted(old(Memory()), n)
      ensures old(Valid()) && Queued(old(lists), n) ==>
                Valid() && nodes[n].bucket < |old(lists)| && lists == WithDeleted(old(lists), nodes[n].bucket, n)
    {
      if Holds(Memory(), lists) && Queued(lists, n) {
        DeletedHolds(Memory(), lists, n);
        lists := WithDeleted(lists, nodes[n].bucket, n);
      }
      Drop(n);
    }

    method Drop(n: Id)
      requires Sound(Memory()) && n in nodes
      modifies this`counts, this`links, this`last
      ensures Memory() == Deleted(old(Memory()), n)
    {
      var pos: int := nodes[n].bucket;
      counts := counts[pos := (counts[pos] - 1) % TWO32];
      UnlinkClosed(links, Of(n));
      links := Unlink(links, Of(n));
      if counts[pos] == 0 && last == pos {
        LowerLast(pos);
      }
    }

    /** Look for the highest bucket in use below `pos`. */
    method LowerLast(pos: int)
      requires 0 <= pos < |counts|
      modifies this`last
      ensures last == Lower(counts, pos - 1, old(last))
    {
      var i := pos - 1;
      while i >= 0
        invariant -1 <= i < pos && last == old(last)
        invariant Lower(counts, i, last) == Lower(counts, pos - 1, last)
      {
        if counts[i] > 0 {
          last := i;
          return;
        }
        i := i - 1;
      }
    }

    /** File a node under a value. This works just if the node is queued, or was not filed since it was
        initialised: it is deleted first whenever it remembers a bucket. */
    method Update(n: Id, value: nat)
      requires Valid() && Roomy(lists)
      modifies this
      ensures Memory() == Updated(old(Memory()), n, value)
      ensures UpdateWorks(old(Memory()), old(lists), n, value) <==> Queued(old(lists), n) || n !in old(nodes)
      ensures Queued(old(lists), n) || n !in old(nodes) ==>
                Valid() && lists == ListsUpdated(old(Memory()), old(lists), n, value)
                && Gains(old(lists), n, lists)
    {
      UpdateExactly(Memory(), lists, n, value);
      if Queued(lists, n) || n !in nodes {
        UpdateHolds(Memory(), lists, n, value);
      }
      ghost var after := ListsUpdated(Memory(), lists, n, value);
      DeletedSound(Memory(), n);
      if n in nodes {
        Delete(n);
      }
      Add(n, value);
      lists := after;
    }

    /** The first node of the buckets from `top` down. */
    method FirstFrom(top: int) returns (r: Pick)
      requires Sound(Memory()) && -1 <= top < |counts|
      ensures r == First(Memory(), top)
    {
      var pos := top;
      while pos >= 0
        invariant -1 <= pos <= top && First(Memory(), pos) == First(Memory(), top)
      {
        if counts[pos] != 0 {
          return PickOf(links[Head(pos)].next);
        }
        pos := pos - 1;
      }
      return Nothing;
    }

    /** The node behind `n` in the walk, or the first one. */
    method Prev(n: Pick) returns (r: Pick)
      requires Sound(Memory()) && !n.Stray? && (n.Picked? ==> n.node in nodes)
      ensures r == if n.Picked? then Behind(Memory(), n.node) else First(Memory(), last)
      ensures Valid() && n.Nothing? ==> r == FirstOf(Walk())
      ensures Valid() && n.Picked? && Queued(lists, n.node) ==>
                exists x, y :: Walk() == x + [n.node] + y && r == FirstOf(y)
    {
      if Holds(Memory(), lists) {
        FirstIsFirst(Memory(), lists, last);
        if n.Picked? && Queued(lists, n.node) {
          BehindIsNext(Memory(), lists, n.node);
        }
      }
      var pos: int := last;
      if n.Picked? {
        pos := nodes[n.node].bucket;
        var next := links[Of(n.node)].next;
        if next != Head(pos) {
          return PickOf(next);
        }
        pos := pos - 1;
      }
      r := FirstFrom(pos);
    }
  }
}
