/**
 What becomes of a range queue when a node is updated after it was deleted: it still remembers its
 bucket, so it is deleted once more.
 */
module RequeuedNode {
  import opened Machine
  import opened BucketLists
  import opened RangeCore

  lemma {:induction false} FirstSkips(c: Core, top: int, pos: int)
    requires Sound(c) && -1 <= pos <= top < |c.counts| && forall b :: pos < b <= top ==> c.counts[b] == 0
    ensures First(c, top) == First(c, pos)
    decreases top
  {
    if pos < top {
      FirstSkips(c, top - 1, pos);
    }
  }

  lemma {:induction false} LowerSkips(counts: seq<nat>, i: int, last: nat)
    requires -1 <= i < |counts| && forall b :: 0 <= b <= i ==> counts[b] == 0
    ensures Lower(counts, i, last) == last
    decreases i + 1
  {
    if 0 <= i {
      LowerSkips(counts, i - 1, last);
    }
  }

  /** A new queue in which a node was filed under `v` and deleted. */
  function Emptied(range: nat, buckets: nat, n: Id, v: nat): Core
    requires 0 < range && 2 <= buckets
  {
    EmptyHolds(range, buckets);
    UpdateHolds(Empty(range, buckets), NoLists(buckets), n, v);
    Deleted(Updated(Empty(range, buckets), n, v), n)
  }

  lemma AppendAlone(links: Links, pos: nat, n: Id)
    requires Head(pos) in links && links[Head(pos)] == Link(Head(pos), Head(pos))
    ensures Append(Init(links, Of(n)), Head(pos), Of(n))
            == links[Of(n) := Link(Head(pos), Head(pos))][Head(pos) := Link(Of(n), Of(n))]
  {
  }

  lemma UnlinkAlone(links: Links, pos: nat, n: Id)
    requires Head(pos) in links && Of(n) in links && links[Of(n)] == Link(Head(pos), Head(pos))
    ensures Unlink(links, Of(n)) == links[Head(pos) := Link(Head(pos), Head(pos))]
  {
  }

  /** The queue with nothing but `n`, in bucket `b`. */
  function Alone(range: nat, buckets: nat, n: Id, b: nat, v: nat): Core
    requires b < buckets
  {
    Core(range, seq(buckets, _ => 0)[b := 1], b, map[n := Place(b, v)],
         Heads(buckets)[Of(n) := Link(Head(b), Head(b))][Head(b) := Link(Of(n), Of(n))])
  }

  /** The same queue with `n` deleted. */
  function Cleared(range: nat, buckets: nat, n: Id, b: nat, v: nat): Core {
    Core(range, seq(buckets, _ => 0), b, map[n := Place(b, v)], Heads(buckets)[Of(n) := Link(Head(b), Head(b))])
  }

  lemma FiledAlone(range: nat, buckets: nat, n: Id, v: nat)
    requires 0 < range && 2 <= buckets
    ensures Sound(Empty(range, buckets))
    ensures Updated(Empty(range, buckets), n, v) == Alone(range, buckets, n, BucketOf(v, range, buckets), v)
  {
    EmptyHolds(range, buckets);
    HeadsAre(buckets);
    AppendAlone(Heads(buckets), BucketOf(v, range, buckets), n);
  }

  lemma DeletedAlone(range: nat, buckets: nat, n: Id, b: nat, v: nat)
    requires b < buckets && Sound(Alone(range, buckets, n, b, v))
    ensures Deleted(Alone(range, buckets, n, b, v), n) == Cleared(range, buckets, n, b, v)
  {
    var c := Alone(range, buckets, n, b, v);
    HeadsAre(buckets);
    UnlinkAlone(c.links, b, n);
    assert c.links[Head(b) := Link(Head(b), Head(b))] == Heads(buckets)[Of(n) := Link(Head(b), Head(b))];
    assert c.counts[b := 0] == seq(buckets, _ => 0);
    LowerSkips(seq(buckets, _ => 0), b as int - 1, b);
  }

  lemma EmptiedIs(range: nat, buckets: nat, n: Id, v: nat)
    requires 0 < range && 2 <= buckets
    ensures Emptied(range, buckets, n, v) == Cleared(range, buckets, n, BucketOf(v, range, buckets), v)
    ensures Sound(Emptied(range, buckets, n, v))
  {
    var b := BucketOf(v, range, buckets);
    FiledAlone(range, buckets, n, v);
    EmptyHolds(range, buckets);
    AddedSound(Empty(range, buckets), n, v);
    DeletedAlone(range, buckets, n, b, v);
    DeletedSound(Alone(range, buckets, n, b, v), n);
  }

  /** Deleting `n` again takes the counter of its bucket below zero. */
  lemma DeletedAgain(range: nat, buckets: nat, n: Id, b: nat, v: nat)
    requires b < buckets && Sound(Cleared(range, buckets, n, b, v))
    ensures var d := Cleared(range, buckets, n, b, v);
            Deleted(d, n) == d.(counts := d.counts[b := TWO32 - 1])
  {
    var d := Cleared(range, buckets, n, b, v);
    HeadsAre(buckets);
    UnlinkAlone(d.links, b, n);
    assert d.links[Head(b) := Link(Head(b), Head(b))] == d.links;
  }

  /** What filing it under `w` makes of that. */
  function Miscounted(range: nat, buckets: nat, n: Id, b: nat, pos: nat, w: nat): Core
    requires b < buckets && pos < buckets
  {
    Core(range, seq(buckets, _ => 0)[b := TWO32 - 1][pos := if pos == b then 0 else 1], if b < pos then pos else b,
         map[n := Place(pos, w)],
         Heads(buckets)[Of(n) := Link(Head(pos), Head(pos))][Head(pos) := Link(Of(n), Of(n))])
  }

  lemma UpdatedAgain(range: nat, buckets: nat, n: Id, b: nat, v: nat, w: nat)
    requires b < buckets && Sound(Cleared(range, buckets, n, b, v))
    ensures Updated(Cleared(range, buckets, n, b, v), n, w)
            == Miscounted(range, buckets, n, b, BucketOf(w, range, buckets), w)
    ensures Sound(Miscounted(range, buckets, n, b, BucketOf(w, range, buckets), w))
  {
    var d := Cleared(range, buckets, n, b, v);
    DeletedSound(d, n);
    DeletedAgain(range, buckets, n, b, v);
    AddedAgain(range, buckets, n, b, v, w, d.(counts := d.counts[b := TWO32 - 1]));
  }

  lemma AddedAgain(range: nat, buckets: nat, n: Id, b: nat, v: nat, w: nat, e: Core)
    requires b < buckets && Sound(e)
    requires e == Core(range, seq(buckets, _ => 0)[b := TWO32 - 1], b, map[n := Place(b, v)],
                       Heads(buckets)[Of(n) := Link(Head(b), Head(b))])
    ensures Added(e, n, w) == Miscounted(range, buckets, n, b, BucketOf(w, range, buckets), w)
    ensures Sound(Added(e, n, w))
  {
    AddedSound(e, n, w);
    LinksAgain(buckets, n, b, BucketOf(w, range, buckets), e.links);
  }

  lemma LinksAgain(buckets: nat, n: Id, b: nat, pos: nat, links: Links)
    requires pos < buckets && links == Heads(buckets)[Of(n) := Link(Head(b), Head(b))]
    ensures Head(pos) in links && Init(links, Of(n))[Head(pos)].prev in links
    ensures Append(Init(links, Of(n)), Head(pos), Of(n))
            == Heads(buckets)[Of(n) := Link(Head(pos), Head(pos))][Head(pos) := Link(Of(n), Of(n))]
  {
    HeadsAre(buckets);
    AppendAlone(links, pos, n);
    Rewritten(Heads(buckets), Of(n), Link(Head(b), Head(b)), Link(Head(pos), Head(pos)));
  }

  lemma Rewritten(links: Links, x: Addr, k: Link, l: Link)
    ensures links[x := k][x := l] == links[x := l]
  {
  }

  /** The walk, by what the counters and links say. */
  lemma StrayWalk(c: Core, n: Id, b: int, pos: int)
    requires Sound(c) && 0 <= b < |c.counts| && 0 <= pos < |c.counts| && c.last == if b < pos then pos else b
    requires forall k :: 0 <= k < |c.counts| && k != b && k != pos ==> c.counts[k] == 0
    requires if pos == b then c.counts[b] == 0 else c.counts[b] != 0 && c.counts[pos] != 0
    requires n in c.nodes && c.nodes[n].bucket == pos && c.links[Of(n)].next == Head(pos)
    requires c.links[Head(pos)].next == Of(n) && (pos != b ==> c.links[Head(b)].next == Head(b))
    ensures pos == b ==> First(c, c.last) == Nothing
    ensures pos < b ==> First(c, c.last) == Stray(b)
    ensures b < pos ==> First(c, c.last) == Picked(n) && Behind(c, n) == Stray(b)
  {
    if pos == b {
      FirstSkips(c, c.last, -1);
    } else if b < pos {
      FirstSkips(c, pos - 1, b);
    }
  }

  lemma MiscountedWalk(range: nat, buckets: nat, n: Id, b: nat, pos: nat, w: nat)
    requires b < buckets && pos < buckets && Sound(Miscounted(range, buckets, n, b, pos, w))
    ensures var c := Miscounted(range, buckets, n, b, pos, w);
            && (pos == b ==> First(c, c.last) == Nothing)
            && (pos < b ==> First(c, c.last) == Stray(b))
            && (b < pos ==> First(c, c.last) == Picked(n) && Behind(c, n) == Stray(b))
  {
    HeadsAre(buckets);
    StrayWalk(Miscounted(range, buckets, n, b, pos, w), n, b, pos);
  }

  /** Updated again under the same bucket, its only node is never visited; under a lower one, the walk
      begins with a list head; under a higher one, a list head comes behind the node. */
  lemma UpdateAfterDelete(range: nat, buckets: nat, n: Id, v: nat, w: nat)
    requires 0 < range && 2 <= buckets
    ensures Sound(Emptied(range, buckets, n, v)) && Sound(Updated(Emptied(range, buckets, n, v), n, w))
    ensures var c := Updated(Emptied(range, buckets, n, v), n, w);
            var b, pos := BucketOf(v, range, buckets), BucketOf(w, range, buckets);
            && n in c.nodes && c.nodes[n] == Place(pos, w)
            && (pos == b ==> First(c, c.last) == Nothing)
            && (pos < b ==> First(c, c.last) == Stray(b))
            && (b < pos ==> First(c, c.last) == Picked(n) && Behind(c, n) == Stray(b))
  {
    var b, pos := BucketOf(v, range, buckets), BucketOf(w, range, buckets);
    EmptiedIs(range, buckets, n, v);
    UpdatedAgain(range, buckets, n, b, v, w);
    MiscountedWalk(range, buckets, n, b, pos, w);
  }
}
