/**
 Circular doubly linked lists with a head for every bucket. The links are cells of an addressable
 memory; a node that was unlinked keeps its own two links.
 */
module BucketLists {

  type Id = nat

  datatype Addr = Head(bucket: nat) | Of(node: Id)

  datatype Link = Link(next: Addr, prev: Addr)

  type Links = map<Addr, Link>

  /** A cell that is there has links to cells that are there. */
  ghost predicate Leads(links: Links, x: Addr) {
    x in links ==> links[x].next in links && links[x].prev in links
  }

  ghost predicate Closed(links: Links) {
    forall x :: Leads(links, x)
  }

  lemma InitClosed(links: Links, x: Addr)
    requires Closed(links)
    ensures Closed(Init(links, x))
  {
    var after := Init(links, x);
    forall y
      ensures Leads(after, y)
    {
      assert Leads(links, y);
    }
  }

  lemma AppendClosed(links: Links, h: Addr, n: Addr)
    requires Closed(links) && h in links && n in links
    ensures links[h].prev in links && Closed(Append(links, h, n))
  {
    assert Leads(links, h);
    var after := Append(links, h, n);
    forall y
      ensures Leads(after, y)
    {
      assert Leads(links, y);
    }
  }

  lemma UnlinkClosed(links: Links, n: Addr)
    requires Closed(links) && n in links
    ensures links[n].next in links && links[n].prev in links && Closed(Unlink(links, n))
    ensures Unlink(links, n).Keys == links.Keys
  {
    assert Leads(links, n);
    var after := Unlink(links, n);
    forall y
      ensures Leads(after, y)
    {
      assert Leads(links, y);
    }
  }

  function Init(links: Links, x: Addr): Links {
    links[x := Link(x, x)]
  }

  function SetNext(links: Links, x: Addr, y: Addr): Links
    requires x in links
  {
    links[x := links[x].(next := y)]
  }

  function SetPrev(links: Links, x: Addr, y: Addr): Links
    requires x in links
  {
    links[x := links[x].(prev := y)]
  }

  function Append(links: Links, h: Addr, n: Addr): Links
    requires h in links && n in links && links[h].prev in links
  {
    var tail := links[h].prev;
    SetPrev(SetNext(links[n := Link(h, tail)], tail, n), h, n)
  }

  function Unlink(links: Links, n: Addr): Links
    requires n in links && links[n].next in links && links[n].prev in links
  {
    var cut := SetNext(links, links[n].prev, links[n].next);
    SetPrev(cut, cut[n].next, cut[n].prev)
  }

  // ---------------------------------------------------------------- what a list is

  ghost predicate Tied(links: Links, x: Addr, y: Addr) {
    x in links && y in links && links[x].next == y && links[y].prev == x
  }

  /** Stop `i` on the way round a list: the head, its nodes, the head again. */
  ghost function Stop(b: nat, s: seq<Id>, i: int): Addr {
    if 1 <= i <= |s| then Of(s[i - 1]) else Head(b)
  }

  /** Bucket `b` lists exactly the nodes `s`, linked both ways. */
  ghost predicate Ring(links: Links, b: nat, s: seq<Id>) {
    forall i, j :: 0 <= i <= |s| && j == i + 1 ==> Tied(links, Stop(b, s, i), Stop(b, s, j))
  }

  ghost predicate Once(s: seq<Id>) {
    forall i, j :: 0 <= i < j < |s| ==> s[i] != s[j]
  }

  lemma RingEnds(links: Links, b: nat, s: seq<Id>)
    requires Ring(links, b, s)
    ensures Head(b) in links && links[Head(b)].next == Stop(b, s, 1) && links[Head(b)].prev == Stop(b, s, |s|)
    ensures Stop(b, s, |s|) in links
  {
    assert Tied(links, Stop(b, s, 0), Stop(b, s, 1));
    assert Tied(links, Stop(b, s, |s|), Stop(b, s, |s| + 1));
  }

  lemma RingAt(links: Links, b: nat, s: seq<Id>, k: nat)
    requires Ring(links, b, s) && k < |s|
    ensures Of(s[k]) in links && links[Of(s[k])] == Link(Stop(b, s, k + 2), Stop(b, s, k))
    ensures Stop(b, s, k) in links && Stop(b, s, k + 2) in links
  {
    assert Tied(links, Stop(b, s, k), Stop(b, s, k + 1));
    assert Tied(links, Stop(b, s, k + 1), Stop(b, s, k + 2));
  }

  /** A list none of whose cells changed. */
  lemma RingKept(links: Links, after: Links, b: nat, s: seq<Id>)
    requires Ring(links, b, s)
    requires forall x :: x in links ==> x in after
    requires forall x :: x in links && (x == Head(b) || (x.Of? && x.node in s)) ==> after[x] == links[x]
    ensures Ring(after, b, s)
  {
    forall i, j | 0 <= i <= |s| && j == i + 1
      ensures Tied(after, Stop(b, s, i), Stop(b, s, j))
    {
      assert Tied(links, Stop(b, s, i), Stop(b, s, j));
    }
  }

  lemma AppendRing(links: Links, b: nat, s: seq<Id>, n: Id)
    requires Ring(links, b, s) && n !in s && Of(n) in links && Once(s)
    ensures Head(b) in links && links[Head(b)].prev in links
    ensures Ring(Append(links, Head(b), Of(n)), b, s + [n])
  {
    RingEnds(links, b, s);
    var after, t := Append(links, Head(b), Of(n)), s + [n];
    forall i, j | 0 <= i <= |t| && j == i + 1
      ensures Tied(after, Stop(b, t, i), Stop(b, t, j))
    {
      if i < |s| {
        assert Tied(links, Stop(b, s, i), Stop(b, s, j));
      }
    }
  }

  lemma UnlinkRing(links: Links, b: nat, x: seq<Id>, n: Id, y: seq<Id>)
    requires Ring(links, b, x + [n] + y) && Once(x + [n] + y)
    ensures Of(n) in links && links[Of(n)].next in links && links[Of(n)].prev in links
    ensures Ring(Unlink(links, Of(n)), b, x + y)
  {
    var s, t := x + [n] + y, x + y;
    RingAt(links, b, s, |x|);
    var after := Unlink(links, Of(n));
    forall i, j | 0 <= i <= |t| && j == i + 1
      ensures Tied(after, Stop(b, t, i), Stop(b, t, j))
    {
      if i < |x| {
        assert Tied(links, Stop(b, s, i), Stop(b, s, j));
      } else if |x| < i {
        assert Tied(links, Stop(b, s, i + 1), Stop(b, s, j + 1));
      }
    }
  }
}
