/**
 The cache of branch iterators a cursor keeps between reads of a node. Entries are reused when the
 cache moves to another node, and kept when new branches were put in front of the cached ones.
 */
module BranchCache {

  type Branch = nat

  datatype Entry = Entry(branch: Branch, open: bool)

  /** A node: its address, its id and its branches, the newest first. */
  datatype Node = Node(address: nat, id: nat, branches: seq<Branch>)

  ghost function Branches(path: seq<Entry>): (r: seq<Branch>)
    ensures |r| == |path| && forall k :: 0 <= k < |path| ==> r[k] == path[k].branch
  {
    seq(|path|, k requires 0 <= k < |path| => path[k].branch)
  }

  ghost predicate Once(s: seq<Branch>) {
    forall i, j :: 0 <= i < j < |s| ==> s[i] != s[j]
  }

  class Cache {
    var path: seq<Entry>
    var cursor: nat
    var count: nat
    var address: nat
    var id: nat

    /** The first `count` entries are for these branches. */
    ghost predicate Caches(branches: seq<Branch>)
      reads this
    {
      count == |branches| <= |path| && Branches(path[..count]) == branches
    }

    constructor ()
      ensures Caches([]) && address == 0
    {
      path, cursor, count, address, id := [], 0, 0, 0, 0;
    }

    /** Put entries for the branches in front of the cached ones before those. */
    method Prepend(branches: seq<Branch>, ghost fresh_: seq<Branch>, ghost cached: seq<Branch>)
      requires branches == fresh_ + cached && Once(branches) && cached != [] && fresh_ != [] && Caches(cached)
      modifies this`path, this`count, this`cursor
      ensures Caches(branches) && cursor == 0 && path[|fresh_|..] == old(path)
      ensures forall k :: 0 <= k < |fresh_| ==> !path[k].open
    {
      var head: seq<Entry> := [];
      var b := 0;
      assert path[0].branch == Branches(path[..count])[0] == cached[0];
      while b < |branches|
        invariant 0 <= b <= |fresh_| && Branches(head) == fresh_[..b]
        invariant forall k :: 0 <= k < |head| ==> !head[k].open
        decreases |branches| - b
      {
        if path[0].branch == branches[b] {
          assert branches[|fresh_|] == cached[0];
          break;
        }
        assert b != |fresh_|;
        head := head + [Entry(branches[b], false)];
        b := b + 1;
      }
      assert b == |fresh_|;
      assert fresh_[..b] == fresh_;
      Joined(head, path, count, fresh_, cached);
      path := head + path;
      count := |branches|;
      cursor := 0;
    }

    /** Reuse the entries for another node's branches, with more entries as needed. */
    method Rebind(node: Node)
      modifies this`path, this`count, this`cursor, this`address, this`id
      ensures Caches(node.branches) && cursor == 0 && address == node.address && id == node.id
      ensures forall k :: 0 <= k < count ==> !path[k].open
    {
      var b := 0;
      while b < |path| && b < |node.branches|
        invariant 0 <= b <= |path| && b <= |node.branches|
        invariant forall k :: 0 <= k < b ==> path[k] == Entry(node.branches[k], false)
      {
        path := path[b := Entry(node.branches[b], false)];
        b := b + 1;
      }
      while b < |node.branches|
        invariant 0 <= b <= |node.branches| && (b < |node.branches| ==> b == |path|) && b <= |path|
        invariant forall k :: 0 <= k < b ==> path[k] == Entry(node.branches[k], false)
      {
        path := path + [Entry(node.branches[b], false)];
        b := b + 1;
      }
      count, address, id, cursor := |node.branches|, node.address, node.id, 0;
    }

    /** Make the cache follow a node, whichever it followed before. A node at the same address with the
        same id is the same node, to which branches can only have been put in front. */
    method Validate(node: Node, ghost cached: seq<Branch>)
      requires Caches(cached) && node.address != 0 && Once(node.branches)
      requires address == node.address && id == node.id ==>
                 cached != [] && |cached| <= |node.branches| && node.branches[|node.branches| - |cached|..] == cached
      modifies this`path, this`count, this`cursor, this`address, this`id
      ensures Caches(node.branches) && cursor == 0 && address == node.address && id == node.id
      ensures var fresh_ := if old(address) == node.address && old(id) == node.id then |node.branches| - |cached|
                            else |node.branches|;
              && (forall k :: 0 <= k < fresh_ ==> !path[k].open)
              && (old(address) == node.address && old(id) == node.id ==> path[fresh_..] == old(path))
    {
      if address == node.address && id == node.id {
        if |node.branches| == count {
          cursor := 0;
          return;
        }
        ghost var n := |node.branches| - |cached|;
        Prepend(node.branches, node.branches[..n], cached);
        return;
      }
      Rebind(node);
    }

    method Follow() returns (e: Entry)
      requires cursor < |path|
      modifies this`cursor
      ensures e == path[old(cursor)] && cursor == old(cursor) + 1
    {
      e := path[cursor];
      cursor := cursor + 1;
    }
  }

  lemma Joined(head: seq<Entry>, path: seq<Entry>, count: nat, a: seq<Branch>, b: seq<Branch>)
    requires count <= |path| && Branches(head) == a && Branches(path[..count]) == b
    ensures Branches((head + path)[..|head| + count]) == a + b
  {
    assert (head + path)[..|head| + count] == head + path[..count];
  }

  /** Following the cache for as many steps as the node has branches gives the branches in order. */
  method FollowAll(c: Cache, node: Node, ghost cached: seq<Branch>) returns (followed: seq<Branch>)
    requires c.Caches(cached) && node.address != 0 && Once(node.branches)
    requires c.address == node.address && c.id == node.id ==>
               cached != [] && |cached| <= |node.branches| && node.branches[|node.branches| - |cached|..] == cached
    modifies c
    ensures followed == node.branches
  {
    c.Validate(node, cached);
    followed := [];
    for k := 0 to |node.branches|
      invariant c.Caches(node.branches) && c.cursor == k && followed == node.branches[..k]
    {
      assert c.path[k].branch == Branches(c.path[..c.count])[k];
      var e := c.Follow();
      followed := followed + [e.branch];
    }
  }
}
