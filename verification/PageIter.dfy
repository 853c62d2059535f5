/** The iterator over one page. */
module PageIter {
  import opened PageOrder

  function Compare(a: int, b: int): int {
    if a < b then -1 else if a > b then 1 else 0
  }

  /** A position whose key is `key`, or the first one whose key is greater. */
  ghost predicate Found(page: seq<Record>, key: int, pos: nat) {
    && pos <= |page|
    && (pos < |page| ==> key <= page[pos].key)
    && ((pos == |page| || page[pos].key != key) ==> forall k :: 0 <= k < pos ==> page[k].key < key)
  }

  /** Splits a page at a chain boundary: smaller keys before, greater keys behind. */
  ghost predicate Cut(page: seq<Record>, key: int, cut: nat, equalBefore: bool) {
    && cut <= |page|
    && (cut < |page| ==> !page[cut].dup)
    && (forall k :: 0 <= k < cut ==> page[k].key < key || (equalBefore && page[k].key == key))
    && (forall k :: cut <= k < |page| ==> key < page[k].key || (!equalBefore && page[k].key == key))
  }

  /** The head of a chain next to which the page can be cut on either side of the key. */
  ghost predicate Seated(page: seq<Record>, key: int, h: nat) {
    && h < |page| && !page[h].dup
    && (key <= page[h].key ==> Cut(page, key, h, false))
    && (key < page[h].key ==> Cut(page, key, h, true))
    && (page[h].key <= key ==> Cut(page, key, NextHead(page, h + 1), true))
    && (page[h].key < key ==> Cut(page, key, NextHead(page, h + 1), false))
  }

  /** The chain a search ends in is such a chain. */
  lemma HeadCuts(page: seq<Record>, key: int, pos: nat)
    requires Chained(page) && pos < |page| && (Found(page, key, pos) || (pos == |page| - 1 && Found(page, key, |page|)))
    ensures Seated(page, key, HeadOf(page, pos))
  {
    var h := HeadOf(page, pos);
    HeadIsHead(page, pos);
    NextHeadIsNext(page, h + 1);
    var e := NextHead(page, h + 1);
    forall k | 0 <= k < |page|
      ensures k < h ==> page[k].key < page[h].key
      ensures h <= k ==> page[h].key <= page[k].key
      ensures e <= k ==> page[h].key < page[k].key
    {
      if k < h {
        Sorted(page, k, h);
      } else {
        Sorted(page, h, k);
        if e <= k {
          Sorted(page, h, e);
          Sorted(page, e, k);
        }
      }
    }
    if e < |page| {
      Beyond(page, key, pos, h, e);
    }
  }

  lemma Beyond(page: seq<Record>, key: int, pos: nat, h: nat, e: nat)
    requires Chained(page) && h <= pos < |page|
    requires Found(page, key, pos) || (pos == |page| - 1 && Found(page, key, |page|))
    requires page[h].key == page[pos].key && h < e < |page| && page[h].key < page[e].key
    ensures page[h].key <= key ==> key < page[e].key
  {
    Sorted(page, e, |page| - 1);
  }

  lemma CutSelects(page: seq<Record>, o: Order, key: int, cut: nat)
    requires Chained(page) && Cut(page, key, cut, o.GT? || o.LTE?)
    ensures Select(page, o, Key(key)) == if Ascending(o) then page[cut..] else page[..cut]
  {
    if Ascending(o) {
      SelectSuffix(page, cut, o, Key(key));
    } else {
      SelectPrefix(page, cut, o, Key(key));
    }
  }

  /** Standing at a cut, or on the chain before it, what is left is what a scan selects. */
  lemma CutIsScan(page: seq<Record>, o: Order, key: int, cut: nat)
    requires Chained(page) && Cut(page, key, cut, o.GT? || o.LTE?)
    ensures Ascending(o) ==> Scan(page, o, Key(key)) == (if cut < |page| then Rest(page, o, cut) else [])
    ensures !Ascending(o) ==> Scan(page, o, Key(key)) == (if 0 < cut then Rest(page, o, HeadOf(page, cut - 1)) else [])
  {
    CutSelects(page, o, key, cut);
    if !Ascending(o) {
      if 0 < cut {
        RestAtHead(page, o, cut);
      } else {
        assert page[..cut] == [];
      }
    }
  }

  /** The last chain before a cut at a chain boundary. */
  lemma HeadOfNext(page: seq<Record>, h: nat)
    requires Chained(page) && h < |page| && !page[h].dup
    ensures HeadOf(page, NextHead(page, h + 1) - 1) == h
  {
    HeadOfChain(page, h, NextHead(page, h + 1));
  }

  /** Ascending: stay on the chain unless its key is too small. */
  lemma SeatedAscending(page: seq<Record>, o: Order, key: int, h: nat)
    requires Chained(page) && Ascending(o) && Seated(page, key, h)
    ensures var e := NextHead(page, h + 1);
            Scan(page, o, Key(key)) == if page[h].key < key || (page[h].key == key && o.GT?)
                                       then (if e < |page| then Rest(page, o, e) else [])
                                       else Rest(page, o, h)
  {
    if page[h].key < key || (page[h].key == key && o.GT?) {
      CutIsScan(page, o, key, NextHead(page, h + 1));
    } else {
      CutIsScan(page, o, key, h);
    }
  }

  /** Descending: leave the chain if its key is too great. */
  lemma SeatedTooGreat(page: seq<Record>, o: Order, key: int, h: nat)
    requires Chained(page) && !Ascending(o) && Seated(page, key, h)
    requires key < page[h].key || (page[h].key == key && o.LT?)
    ensures Scan(page, o, Key(key)) == if 0 < h then Rest(page, o, HeadOf(page, h - 1)) else []
  {
    CutIsScan(page, o, key, h);
  }

  /** Descending: stay on the chain otherwise. */
  lemma SeatedInReach(page: seq<Record>, o: Order, key: int, h: nat)
    requires Chained(page) && !Ascending(o) && Seated(page, key, h)
    requires page[h].key < key || (page[h].key == key && o.LTE?)
    ensures Scan(page, o, Key(key)) == Rest(page, o, h)
  {
    var e := NextHead(page, h + 1);
    assert Cut(page, key, e, o.LTE?);
    CutIsScan(page, o, key, e);
    HeadOfNext(page, h);
  }

  ghost predicate HasKey(page: seq<Record>, bound: Bound) {
    bound.Key? && exists k :: 0 <= k < |page| && page[k].key == bound.key
  }

  lemma SeatedHasKey(page: seq<Record>, key: int, h: nat)
    requires Seated(page, key, h)
    ensures page[h].key == key <==> HasKey(page, Key(key))
  {
  }

  /** Without a key, reading starts at the first chain or at the last. */
  lemma ScanAll(page: seq<Record>, o: Order)
    requires Chained(page) && page != []
    ensures Scan(page, o, NoKey) == Rest(page, o, if Ascending(o) then 0 else HeadOf(page, |page| - 1))
  {
    SelectAll(page, o, NoKey);
    if !Ascending(o) {
      RestAtHead(page, o, |page|);
      assert page[..|page|] == page;
    }
  }

  class Iterator {
    var page: seq<Record>
    var o: Order
    var bound: Bound
    var pos: nat
    var valid: bool

    ghost predicate Valid()
      reads this
    {
      Chained(page) && (valid ==> pos < |page|)
    }

    /** What the iterator has still to give, the current record first. */
    ghost function Left(): seq<Record>
      requires Valid()
      reads this
    {
      if valid then Rest(page, o, pos) else []
    }

    constructor ()
      ensures Valid() && !valid
    {
      page, pos, valid := [], 0, false;
    }

    method End()
      modifies this`pos, this`valid
      ensures !valid
    {
      pos, valid := |page|, false;
    }

    method Search(key: int) returns (found: nat)
      requires Chained(page)
      ensures Found(page, key, found)
    {
      var min, max := 0, |page| - 1;
      while min <= max
        invariant 0 <= min <= |page| && -1 <= max < |page| && min <= max + 1
        invariant forall k :: 0 <= k < min ==> page[k].key < key
        invariant forall k :: max < k < |page| ==> key < page[k].key
      {
        var mid := min + (max - min) / 2;
        var rc := Compare(page[mid].key, key);
        if rc == -1 {
          forall k | 0 <= k <= mid
            ensures page[k].key < key
          {
            Sorted(page, k, mid);
          }
          min := mid + 1;
        } else if rc == 1 {
          forall k | mid <= k < |page|
            ensures key < page[k].key
          {
            Sorted(page, mid, k);
          }
          max := mid - 1;
        } else {
          return mid;
        }
      }
      return min;
    }

    /** Go to the head of the chain that `from` is in. */
    method ChainHead(from: int)
      requires Chained(page) && -1 <= from < |page|
      modifies this`pos, this`valid
      ensures Valid() && valid == (0 <= from) && (valid ==> pos == HeadOf(page, from))
    {
      var p := from;
      while 0 <= p
        invariant -1 <= p <= from && (0 <= from ==> 0 <= p && HeadOf(page, from) == HeadOf(page, p))
        invariant page == old(page)
      {
        if !page[p].dup {
          pos, valid := p, true;
          return;
        }
        p := p - 1;
      }
      End();
    }

    /** Go to the head of the next chain. */
    method ChainNext()
      requires Valid() && valid
      modifies this`pos, this`valid
      ensures Valid() && valid == (NextHead(page, old(pos) + 1) < |page|)
      ensures valid ==> pos == NextHead(page, old(pos) + 1)
    {
      var p := pos + 1;
      while p < |page|
        invariant old(pos) + 1 <= p <= |page| && NextHead(page, p) == NextHead(page, old(pos) + 1)
        invariant page == old(page) && Chained(page)
      {
        if !page[p].dup {
          pos, valid := p, true;
          return;
        }
        p := p + 1;
      }
      End();
    }

    /** Go to the chain a search for the key ends in. */
    method Seek(key: int)
      requires Chained(page) && page != []
      modifies this`pos, this`valid
      ensures Valid() && valid && Seated(page, key, pos)
    {
      var found := Search(key);
      var from := if found >= |page| then |page| - 1 else found;
      HeadCuts(page, key, from);
      ChainHead(from);
    }

    method OpenAscending(equal: bool) returns (same: bool)
      requires Chained(page) && page != [] && o == if equal then GTE else GT
      modifies this`pos, this`valid
      ensures Valid() && Left() == Scan(page, o, bound) && same == HasKey(page, bound)
    {
      if bound.NoKey? {
        pos, valid := 0, true;
        ScanAll(page, o);
        return false;
      }
      Seek(bound.key);
      SeatedHasKey(page, bound.key, pos);
      SeatedAscending(page, o, bound.key, pos);
      var rc := Compare(page[pos].key, bound.key);
      same := rc == 0;
      if rc == -1 || (rc == 0 && !equal) {
        ChainNext();
      }
    }

    method SeekDescending(key: int, equal: bool) returns (same: bool)
      requires Chained(page) && page != [] && o == if equal then LTE else LT
      modifies this`pos, this`valid
      ensures Valid() && Left() == Scan(page, o, Key(key)) && same == HasKey(page, Key(key))
    {
      Seek(key);
      SeatedHasKey(page, key, pos);
      var rc := Compare(page[pos].key, key);
      same := rc == 0;
      if rc == 1 || (rc == 0 && !equal) {
        SeatedTooGreat(page, o, key, pos);
        ChainHead(pos - 1);
      } else {
        SeatedInReach(page, o, key, pos);
      }
    }

    method OpenDescending(equal: bool) returns (same: bool)
      requires Chained(page) && page != [] && o == if equal then LTE else LT
      modifies this`pos, this`valid
      ensures Valid() && Left() == Scan(page, o, bound) && same == HasKey(page, bound)
    {
      if bound.NoKey? {
        ScanAll(page, o);
        ChainHead(|page| - 1);
        return false;
      }
      same := SeekDescending(bound.key, equal);
    }

    /** Start reading a page. */
    method Open(page: seq<Record>, o: Order, bound: Bound) returns (same: bool)
      requires Chained(page)
      modifies this
      ensures Valid() && this.page == page && this.o == o
      ensures Left() == Scan(page, o, bound) && same == HasKey(page, bound)
    {
      this.page, this.o, this.bound, pos, valid := page, o, bound, 0, false;
      same := false;
      if |page| == 0 {
        End();
        return;
      }
      match o
      case GT => same := OpenAscending(false);
      case GTE => same := OpenAscending(true);
      case LT => same := OpenDescending(false);
      case LTE => same := OpenDescending(true);
    }

    method NextDescending()
      requires Valid() && valid && !Ascending(o)
      modifies this`pos, this`valid
      ensures Valid() && old(Left()) == [page[old(pos)]] + Left()
    {
      if pos + 1 < |page| && page[pos + 1].dup {
        RestInChain(page, o, pos);
        pos := pos + 1;
      } else {
        RestAtEnd(page, o, pos);
        HeadIsHead(page, pos);
        ChainHead(pos);
        RestBefore(page, o, pos);
        ChainHead(pos - 1);
      }
    }

    /** Move on by one record. */
    method Next()
      requires Valid()
      modifies this`pos, this`valid
      ensures Valid() && (!old(valid) ==> !valid)
      ensures old(valid) ==> old(Left()) == [page[old(pos)]] + Left()
    {
      if !valid {
        return;
      }
      if Ascending(o) {
        assert page[pos..] == [page[pos]] + page[pos + 1..];
        pos := pos + 1;
        if pos >= |page| {
          End();
        }
      } else {
        NextDescending();
      }
    }

    /** The record the iterator stands on. */
    method Of() returns (r: Record)
      requires Valid() && valid
      ensures Left() != [] && r == Left()[0]
    {
      r := page[pos];
    }
  }

  /** The chains before the one that starts at `h`. */
  lemma RestBefore(page: seq<Record>, o: Order, h: nat)
    requires Chained(page) && !Ascending(o) && h < |page| && !page[h].dup
    ensures Backward(page[..h]) == if 0 < h then Rest(page, o, HeadOf(page, h - 1)) else []
  {
    if 0 < h {
      RestAtHead(page, o, h);
    }
  }
}
