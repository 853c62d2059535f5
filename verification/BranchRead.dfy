/**
 Reading a branch: the page index routes to a page, the page iterator reads it, and the reader goes
 on to the next page, until everything a linear scan of all pages would give has been given.
 */
module BranchRead {
  import opened PageOrder
  import opened PageIter
  import opened Sequences

  /** The pages of a branch; a node that has just been bootstrapped has one empty page. */
  datatype Branch = Branch(pages: seq<seq<Record>>, bootstrap: bool)

  function Min(page: seq<Record>): int
    requires page != []
  {
    page[0].key
  }

  function Max(page: seq<Record>): int
    requires page != []
  {
    page[|page| - 1].key
  }

  ghost predicate SortedPages(pages: seq<seq<Record>>) {
    && (forall i :: 0 <= i < |pages| ==> pages[i] != [] && Chained(pages[i]))
    && (forall i, j :: 0 <= i < j < |pages| ==> Max(pages[i]) < Min(pages[j]))
  }

  ghost predicate ValidBranch(b: Branch) {
    && b.pages != []
    && (if b.bootstrap then b.pages == [[]] else SortedPages(b.pages))
  }

  // ---------------------------------------------------------------- pages and keys

  lemma KeysInPage(page: seq<Record>, k: nat)
    requires Chained(page) && k < |page|
    ensures Min(page) <= page[k].key <= Max(page)
  {
    Sorted(page, 0, k);
    Sorted(page, k, |page| - 1);
  }

  ghost predicate NoneWanted(page: seq<Record>, o: Order, bound: Bound) {
    forall k :: 0 <= k < |page| ==> !Wanted(o, bound, page[k])
  }

  ghost predicate AllWanted(page: seq<Record>, o: Order, bound: Bound) {
    forall k :: 0 <= k < |page| ==> Wanted(o, bound, page[k])
  }

  /** The pages behind page `pos`, in reading order, are wanted whole, and those before it not at all. */
  ghost predicate RoutedTo(pages: seq<seq<Record>>, o: Order, bound: Bound, pos: int) {
    && -1 <= pos <= |pages|
    && (forall i :: 0 <= i < |pages| && i < pos ==>
          if Ascending(o) then NoneWanted(pages[i], o, bound) else AllWanted(pages[i], o, bound))
    && (forall i :: 0 <= i < |pages| && pos < i ==>
          if Ascending(o) then AllWanted(pages[i], o, bound) else NoneWanted(pages[i], o, bound))
    && (pos == -1 ==> !Ascending(o))
    && (pos == |pages| ==> Ascending(o))
  }

  /** What is left to read behind page `pos`. */
  function After(pages: seq<seq<Record>>, o: Order, pos: nat): seq<Record>
    requires pos < |pages|
  {
    if Ascending(o) then Flat(pages[pos + 1..]) else Backward(Flat(pages[..pos]))
  }

  // ---------------------------------------------------------------- flattening

  lemma FlatSplit(pages: seq<seq<Record>>, before: seq<seq<Record>>, page: seq<Record>, behind: seq<seq<Record>>)
    requires pages == before + [page] + behind
    ensures Flat(pages) == Flat(before) + page + Flat(behind)
  {
    FlatConcat(before + [page], behind);
    FlatConcat(before, [page]);
    FlatOne(page);
  }

  lemma SelectThree(a: seq<Record>, b: seq<Record>, c: seq<Record>, o: Order, bound: Bound)
    ensures Select(a, o, bound) == [] && Select(c, o, bound) == c ==>
              Select(a + b + c, o, bound) == Select(b, o, bound) + c
    ensures Select(a, o, bound) == a && Select(c, o, bound) == [] ==>
              Select(a + b + c, o, bound) == a + Select(b, o, bound)
  {
    SelectConcat(a + b, c, o, bound);
    SelectConcat(a, b, o, bound);
  }

  lemma {:induction false} SelectFlatNone(pages: seq<seq<Record>>, o: Order, bound: Bound)
    requires forall i :: 0 <= i < |pages| ==> NoneWanted(pages[i], o, bound)
    ensures Select(Flat(pages), o, bound) == []
  {
    if pages != [] {
      var front, last := pages[..|pages| - 1], pages[|pages| - 1];
      SelectFlatNone(front, o, bound);
      SelectNone(last, o, bound);
      SelectConcat(Flat(front), last, o, bound);
    }
  }

  lemma {:induction false} SelectFlatAll(pages: seq<seq<Record>>, o: Order, bound: Bound)
    requires forall i :: 0 <= i < |pages| ==> AllWanted(pages[i], o, bound)
    ensures Select(Flat(pages), o, bound) == Flat(pages)
  {
    if pages != [] {
      var front, last := pages[..|pages| - 1], pages[|pages| - 1];
      SelectFlatAll(front, o, bound);
      SelectAll(last, o, bound);
      SelectConcat(Flat(front), last, o, bound);
    }
  }

  lemma SelectAscending(before: seq<seq<Record>>, page: seq<Record>, behind: seq<seq<Record>>, o: Order, bound: Bound)
    requires forall i :: 0 <= i < |before| ==> NoneWanted(before[i], o, bound)
    requires forall i :: 0 <= i < |behind| ==> AllWanted(behind[i], o, bound)
    ensures Select(Flat(before) + page + Flat(behind), o, bound) == Select(page, o, bound) + Flat(behind)
  {
    SelectThree(Flat(before), page, Flat(behind), o, bound);
    SelectFlatNone(before, o, bound);
    SelectFlatAll(behind, o, bound);
  }

  lemma SelectDescending(before: seq<seq<Record>>, page: seq<Record>, behind: seq<seq<Record>>, o: Order, bound: Bound)
    requires forall i :: 0 <= i < |before| ==> AllWanted(before[i], o, bound)
    requires forall i :: 0 <= i < |behind| ==> NoneWanted(behind[i], o, bound)
    ensures Select(Flat(before) + page + Flat(behind), o, bound) == Flat(before) + Select(page, o, bound)
  {
    SelectThree(Flat(before), page, Flat(behind), o, bound);
    SelectFlatAll(before, o, bound);
    SelectFlatNone(behind, o, bound);
  }

  lemma SelectRouted(pages: seq<seq<Record>>, o: Order, bound: Bound, pos: nat)
    requires pos < |pages| && RoutedTo(pages, o, bound, pos)
    ensures Select(Flat(pages), o, bound) ==
            if Ascending(o) then Select(pages[pos], o, bound) + Flat(pages[pos + 1..])
            else Flat(pages[..pos]) + Select(pages[pos], o, bound)
  {
    var before, page, behind := pages[..pos], pages[pos], pages[pos + 1..];
    FlatSplit(pages, before, page, behind);
    if Ascending(o) {
      SelectAscending(before, page, behind, o, bound);
    } else {
      SelectDescending(before, page, behind, o, bound);
    }
  }

  lemma {:induction false} SelectStart(s: seq<Record>, o: Order, bound: Bound)
    requires Chained(s) && !Ascending(o) && s != []
    ensures Select(s, o, bound) != [] ==> !Select(s, o, bound)[0].dup
    decreases |s|
  {
    var front := s[..|s| - 1];
    if front != [] {
      assert Chained(front);
      SelectStart(front, o, bound);
      if Select(front, o, bound) == [] && Wanted(o, bound, s[|s| - 1]) {
        Sorted(s, 0, |s| - 1);
        SelectHas(front, o, bound, 0);
      }
    } else {
      assert s[..|s| - 1] == [];
    }
  }

  lemma {:induction false} SelectHas(s: seq<Record>, o: Order, bound: Bound, k: nat)
    requires k < |s| && Wanted(o, bound, s[k])
    ensures Select(s, o, bound) != []
  {
    if k < |s| - 1 {
      SelectHas(s[..|s| - 1], o, bound, k);
    }
  }

  /** Reading page `pos` and then the pages behind it is the scan of the whole branch. */
  lemma ScanRouted(pages: seq<seq<Record>>, o: Order, bound: Bound, pos: nat)
    requires pos < |pages| && RoutedTo(pages, o, bound, pos) && pages[pos] != [] && Chained(pages[pos])
    ensures Scan(Flat(pages), o, bound) == Scan(pages[pos], o, bound) + After(pages, o, pos)
  {
    SelectRouted(pages, o, bound, pos);
    if !Ascending(o) {
      SelectStart(pages[pos], o, bound);
      BackwardConcat(Flat(pages[..pos]), Select(pages[pos], o, bound));
    }
  }

  lemma ScanOutside(pages: seq<seq<Record>>, o: Order, bound: Bound, pos: int)
    requires RoutedTo(pages, o, bound, pos) && (pos < 0 || |pages| <= pos)
    ensures Scan(Flat(pages), o, bound) == []
  {
    SelectFlatNone(pages, o, bound);
  }

  // ---------------------------------------------------------------- routing

  /** The first page whose greatest key is not below `key`, or the last page. */
  ghost predicate Route(pages: seq<seq<Record>>, key: int, pos: nat)
    requires SortedPages(pages)
  {
    && pos < |pages|
    && (forall i :: 0 <= i < pos ==> Max(pages[i]) < key)
    && (pos < |pages| - 1 ==> key <= Max(pages[pos]))
  }

  /** Where a read must start, given the routed page. */
  function Adjusted(pages: seq<seq<Record>>, o: Order, key: int, pos: nat): int
    requires pos < |pages| && pages[pos] != []
  {
    if Ascending(o) then
      var rc := Compare(Max(pages[pos]), key);
      if rc == -1 || (rc == 0 && o == GT) then pos + 1 else pos
    else
      var rc := Compare(Min(pages[pos]), key);
      if rc == 1 || (rc == 0 && o == LT) then pos - 1 else pos
  }

  lemma PageWanted(page: seq<Record>, o: Order, key: int)
    requires Chained(page) && page != []
    ensures Max(page) < key ==> if Ascending(o) then NoneWanted(page, o, Key(key)) else AllWanted(page, o, Key(key))
    ensures key < Min(page) ==> if Ascending(o) then AllWanted(page, o, Key(key)) else NoneWanted(page, o, Key(key))
    ensures Max(page) == key && o == GT ==> NoneWanted(page, o, Key(key))
    ensures Min(page) == key && o == LT ==> NoneWanted(page, o, Key(key))
  {
    forall k | 0 <= k < |page|
      ensures Min(page) <= page[k].key <= Max(page)
    {
      KeysInPage(page, k);
    }
  }

  lemma AdjustedRoutes(pages: seq<seq<Record>>, o: Order, key: int, pos: nat)
    requires SortedPages(pages) && Route(pages, key, pos)
    ensures RoutedTo(pages, o, Key(key), Adjusted(pages, o, key, pos))
  {
    forall i | 0 <= i < |pages|
      ensures i < pos ==> if Ascending(o) then NoneWanted(pages[i], o, Key(key)) else AllWanted(pages[i], o, Key(key))
      ensures pos < i ==> if Ascending(o) then AllWanted(pages[i], o, Key(key)) else NoneWanted(pages[i], o, Key(key))
    {
      PageWanted(pages[i], o, key);
    }
    PageWanted(pages[pos], o, key);
  }

  lemma AllRouted(pages: seq<seq<Record>>, o: Order)
    requires pages != []
    ensures RoutedTo(pages, o, NoKey, if Ascending(o) then 0 else |pages| - 1)
  {
  }

  class IndexIterator {
    var branch: Branch
    var o: Order
    var pos: int
    var valid: bool

    ghost predicate Valid()
      reads this
    {
      ValidBranch(branch) && (valid ==> 0 <= pos < |branch.pages| && !branch.bootstrap)
    }

    constructor (branch: Branch)
      requires ValidBranch(branch)
      ensures Valid() && !valid && this.branch == branch
    {
      this.branch, pos, valid := branch, 0, false;
    }

    method FindRoute(key: int) returns (end: nat)
      requires Valid() && !branch.bootstrap
      ensures Route(branch.pages, key, end)
    {
      var pages := branch.pages;
      var begin := 0;
      end := |pages| - 1;
      while begin != end
        invariant 0 <= begin <= end < |pages|
        invariant forall i :: 0 <= i < begin ==> Max(pages[i]) < key
        invariant end < |pages| - 1 ==> key <= Max(pages[end])
        decreases end - begin
      {
        var mid := begin + (end - begin) / 2;
        if Compare(Max(pages[mid]), key) < 0 {
          forall i | 0 <= i <= mid
            ensures Max(pages[i]) < key
          {
            PagesAscend(pages, i, mid);
          }
          begin := mid + 1;
        } else {
          end := mid;
        }
      }
    }

    /** Find the page a read must start in, if there is one. */
    method Open(o: Order, bound: Bound)
      requires Valid()
      modifies this`o, this`pos, this`valid
      ensures Valid() && this.o == o
      ensures if valid then RoutedTo(branch.pages, o, bound, pos) else Scan(Flat(branch.pages), o, bound) == []
    {
      this.o, pos, valid := o, 0, false;
      if branch.bootstrap {
        FlatOne<Record>([]);
        return;
      }
      if bound.NoKey? {
        pos := if Ascending(o) then 0 else |branch.pages| - 1;
        valid := true;
        AllRouted(branch.pages, o);
        return;
      }
      if |branch.pages| > 1 {
        pos := FindRoute(bound.key);
      }
      AdjustedRoutes(branch.pages, o, bound.key, pos);
      pos := Adjusted(branch.pages, o, bound.key, pos);
      if pos == -1 || pos >= |branch.pages| {
        ScanOutside(branch.pages, o, bound, pos);
        return;
      }
      valid := true;
    }

    method Next()
      requires Valid() && valid
      modifies this`pos, this`valid
      ensures Valid() && pos == (if Ascending(o) then old(pos) + 1 else old(pos) - 1)
      ensures valid == (0 <= pos < |branch.pages|)
    {
      pos := if Ascending(o) then pos + 1 else pos - 1;
      valid := 0 <= pos < |branch.pages|;
    }
  }

  // ---------------------------------------------------------------- reading

  /** The pages behind `pos` are the next page and the pages behind that. */
  lemma AfterNext(pages: seq<seq<Record>>, o: Order, pos: nat)
    requires SortedPages(pages) && pos < |pages|
    ensures var next := if Ascending(o) then pos + 1 else pos - 1;
            After(pages, o, pos) ==
            if 0 <= next < |pages| then Scan(pages[next], o, NoKey) + After(pages, o, next) else []
  {
    if Ascending(o) {
      if pos + 1 < |pages| {
        var next, rest := pages[pos + 1], pages[pos + 2..];
        assert pages[pos + 1..] == [] + [next] + rest;
        FlatSplit(pages[pos + 1..], [], next, rest);
        SelectAll(next, o, NoKey);
      }
    } else {
      if 0 < pos {
        AfterPrevious(pages, o, pos);
      }
    }
  }

  lemma AfterPrevious(pages: seq<seq<Record>>, o: Order, pos: nat)
    requires SortedPages(pages) && 0 < pos < |pages| && !Ascending(o)
    ensures Backward(Flat(pages[..pos])) == Scan(pages[pos - 1], o, NoKey) + Backward(Flat(pages[..pos - 1]))
  {
    var front, page := pages[..pos - 1], pages[pos - 1];
    assert pages[..pos] == front + [page];
    FlatConcat(front, [page]);
    FlatOne(page);
    BackwardConcat(Flat(front), page);
    SelectAll(page, o, NoKey);
  }

  class Reader {
    const index: IndexIterator
    const page: Iterator
    const o: Order

    /** A page is open and both iterators agree on which. */
    ghost predicate OnPage()
      reads this, index, page
    {
      && index.Valid() && page.Valid() && index.o == o
      && (index.valid ==> page.o == o && page.page == index.branch.pages[index.pos])
    }

    ghost predicate Valid()
      reads this, index, page
    {
      OnPage() && (index.valid ==> page.valid)
    }

    /** What is left to read, the current record first. */
    ghost function Left(): seq<Record>
      requires OnPage()
      reads this, index, page
    {
      if index.valid then page.Left() + After(index.branch.pages, o, index.pos) else []
    }

    /** Open the page behind one that has been read. */
    method TurnPage()
      requires OnPage() && index.valid && !page.valid
      modifies index`pos, index`valid, page
      ensures OnPage() && Left() == old(Left())
      ensures index.pos == if Ascending(o) then old(index.pos) + 1 else old(index.pos) - 1
    {
      ghost var pages := index.branch.pages;
      AfterNext(pages, o, index.pos);
      Nothing(After(pages, o, index.pos));
      index.Next();
      if index.valid {
        var same := page.Open(index.branch.pages[index.pos], o, NoKey);
      }
    }

    /** Open the pages behind the current one until there is a record. */
    method Retry()
      requires OnPage()
      modifies index`pos, index`valid, page
      ensures Valid() && Left() == old(Left())
    {
      ghost var left := Left();
      while index.valid && !page.valid
        invariant OnPage() && Left() == left
        decreases index.valid, if Ascending(o) then |index.branch.pages| - index.pos else index.pos
      {
        TurnPage();
      }
    }

    /** Start a read: what is left is what a linear scan of all pages would give. */
    constructor (branch: Branch, order: Order, bound: Bound)
      requires ValidBranch(branch)
      ensures Valid() && fresh(index) && fresh(page) && o == order && index.branch == branch
      ensures Left() == Scan(Flat(branch.pages), order, bound)
    {
      var i := new IndexIterator(branch);
      var p := new Iterator();
      i.Open(order, bound);
      if i.valid {
        var same := p.Open(branch.pages[i.pos], order, bound);
        ScanRouted(branch.pages, order, bound, i.pos);
      }
      index, page, o := i, p, order;
      new;
      Retry();
    }

    /** Move on by one record. */
    method Next()
      requires Valid()
      modifies index`pos, index`valid, page
      ensures Valid() && (old(Left()) == [] ==> Left() == [])
      ensures old(Left()) != [] ==> old(Left()) == [old(Left())[0]] + Left()
    {
      if !index.valid {
        return;
      }
      ghost var r, after := page.page[page.pos], After(index.branch.pages, o, index.pos);
      page.Next();
      Associate([r], page.Left(), after);
      assert old(Left()) == [r] + Left();
      Retry();
    }

    method Has() returns (has: bool)
      requires Valid()
      ensures has <==> Left() != []
    {
      has := index.valid && page.valid;
    }

    method Of() returns (r: Record)
      requires Valid() && Left() != []
      ensures r == Left()[0]
    {
      r := page.Of();
    }
  }

  /** A read to the end gives exactly the records of a linear scan, in its order. */
  method ReadAll(branch: Branch, o: Order, bound: Bound) returns (out: seq<Record>)
    requires ValidBranch(branch)
    ensures out == Scan(Flat(branch.pages), o, bound)
  {
    var reader := new Reader(branch, o, bound);
    out := Drain(reader);
  }

  method Drain(reader: Reader) returns (out: seq<Record>)
    requires reader.Valid()
    modifies reader.index`pos, reader.index`valid, reader.page
    ensures out == old(reader.Left())
  {
    ghost var all := reader.Left();
    out := [];
    var has := reader.Has();
    while has
      invariant reader.Valid() && has == (reader.Left() != [])
      invariant out + reader.Left() == all
      decreases |reader.Left()|
    {
      var r := reader.Of();
      reader.Next();
      Associate(out, [r], reader.Left());
      out := out + [r];
      has := reader.Has();
    }
  }

  lemma Nothing(s: seq<Record>)
    ensures [] + s == s
  {
  }

  lemma PagesAscend(pages: seq<seq<Record>>, i: nat, j: nat)
    requires SortedPages(pages) && i <= j < |pages|
    ensures Max(pages[i]) <= Max(pages[j])
  {
    KeysInPage(pages[j], 0);
  }
}
