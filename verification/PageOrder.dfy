/**
 Records of a branch in stored order: duplicate chains by ascending key, the newest version of a
 key first and its older versions, marked as duplicates, behind it.
 */
module PageOrder {
  import opened Sequences

  datatype Record = Record(key: int, dup: bool, lsn: nat)

  datatype Order = GT | GTE | LT | LTE

  /** A key to start from, or none. */
  datatype Bound = NoKey | Key(key: int)

  predicate Ascending(o: Order) {
    o.GT? || o.GTE?
  }

  predicate Wanted(o: Order, bound: Bound, r: Record) {
    match bound
    case NoKey => true
    case Key(k) =>
      match o
      case GT => k < r.key
      case GTE => k <= r.key
      case LT => r.key < k
      case LTE => r.key <= k
  }

  /** What a linear scan picks. */
  function Select(s: seq<Record>, o: Order, bound: Bound): seq<Record> {
    if s == [] then []
    else
      var rest := Select(s[..|s| - 1], o, bound);
      if Wanted(o, bound, s[|s| - 1]) then rest + [s[|s| - 1]] else rest
  }

  /** Records that form whole chains in ascending order of keys. */
  ghost predicate Chained(s: seq<Record>) {
    && (s != [] ==> !s[0].dup)
    && forall i, j :: 0 <= i < j < |s| && j == i + 1 ==> if s[j].dup then s[i].key == s[j].key else s[i].key < s[j].key
  }

  /** The head of the chain a record belongs to. */
  function HeadOf(s: seq<Record>, pos: nat): (h: nat)
    requires pos < |s|
    ensures h <= pos
  {
    if pos == 0 || !s[pos].dup then pos else HeadOf(s, pos - 1)
  }

  /** The next head at or after a position, or the end. */
  function NextHead(s: seq<Record>, pos: nat): (h: nat)
    requires pos <= |s|
    ensures pos <= h <= |s|
    decreases |s| - pos
  {
    if pos == |s| || !s[pos].dup then pos else NextHead(s, pos + 1)
  }

  /** Chains in descending order of keys, each still newest first. */
  function Backward(s: seq<Record>): seq<Record> {
    if s == [] then []
    else
      var h := HeadOf(s, |s| - 1);
      s[h..] + Backward(s[..h])
  }

  /** The records a read must give, in the order it must give them. */
  function Scan(s: seq<Record>, o: Order, bound: Bound): seq<Record> {
    if Ascending(o) then Select(s, o, bound) else Backward(Select(s, o, bound))
  }

  // ---------------------------------------------------------------- selecting

  lemma {:induction false} SelectNone(s: seq<Record>, o: Order, bound: Bound)
    requires forall i :: 0 <= i < |s| ==> !Wanted(o, bound, s[i])
    ensures Select(s, o, bound) == []
  {
    if s != [] {
      SelectNone(s[..|s| - 1], o, bound);
    }
  }

  lemma {:induction false} SelectAll(s: seq<Record>, o: Order, bound: Bound)
    requires forall i :: 0 <= i < |s| ==> Wanted(o, bound, s[i])
    ensures Select(s, o, bound) == s
  {
    if s != [] {
      SelectAll(s[..|s| - 1], o, bound);
      assert s == s[..|s| - 1] + [s[|s| - 1]];
    }
  }

  lemma {:induction false} SelectConcat(a: seq<Record>, b: seq<Record>, o: Order, bound: Bound)
    ensures Select(a + b, o, bound) == Select(a, o, bound) + Select(b, o, bound)
    decreases |b|
  {
    if b == [] {
      assert a + b == a;
    } else {
      var c := b[..|b| - 1];
      assert (a + b)[..|a + b| - 1] == a + c;
      assert (a + b)[|a + b| - 1] == b[|b| - 1];
      SelectConcat(a, c, o, bound);
    }
  }

  lemma SelectSuffix(s: seq<Record>, cut: nat, o: Order, bound: Bound)
    requires cut <= |s|
    requires forall i :: 0 <= i < cut ==> !Wanted(o, bound, s[i])
    requires forall i :: cut <= i < |s| ==> Wanted(o, bound, s[i])
    ensures Select(s, o, bound) == s[cut..]
  {
    assert s == s[..cut] + s[cut..];
    SelectConcat(s[..cut], s[cut..], o, bound);
    SelectNone(s[..cut], o, bound);
    SelectAll(s[cut..], o, bound);
  }

  lemma SelectPrefix(s: seq<Record>, cut: nat, o: Order, bound: Bound)
    requires cut <= |s|
    requires forall i :: 0 <= i < cut ==> Wanted(o, bound, s[i])
    requires forall i :: cut <= i < |s| ==> !Wanted(o, bound, s[i])
    ensures Select(s, o, bound) == s[..cut]
  {
    assert s == s[..cut] + s[cut..];
    SelectConcat(s[..cut], s[cut..], o, bound);
    SelectAll(s[..cut], o, bound);
    SelectNone(s[cut..], o, bound);
  }

  // ---------------------------------------------------------------- chains

  lemma {:induction false} Sorted(s: seq<Record>, i: nat, j: nat)
    requires Chained(s) && i <= j < |s|
    ensures s[i].key <= s[j].key
    ensures i < j && !s[j].dup ==> s[i].key < s[j].key
    decreases j - i
  {
    if i < j {
      Sorted(s, i, j - 1);
    }
  }

  lemma {:induction false} HeadIsHead(s: seq<Record>, pos: nat)
    requires Chained(s) && pos < |s|
    ensures !s[HeadOf(s, pos)].dup && s[HeadOf(s, pos)].key == s[pos].key
    ensures forall k :: HeadOf(s, pos) < k <= pos ==> s[k].dup
  {
    if pos != 0 && s[pos].dup {
      HeadIsHead(s, pos - 1);
    }
  }

  lemma {:induction false} NextHeadIsNext(s: seq<Record>, pos: nat)
    requires Chained(s) && pos <= |s|
    ensures NextHead(s, pos) < |s| ==> !s[NextHead(s, pos)].dup
    ensures forall k :: pos <= k < NextHead(s, pos) ==> s[k].dup
    ensures 0 < pos ==> forall k :: pos <= k < NextHead(s, pos) ==> s[k].key == s[pos - 1].key
    decreases |s| - pos
  {
    if pos < |s| && s[pos].dup {
      NextHeadIsNext(s, pos + 1);
    }
  }

  lemma {:induction false} HeadUnique(s: seq<Record>, h: nat, pos: nat)
    requires h <= pos < |s| && (h == 0 || !s[h].dup) && forall k :: h < k <= pos ==> s[k].dup
    ensures HeadOf(s, pos) == h
  {
    if h < pos {
      HeadUnique(s, h, pos - 1);
    }
  }

  lemma {:induction false} HeadOfPrefix(s: seq<Record>, n: nat, pos: nat)
    requires pos < n <= |s|
    ensures HeadOf(s[..n], pos) == HeadOf(s, pos)
  {
    if pos != 0 && s[pos].dup {
      HeadOfPrefix(s, n, pos - 1);
    }
  }

  lemma {:induction false} HeadOfSuffix(a: seq<Record>, b: seq<Record>, pos: nat)
    requires pos < |b| && !b[0].dup
    ensures HeadOf(a + b, |a| + pos) == |a| + HeadOf(b, pos)
  {
    if pos != 0 && b[pos].dup {
      HeadOfSuffix(a, b, pos - 1);
    }
  }

  lemma BackwardUnfold(s: seq<Record>, h: nat, chain: seq<Record>, rest: seq<Record>)
    requires s != [] && h == HeadOf(s, |s| - 1) && chain == s[h..] && rest == s[..h]
    ensures Backward(s) == chain + Backward(rest)
  {
  }

  lemma {:induction false} BackwardConcat(a: seq<Record>, b: seq<Record>)
    requires b != [] ==> !b[0].dup
    ensures Backward(a + b) == Backward(b) + Backward(a)
    decreases |b|
  {
    if b == [] {
      assert a + b == a;
    } else {
      var h := HeadOf(b, |b| - 1);
      var chain, rest := b[h..], b[..h];
      BackwardUnfold(b, h, chain, rest);
      assert Backward(a + b) == chain + Backward(a + rest) by {
        HeadOfSuffix(a, b, |b| - 1);
        assert (a + b)[|a| + h..] == chain;
        assert (a + b)[..|a| + h] == a + rest;
        BackwardUnfold(a + b, |a| + h, chain, a + rest);
      }
      BackwardConcat(a, rest);
      Associate(chain, Backward(rest), Backward(a));
    }
  }

  // ---------------------------------------------------------------- reading within a page

  /** What is left to read, from the record at `pos` on. */
  function Rest(s: seq<Record>, o: Order, pos: nat): seq<Record>
    requires pos < |s|
  {
    if Ascending(o) then s[pos..]
    else s[pos..NextHead(s, pos + 1)] + Backward(s[..HeadOf(s, pos)])
  }

  lemma HeadOfChain(s: seq<Record>, h: nat, e: nat)
    requires Chained(s) && h < e <= |s| && !s[h].dup && NextHead(s, h + 1) == e
    ensures forall k :: h <= k < e ==> HeadOf(s, k) == h
  {
    NextHeadIsNext(s, h + 1);
    forall k | h <= k < e
      ensures HeadOf(s, k) == h
    {
      HeadUnique(s, h, k);
    }
  }

  lemma {:induction false} NextHeadUnique(s: seq<Record>, pos: nat, e: nat)
    requires pos <= e <= |s| && (e == |s| || !s[e].dup) && forall k :: pos <= k < e ==> s[k].dup
    ensures NextHead(s, pos) == e
    decreases e - pos
  {
    if pos < e {
      NextHeadUnique(s, pos + 1, e);
    }
  }

  /** Standing on the head of the last chain before `e`, all chains before `e` are left to read. */
  lemma RestAtHead(s: seq<Record>, o: Order, e: nat)
    requires Chained(s) && 0 < e <= |s| && (e < |s| ==> !s[e].dup) && !Ascending(o)
    ensures Rest(s, o, HeadOf(s, e - 1)) == Backward(s[..e])
  {
    var h := HeadOf(s, e - 1);
    HeadOfHead(s, e, h);
    RestUnfold(s, o, h, e, h);
    BackwardPrefix(s, e, h);
  }

  lemma HeadOfHead(s: seq<Record>, e: nat, h: nat)
    requires Chained(s) && 0 < e <= |s| && (e < |s| ==> !s[e].dup) && h == HeadOf(s, e - 1)
    ensures NextHead(s, h + 1) == e && HeadOf(s, h) == h
  {
    HeadIsHead(s, e - 1);
    NextHeadUnique(s, h + 1, e);
  }

  lemma BackwardPrefix(s: seq<Record>, e: nat, h: nat)
    requires 0 < e <= |s| && h == HeadOf(s, e - 1)
    ensures Backward(s[..e]) == s[h..e] + Backward(s[..h])
  {
    HeadOfPrefix(s, e, e - 1);
    assert s[..e][h..] == s[h..e];
    assert s[..e][..h] == s[..h];
    BackwardUnfold(s[..e], h, s[h..e], s[..h]);
  }

  lemma RestUnfold(s: seq<Record>, o: Order, pos: nat, e: nat, h: nat)
    requires pos < |s| && !Ascending(o) && e == NextHead(s, pos + 1) && h == HeadOf(s, pos)
    ensures Rest(s, o, pos) == s[pos..e] + Backward(s[..h])
  {
  }

  /** Inside a chain the next record is its next duplicate. */
  lemma RestInChain(s: seq<Record>, o: Order, pos: nat)
    requires Chained(s) && pos + 1 < |s| && s[pos + 1].dup && !Ascending(o)
    ensures Rest(s, o, pos) == [s[pos]] + Rest(s, o, pos + 1)
  {
  }

  /** At the end of a chain the previous chains are left. */
  lemma RestAtEnd(s: seq<Record>, o: Order, pos: nat)
    requires Chained(s) && pos < |s| && (pos + 1 < |s| ==> !s[pos + 1].dup) && !Ascending(o)
    ensures Rest(s, o, pos) == [s[pos]] + Backward(s[..HeadOf(s, pos)])
  {
    assert s[pos..pos + 1] == [s[pos]];
  }
}
