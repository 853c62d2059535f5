/**
 The open-addressing hash table in which the page builder keeps the key parts it has written. The
 hash function is arbitrary, and a slot found before the table was resized may still be set after.
 */
module KeyTracker {
  import opened Machine
  import opened Arithmetic

  /** A key part: its bytes are at `start` in the key buffer, and it is referred to by `offset`. */
  datatype Entry = Entry(hash: nat, offset: nat, start: nat, size: nat)

  datatype Slot = Vacant | Used(entry: Entry)

  function UsedCount(table: seq<Slot>): (n: nat)
    ensures n <= |table|
  {
    if table == [] then 0
    else UsedCount(table[..|table| - 1]) + if table[|table| - 1].Used? then 1 else 0
  }

  lemma {:induction false} SomeVacant(table: seq<Slot>)
    requires UsedCount(table) < |table|
    ensures exists i :: 0 <= i < |table| && table[i] == Vacant
  {
    var n := |table| - 1;
    if table[n].Used? {
      SomeVacant(table[..n]);
      var i :| 0 <= i < n && table[..n][i] == Vacant;
      assert table[i] == Vacant;
    }
  }

  lemma {:induction false} UsedAfterSet(table: seq<Slot>, i: nat, e: Entry)
    requires i < |table|
    ensures UsedCount(table[i := Used(e)]) == UsedCount(table) + if table[i].Used? then 0 else 1
  {
    var n := |table| - 1;
    var set_ := table[i := Used(e)];
    if i < n {
      assert set_[..n] == table[..n][i := Used(e)];
      UsedAfterSet(table[..n], i, e);
    } else {
      assert set_[..n] == table[..n];
    }
  }

  lemma {:induction false} UsedPrefix(table: seq<Slot>, n: nat)
    requires n < |table|
    ensures UsedCount(table[..n + 1]) == UsedCount(table[..n]) + if table[n].Used? then 1 else 0
  {
    assert table[..n + 1][..n] == table[..n];
  }

  lemma {:induction false} NoneUsed(table: seq<Slot>)
    requires forall i :: 0 <= i < |table| ==> table[i] == Vacant
    ensures UsedCount(table) == 0
  {
    if table != [] {
      NoneUsed(table[..|table| - 1]);
    }
  }

  lemma {:induction false} UsedMonotone(table: seq<Slot>, n: nat)
    requires n <= |table|
    ensures UsedCount(table[..n]) <= UsedCount(table)
    decreases |table| - n
  {
    if n < |table| {
      UsedPrefix(table, n);
      UsedMonotone(table, n + 1);
    } else {
      assert table[..n] == table;
    }
  }

  predicate Matches(e: Entry, hash: nat, part: seq<Byte>, keys: seq<Byte>) {
    e.hash == hash && e.size == |part| && e.start + e.size <= |keys| && keys[e.start..e.start + e.size] == part
  }

  // ---------------------------------------------------------------- probing

  /** The slot a probe for `hash` looks at after `d` steps. */
  function Probe(hash: nat, d: nat, size: nat): (pos: nat)
    requires 0 < size
    ensures pos < size
  {
    (hash + d) % size
  }

  lemma ProbeNext(hash: nat, d: nat, size: nat)
    requires 0 < size
    ensures Probe(hash, d + 1, size) == (Probe(hash, d, size) + 1) % size
  {
    var x := hash + d;
    var q, r := x / size, x % size;
    if r + 1 < size {
      DivideUnique(x + 1, size, q, r + 1);
      DivideUnique(r + 1, size, 0, r + 1);
    } else {
      assert (q + 1) * size == q * size + size;
      DivideUnique(x + 1, size, q + 1, 0);
      DivideUnique(r + 1, size, 1, 0);
    }
  }

  /** Probing gets to every slot. */
  lemma ProbeReaches(hash: nat, pos: nat, size: nat) returns (d: nat)
    requires pos < size
    ensures d < size && Probe(hash, d, size) == pos
  {
    var q, r := hash / size, hash % size;
    if r <= pos {
      d := pos - r;
      DivideUnique(hash + d, size, q, pos);
    } else {
      d := size - r + pos;
      assert (q + 1) * size == q * size + size;
      DivideUnique(hash + d, size, q + 1, pos);
    }
  }

  /** A probe goes on from a slot in use whose part is another one. */
  predicate StepsOver(slot: Slot, hash: nat, part: seq<Byte>, keys: seq<Byte>) {
    slot.Used? && !Matches(slot.entry, hash, part, keys)
  }

  /** The first `d` slots of the probe are stepped over. */
  ghost predicate Passes(table: seq<Slot>, hash: nat, part: seq<Byte>, keys: seq<Byte>, d: nat)
    requires table != []
  {
    forall e: nat :: e < d ==> StepsOver(table[Probe(hash, e, |table|)], hash, part, keys)
  }

  /** A probe for the part ends at a slot that holds an equal one. */
  ghost predicate Found(table: seq<Slot>, hash: nat, part: seq<Byte>, keys: seq<Byte>)
    requires table != []
  {
    exists d: nat :: FoundAfter(table, hash, part, keys, d)
  }

  ghost predicate FoundAfter(table: seq<Slot>, hash: nat, part: seq<Byte>, keys: seq<Byte>, d: nat)
    requires table != []
  {
    && Passes(table, hash, part, keys, d)
    && table[Probe(hash, d, |table|)].Used? && Matches(table[Probe(hash, d, |table|)].entry, hash, part, keys)
  }

  /** A probe that ends at a vacant slot has not found the part. */
  lemma NotFound(table: seq<Slot>, hash: nat, part: seq<Byte>, keys: seq<Byte>, d: nat)
    requires table != [] && Passes(table, hash, part, keys, d) && table[Probe(hash, d, |table|)] == Vacant
    ensures !Found(table, hash, part, keys)
  {
    forall e: nat
      ensures !FoundAfter(table, hash, part, keys, e)
    {
      if e < d {
        assert StepsOver(table[Probe(hash, e, |table|)], hash, part, keys);
      }
    }
  }

  /** The slot of an equal key part, or a vacant slot: the first of either on the way of the probe. */
  method Search(table: seq<Slot>, hash: nat, part: seq<Byte>, keys: seq<Byte>) returns (pos: nat, ghost d: nat)
    requires UsedCount(table) < |table|
    ensures pos == Probe(hash, d, |table|) && Passes(table, hash, part, keys, d)
    ensures !StepsOver(table[pos], hash, part, keys) && (table[pos].Used? <==> Found(table, hash, part, keys))
  {
    SomeVacant(table);
    ghost var vacant :| 0 <= vacant < |table| && table[vacant] == Vacant;
    ghost var last := ProbeReaches(hash, vacant, |table|);
    pos, d := hash % |table|, 0;
    while table[pos].Used? && !Matches(table[pos].entry, hash, part, keys)
      invariant pos == Probe(hash, d, |table|) && Passes(table, hash, part, keys, d) && d <= last
      decreases last - d
    {
      ProbeNext(hash, d, |table|);
      pos := (pos + 1) % |table|;
      d := d + 1;
    }
    if table[pos].Used? {
      assert FoundAfter(table, hash, part, keys, d);
    } else {
      NotFound(table, hash, part, keys, d);
    }
  }

  /** The first vacant slot on the way of the probe. */
  method FindPlace(table: seq<Slot>, hash: nat) returns (pos: nat)
    requires UsedCount(table) < |table|
    ensures pos < |table| && table[pos] == Vacant && Reached(table, hash, pos)
  {
    SomeVacant(table);
    ghost var vacant :| 0 <= vacant < |table| && table[vacant] == Vacant;
    ghost var last := ProbeReaches(hash, vacant, |table|);
    pos := hash % |table|;
    ghost var d := 0;
    while table[pos].Used?
      invariant pos == Probe(hash, d, |table|) && Busy(table, hash, d) && d <= last
      decreases last - d
    {
      ProbeNext(hash, d, |table|);
      pos := (pos + 1) % |table|;
      d := d + 1;
    }
    assert ReachedAfter(table, hash, pos, d);
  }

  // ---------------------------------------------------------------- entries where their probes get to

  /** The first `d` slots of the probe are in use. */
  ghost predicate Busy(table: seq<Slot>, hash: nat, d: nat)
    requires table != []
  {
    forall e: nat :: e < d ==> table[Probe(hash, e, |table|)].Used?
  }

  ghost predicate ReachedAfter(table: seq<Slot>, hash: nat, pos: nat, d: nat)
    requires table != []
  {
    Busy(table, hash, d) && Probe(hash, d, |table|) == pos
  }

  /** A probe gets to the slot without meeting a vacant one. */
  ghost predicate Reached(table: seq<Slot>, hash: nat, pos: nat)
    requires table != []
  {
    exists d: nat :: ReachedAfter(table, hash, pos, d)
  }

  /** The slots whose entries are not where a probe for them gets to. */
  ghost function Misplaced(table: seq<Slot>): set<nat> {
    set i | 0 <= i < |table| && table[i].Used? && !Reached(table, table[i].entry.hash, i)
  }

  /** Every entry is where a probe for it gets to. */
  ghost predicate Orderly(table: seq<Slot>) {
    Misplaced(table) == {}
  }

  lemma {:induction false} FirstStop(table: seq<Slot>, hash: nat, part: seq<Byte>, keys: seq<Byte>, d: nat)
    requires table != [] && Busy(table, hash, d) && !StepsOver(table[Probe(hash, d, |table|)], hash, part, keys)
    requires table[Probe(hash, d, |table|)].Used?
    ensures Found(table, hash, part, keys)
    decreases d
  {
    if Passes(table, hash, part, keys, d) {
      assert FoundAfter(table, hash, part, keys, d);
    } else {
      var e: nat :| e < d && !StepsOver(table[Probe(hash, e, |table|)], hash, part, keys);
      FirstStop(table, hash, part, keys, e);
    }
  }

  /** In an orderly table a part that is there is found. */
  lemma ThereIsFound(table: seq<Slot>, hash: nat, part: seq<Byte>, keys: seq<Byte>, i: nat)
    requires i < |table| && Orderly(table) && table[i].Used? && Matches(table[i].entry, hash, part, keys)
    ensures Found(table, hash, part, keys)
  {
    assert i !in Misplaced(table);
    var d: nat :| ReachedAfter(table, hash, i, d);
    FirstStop(table, hash, part, keys, d);
  }

  /** An entry put into a slot its own probe gets to keeps the table orderly. */
  lemma SetOrderly(table: seq<Slot>, pos: nat, e: Entry)
    requires pos < |table| && Orderly(table) && table[pos] == Vacant && Reached(table, e.hash, pos)
    ensures Orderly(table[pos := Used(e)])
  {
    var after := table[pos := Used(e)];
    forall i | 0 <= i < |after| && after[i].Used?
      ensures Reached(after, after[i].entry.hash, i)
    {
      var h := after[i].entry.hash;
      assert i !in Misplaced(table);
      var d: nat :| ReachedAfter(table, h, i, d);
      assert ReachedAfter(after, h, i, d);
    }
  }

  lemma PassedReached(table: seq<Slot>, hash: nat, part: seq<Byte>, keys: seq<Byte>, d: nat)
    requires table != [] && Passes(table, hash, part, keys, d)
    ensures Reached(table, hash, Probe(hash, d, |table|))
  {
    forall e: nat | e < d
      ensures table[Probe(hash, e, |table|)].Used?
    {
      assert StepsOver(table[Probe(hash, e, |table|)], hash, part, keys);
    }
    assert ReachedAfter(table, hash, Probe(hash, d, |table|), d);
  }

  /** A slot found before the table was resized: in the new table the part is found there just if its probe gets to
      that slot, or it would have been found anyway. */
  lemma StaleSlot(table: seq<Slot>, pos: nat, e: Entry, part: seq<Byte>, keys: seq<Byte>)
    requires pos < |table| && table[pos] == Vacant && Matches(e, e.hash, part, keys)
    requires !Found(table, e.hash, part, keys)
    ensures Found(table[pos := Used(e)], e.hash, part, keys) <==> Reached(table, e.hash, pos)
  {
    var after := table[pos := Used(e)];
    if Reached(table, e.hash, pos) {
      var d: nat :| ReachedAfter(table, e.hash, pos, d);
      assert Busy(after, e.hash, d);
      FirstStop(after, e.hash, part, keys, d);
    }
    if d: nat :| FoundAfter(after, e.hash, part, keys, d) {
      StaleFound(table, pos, e, part, keys, d);
    }
  }

  lemma StaleFound(table: seq<Slot>, pos: nat, e: Entry, part: seq<Byte>, keys: seq<Byte>, d: nat)
    requires pos < |table| && table[pos] == Vacant && Matches(e, e.hash, part, keys)
    requires FoundAfter(table[pos := Used(e)], e.hash, part, keys, d) && !Found(table, e.hash, part, keys)
    ensures Reached(table, e.hash, pos)
  {
    var after := table[pos := Used(e)];
    assert Passes(table, e.hash, part, keys, d) by {
      forall k: nat | k < d
        ensures StepsOver(table[Probe(e.hash, k, |table|)], e.hash, part, keys)
      {
        assert StepsOver(after[Probe(e.hash, k, |table|)], e.hash, part, keys);
      }
    }
    if Probe(e.hash, d, |table|) != pos {
      assert FoundAfter(table, e.hash, part, keys, d);
      assert false;
    }
    PassedReached(table, e.hash, part, keys, d);
  }

  ghost function Entries(table: seq<Slot>): set<Entry> {
    set i | 0 <= i < |table| && table[i].Used? :: table[i].entry
  }

  /** A table of twice the size with the same entries. */
  method Resize(table: seq<Slot>) returns (bigger: seq<Slot>)
    requires table != []
    ensures |bigger| == 2 * |table| && UsedCount(bigger) == UsedCount(table)
    ensures Entries(bigger) == Entries(table) && Orderly(bigger)
  {
    bigger := seq(2 * |table|, _ => Vacant);
    NoneUsed(bigger);
    for i := 0 to |table|
      invariant |bigger| == 2 * |table| && UsedCount(bigger) == UsedCount(table[..i])
      invariant Entries(bigger) == Entries(table[..i]) && Orderly(bigger)
    {
      UsedPrefix(table, i);
      UsedMonotone(table, i);
      EntriesPrefix(table, i);
      if table[i].Used? {
        var pos := FindPlace(bigger, table[i].entry.hash);
        UsedAfterSet(bigger, pos, table[i].entry);
        EntriesAfterSet(bigger, pos, table[i].entry);
        SetOrderly(bigger, pos, table[i].entry);
        bigger := bigger[pos := Used(table[i].entry)];
      }
    }
    assert table[..|table|] == table;
  }

  lemma EntriesPrefix(table: seq<Slot>, n: nat)
    requires n < |table|
    ensures Entries(table[..n + 1]) == Entries(table[..n]) + if table[n].Used? then {table[n].entry} else {}
  {
    assert table[..n + 1] == table[..n] + [table[n]];
  }

  lemma EntriesAfterSet(table: seq<Slot>, pos: nat, e: Entry)
    requires pos < |table|
    ensures Entries(table[pos := Used(e)]) <= Entries(table) + {e}
    ensures table[pos] == Vacant ==> Entries(table[pos := Used(e)]) == Entries(table) + {e}
  {
    var after := table[pos := Used(e)];
    forall x | x in Entries(table) && table[pos] == Vacant
      ensures x in Entries(after)
    {
      var i :| 0 <= i < |table| && table[i].Used? && table[i].entry == x;
      assert after[i] == table[i];
    }
    assert after[pos] == Used(e);
  }
}
