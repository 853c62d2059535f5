/** Equal key parts written once: what the key area of a page holds, and what the tracker knows of it. */
module PartSharing {
  import opened Machine
  import opened Leb128
  import opened KeyTracker

  type Part = seq<Byte>

  /** Each part where it is used first. */
  ghost function FirstUses(parts: seq<Part>): seq<Part> {
    if parts == [] then []
    else
      var front, last := parts[..|parts| - 1], parts[|parts| - 1];
      if last in front then FirstUses(front) else FirstUses(front) + [last]
  }

  /** The bytes of these parts, one behind the other. */
  ghost function Area(parts: seq<Part>): seq<Byte> {
    if parts == [] then []
    else Area(parts[..|parts| - 1]) + (Leb(|parts[|parts| - 1]|) + parts[|parts| - 1])
  }

  lemma AreaNext(parts: seq<Part>, part: Part)
    ensures Area(parts + [part]) == Area(parts) + (Leb(|part|) + part)
  {
    assert (parts + [part])[..|parts|] == parts;
  }

  lemma FirstUsesNext(parts: seq<Part>, part: Part)
    ensures FirstUses(parts + [part]) == if part in parts then FirstUses(parts) else FirstUses(parts) + [part]
  {
    assert (parts + [part])[..|parts|] == parts;
  }

  /** Slot `i` is the entry of part `p`. */
  ghost predicate Holds(table: seq<Slot>, keys: seq<Byte>, hash: Part -> nat, i: nat, p: Part) {
    i < |table| && table[i].Used? && Matches(table[i].entry, hash(p), p, keys)
  }

  ghost predicate Tracked(table: seq<Slot>, keys: seq<Byte>, hash: Part -> nat, p: Part) {
    exists i: nat :: Holds(table, keys, hash, i, p)
  }

  ghost predicate KnownSlot(table: seq<Slot>, keys: seq<Byte>, hash: Part -> nat, parts: seq<Part>, i: nat) {
    exists p :: p in parts && Holds(table, keys, hash, i, p)
  }

  ghost function Untracked(table: seq<Slot>, keys: seq<Byte>, hash: Part -> nat, parts: seq<Part>): set<Part> {
    set p | p in parts && !Tracked(table, keys, hash, p)
  }

  ghost function Strangers(table: seq<Slot>, keys: seq<Byte>, hash: Part -> nat, parts: seq<Part>): set<nat> {
    set i | 0 <= i < |table| && table[i].Used? && !KnownSlot(table, keys, hash, parts, i)
  }

  /** The tracker knows these parts and no others, and finds them. */
  ghost predicate Knows(table: seq<Slot>, keys: seq<Byte>, hash: Part -> nat, parts: seq<Part>, count: nat) {
    && table != [] && Orderly(table) && count == |FirstUses(parts)|
    && Untracked(table, keys, hash, parts) == {} && Strangers(table, keys, hash, parts) == {}
  }

  lemma KnowsNothing(table: seq<Slot>, keys: seq<Byte>, hash: Part -> nat)
    requires table != [] && Entries(table) == {} && UsedCount(table) == 0
    ensures Knows(table, keys, hash, [], 0)
  {
    NoEntries(table);
  }

  lemma NoEntries(table: seq<Slot>)
    requires Entries(table) == {}
    ensures forall i :: 0 <= i < |table| ==> table[i] == Vacant
  {
    forall i: nat | i < |table|
      ensures table[i].Used? ==> table[i].entry in Entries(table)
    {
      EntryThere(table, i);
    }
  }

  lemma EntryThere(table: seq<Slot>, i: nat)
    requires i < |table|
    ensures table[i].Used? ==> table[i].entry in Entries(table)
  {
  }

  /** A part is found just if it has been written. */
  lemma FoundIsWritten(table: seq<Slot>, keys: seq<Byte>, hash: Part -> nat, parts: seq<Part>, count: nat, part: Part)
    requires Knows(table, keys, hash, parts, count)
    ensures Found(table, hash(part), part, keys) <==> part in parts
  {
    if part in parts {
      assert part !in Untracked(table, keys, hash, parts);
      var i: nat :| Holds(table, keys, hash, i, part);
      ThereIsFound(table, hash(part), part, keys, i);
    }
    if d: nat :| FoundAfter(table, hash(part), part, keys, d) {
      var i := Probe(hash(part), d, |table|);
      assert i !in Strangers(table, keys, hash, parts);
      var p :| p in parts && Holds(table, keys, hash, i, p);
      assert p == part;
    }
  }

  lemma HoldsGrown(table: seq<Slot>, keys: seq<Byte>, more: seq<Byte>, hash: Part -> nat, i: nat, p: Part)
    requires Holds(table, keys, hash, i, p)
    ensures Holds(table, keys + more, hash, i, p)
  {
  }

  /** A new part, written behind the others and entered in a vacant slot that its probe gets to. */
  lemma KnowsMore(table: seq<Slot>, keys: seq<Byte>, more: seq<Byte>, hash: Part -> nat, parts: seq<Part>, count: nat,
                  part: Part, pos: nat, e: Entry)
    requires Knows(table, keys, hash, parts, count) && part !in parts
    requires pos < |table| && table[pos] == Vacant && Reached(table, e.hash, pos)
    requires e.hash == hash(part) && Matches(e, e.hash, part, keys + more)
    ensures Knows(table[pos := Used(e)], keys + more, hash, parts + [part], count + 1)
  {
    var after, all, longer := table[pos := Used(e)], keys + more, parts + [part];
    SetOrderly(table, pos, e);
    FirstUsesNext(parts, part);
    assert Holds(after, all, hash, pos, part);
    forall p | p in longer
      ensures Tracked(after, all, hash, p)
    {
      if p in parts {
        assert p !in Untracked(table, keys, hash, parts);
        var i: nat :| Holds(table, keys, hash, i, p);
        HoldsGrown(table, keys, more, hash, i, p);
        assert Holds(after, all, hash, i, p);
      }
    }
    forall i: nat | i < |after| && after[i].Used?
      ensures KnownSlot(after, all, hash, longer, i)
    {
      if i == pos {
        assert part in longer;
      } else {
        assert i !in Strangers(table, keys, hash, parts);
        var p :| p in parts && Holds(table, keys, hash, i, p);
        HoldsGrown(table, keys, more, hash, i, p);
        assert p in longer && Holds(after, all, hash, i, p);
      }
    }
  }

  lemma KnowsAgain(table: seq<Slot>, keys: seq<Byte>, hash: Part -> nat, parts: seq<Part>, count: nat, part: Part)
    requires Knows(table, keys, hash, parts, count) && part in parts
    ensures Knows(table, keys, hash, parts + [part], count) && FirstUses(parts + [part]) == FirstUses(parts)
  {
    FirstUsesNext(parts, part);
    forall p | p in parts + [part]
      ensures Tracked(table, keys, hash, p)
    {
      assert p in parts && p !in Untracked(table, keys, hash, parts);
    }
    forall i: nat | i < |table| && table[i].Used?
      ensures KnownSlot(table, keys, hash, parts + [part], i)
    {
      assert i !in Strangers(table, keys, hash, parts);
      var p :| p in parts && Holds(table, keys, hash, i, p);
      assert p in parts + [part];
    }
  }
}
