/** The page builder: records appended to growing buffers, equal key parts written once. */
module PageBuild {
  import opened Machine
  import opened Leb128
  import opened PageFormat
  import opened KeyTracker
  import opened PartSharing
  import opened Sequences

  /** The slots the tracker starts with. */
  const TRACKER_SIZE: nat := 32768

  // ---------------------------------------------------------------- what the buffers hold

  ghost predicate Stored(values: seq<Byte>, vBase: nat, keys: seq<Byte>, kBase: nat, meta: Meta, rec: Rec,
        offsets: seq<nat>) {
    && At(values, vBase + meta.offset, RecBytes(rec, offsets))
    && PartsAt(keys, kBase, offsets, rec.parts)
    && meta.flags == rec.flags
  }

  /** Every record is stored; the newest is looked at first. */
  ghost predicate AllStored(values: seq<Byte>, vBase: nat, keys: seq<Byte>, kBase: nat,
                            metas: seq<Meta>, records: seq<Rec>, offsets: seq<seq<nat>>)
    decreases |records|
  {
    && |metas| == |records| == |offsets|
    && (records != [] ==>
          var n := |records| - 1;
          && AllStored(values, vBase, keys, kBase, metas[..n], records[..n], offsets[..n])
          && Stored(values, vBase, keys, kBase, metas[n], records[n], offsets[n]))
  }

  lemma StoredGrow(values: seq<Byte>, moreValues: seq<Byte>, vBase: nat, keys: seq<Byte>, moreKeys: seq<Byte>,
                   kBase: nat, meta: Meta, rec: Rec, refs: seq<nat>)
    requires Stored(values, vBase, keys, kBase, meta, rec, refs)
    ensures Stored(values + moreValues, vBase, keys + moreKeys, kBase, meta, rec, refs)
  {
  }

  lemma {:induction false} AllStoredGrow(values: seq<Byte>, moreValues: seq<Byte>, vBase: nat, keys: seq<Byte>,
                                         moreKeys: seq<Byte>, kBase: nat, metas: seq<Meta>, records: seq<Rec>,
                                         offsets: seq<seq<nat>>)
    requires AllStored(values, vBase, keys, kBase, metas, records, offsets)
    ensures AllStored(values + moreValues, vBase, keys + moreKeys, kBase, metas, records, offsets)
    decreases |records|
  {
    if records != [] {
      var n := |records| - 1;
      AllStoredGrow(values, moreValues, vBase, keys, moreKeys, kBase, metas[..n], records[..n], offsets[..n]);
      StoredGrow(values, moreValues, vBase, keys, moreKeys, kBase, metas[n], records[n], offsets[n]);
    }
  }

  lemma {:induction false} StoredAt(values: seq<Byte>, vBase: nat, keys: seq<Byte>, kBase: nat, metas: seq<Meta>,
                                    records: seq<Rec>, offsets: seq<seq<nat>>, i: nat)
    requires AllStored(values, vBase, keys, kBase, metas, records, offsets) && i < |records|
    ensures |metas| == |records| == |offsets| && Stored(values, vBase, keys, kBase, metas[i], records[i], offsets[i])
    decreases |records|
  {
    var n := |records| - 1;
    if i < n {
      StoredAt(values, vBase, keys, kBase, metas[..n], records[..n], offsets[..n], i);
    }
  }

  lemma AllStoredNext(values: seq<Byte>, vBase: nat, keys: seq<Byte>, more: seq<Byte>, kBase: nat,
                      metas: seq<Meta>, records: seq<Rec>, offsets: seq<seq<nat>>, rec: Rec, refs: seq<nat>,
                      values': seq<Byte>, keys': seq<Byte>, metas': seq<Meta>)
    requires AllStored(values, vBase, keys, kBase, metas, records, offsets) && vBase <= |values|
    requires values' == values + RecBytes(rec, refs) && keys' == keys + more
    requires metas' == metas + [Meta(|values| - vBase, rec.flags)] && PartsAt(keys', kBase, refs, rec.parts)
    ensures AllStored(values', vBase, keys', kBase, metas', records + [rec], offsets + [refs])
  {
    AllStoredGrow(values, RecBytes(rec, refs), vBase, keys, more, kBase, metas, records, offsets);
    AtEnd(values, RecBytes(rec, refs));
    var n := |records|;
    assert metas'[..n] == metas && (records + [rec])[..n] == records;
    assert (offsets + [refs])[..n] == offsets;
  }

  /** A tracked part is where its entry says. */
  ghost predicate EntryValid(keys: seq<Byte>, kBase: nat, e: Entry) {
    && e.start == kBase + e.offset + |Leb(e.size)|
    && e.start + e.size <= |keys|
    && At(keys, kBase + e.offset, Leb(e.size))
  }

  ghost predicate TableValid(keys: seq<Byte>, kBase: nat, table: seq<Slot>, count: nat) {
    && 4 <= |table| && count == UsedCount(table) <= |table| / 2 + 1
    && BadEntries(keys, kBase, table) == {}
  }

  /** The entries that lead astray. */
  ghost function BadEntries(keys: seq<Byte>, kBase: nat, table: seq<Slot>): set<Entry> {
    set e | e in Entries(table) && !EntryValid(keys, kBase, e)
  }

  lemma EntryGood(keys: seq<Byte>, kBase: nat, table: seq<Slot>, pos: nat)
    requires BadEntries(keys, kBase, table) == {} && pos < |table| && table[pos].Used?
    ensures EntryValid(keys, kBase, table[pos].entry)
  {
    var e := table[pos].entry;
    assert e in Entries(table) && e !in BadEntries(keys, kBase, table);
  }

  lemma TableGrows(keys: seq<Byte>, more: seq<Byte>, kBase: nat, table: seq<Slot>, count: nat)
    requires TableValid(keys, kBase, table, count)
    ensures TableValid(keys + more, kBase, table, count)
  {
  }

  /** An entry whose bytes match refers to the part itself. */
  lemma MatchIsPart(keys: seq<Byte>, kBase: nat, e: Entry, hash: nat, part: seq<Byte>)
    requires EntryValid(keys, kBase, e) && Matches(e, hash, part, keys)
    ensures PartAt(keys, kBase, e.offset, part)
  {
  }

  lemma AppendedPart(keys: seq<Byte>, kBase: nat, part: seq<Byte>)
    requires kBase <= |keys|
    ensures PartAt(keys + (Leb(|part|) + part), kBase, |keys| - kBase, part)
    ensures EntryValid(keys + (Leb(|part|) + part), kBase,
                       Entry(0, |keys| - kBase, |keys| + |Leb(|part|)|, |part|))
  {
  }

  /** Setting any slot to a valid entry, even one found before a resize, keeps the table valid. */
  lemma TableSet(keys: seq<Byte>, kBase: nat, table: seq<Slot>, pos: nat, e: Entry)
    requires TableValid(keys, kBase, table, UsedCount(table)) && pos < |table| && EntryValid(keys, kBase, e)
    requires UsedCount(table) <= |table| / 2
    ensures UsedCount(table[pos := Used(e)]) == UsedCount(table) + if table[pos].Used? then 0 else 1
    ensures TableValid(keys, kBase, table[pos := Used(e)], UsedCount(table[pos := Used(e)]))
  {
    UsedAfterSet(table, pos, e);
    EntriesAfterSet(table, pos, e);
  }

  /** Remember a part in slot `pos`, in a table of twice the size if the table is full. */
  method Track(keys: seq<Byte>, ghost kBase: nat, table: seq<Slot>, count: nat, pos: nat, e: Entry)
      returns (table': seq<Slot>, count': nat)
    requires TableValid(keys, kBase, table, count) && pos < |table| && EntryValid(keys, kBase, e)
    ensures TableValid(keys, kBase, table', count') && |table| <= |table'|
    ensures count <= |table| / 2 && table[pos] == Vacant ==> table' == table[pos := Used(e)] && count' == count + 1
  {
    table' := table;
    if count > |table| / 2 {
      table' := Resize(table);
    }
    TableSet(keys, kBase, table', pos, e);
    count' := if table'[pos] == Vacant then count + 1 else count;
    table' := table'[pos := Used(e)];
  }

  /** What the key area of the page holds: all parts, or each part once as long as the tracker need not grow. */
  ghost predicate FrugalArea(keys: seq<Byte>, kBase: nat, parts: seq<Part>, dedup: bool, table: seq<Slot>, count: nat,
                             hash: Part -> nat) {
    && kBase <= |keys|
    && (!dedup ==> keys[kBase..] == Area(parts))
    && (dedup && |FirstUses(parts)| <= TRACKER_SIZE / 2 + 1 ==>
          keys[kBase..] == Area(FirstUses(parts)) && Knows(table, keys, hash, parts, count))
  }

  /** Nothing is wasted if the key area is as it should be. */
  ghost function Waste(keys: seq<Byte>, kBase: nat, parts: seq<Part>, dedup: bool, table: seq<Slot>, count: nat,
                       hash: Part -> nat): nat {
    if FrugalArea(keys, kBase, parts, dedup, table, count, hash) then 0 else 1
  }

  class Builder {
    const dedup: bool
    const hash: seq<Byte> -> nat
    var metas: seq<Meta>
    var values: seq<Byte>
    var keys: seq<Byte>
    var vBase: nat
    var kBase: nat
    var table: seq<Slot>
    var count: nat
    ghost var records: seq<Rec>
    ghost var offsets: seq<seq<nat>>
    ghost var parts: seq<Part>

    ghost predicate Shaped()
      reads this
    {
      && vBase <= |values| && kBase <= |keys|
      && (dedup ==> TableValid(keys, kBase, table, count) && TRACKER_SIZE <= |table|)
    }

    ghost predicate Frugal()
      reads this
    {
      Waste(keys, kBase, parts, dedup, table, count, hash) == 0
    }

    ghost predicate Valid()
      reads this
    {
      && Shaped() && Frugal() && parts == AllParts(records)
      && AllStored(values, vBase, keys, kBase, metas, records, offsets)
    }

    constructor (dedup: bool, hash: seq<Byte> -> nat)
      ensures Valid() && this.dedup == dedup && records == [] && (dedup ==> Entries(table) == {})
    {
      this.dedup, this.hash := dedup, hash;
      metas, values, keys, vBase, kBase, count, records, offsets, parts := [], [], [], 0, 0, 0, [], [], [];
      var vacant := seq(if dedup then TRACKER_SIZE else 0, _ => Vacant);
      NoneUsed(vacant);
      if dedup {
        KnowsNothing(vacant, [], hash);
      }
      table := vacant;
    }

    /** Write one key part, or refer to an equal one that the tracker finds. */
    method AddPart(part: seq<Byte>) returns (offset: nat, ghost more: seq<Byte>)
      requires Shaped() && Frugal()
      modifies this`values, this`keys, this`table, this`count, this`parts
      ensures Shaped() && Frugal() && parts == old(parts) + [part]
      ensures keys == old(keys) + more && values == old(values) + Leb(offset)
      ensures PartAt(keys, kBase, offset, part)
      ensures more == if dedup && Found(old(table), hash(part), part, old(keys)) then [] else Leb(|part|) + part
      ensures more != [] ==> offset == old(|keys|) - kBase
    {
      var start := |keys|;
      offset := start - kBase;
      var h, pos := 0, 0;
      ghost var d := 0;
      more := [];
      if dedup {
        h := hash(part);
        pos, d := Search(table, h, part, keys);
        if table[pos].Used? {
          var e := table[pos].entry;
          EntryGood(keys, kBase, table, pos);
          MatchIsPart(keys, kBase, e, h, part);
          offset := e.offset;
          var b := Write(offset);
          values := values + b;
          FrugalAgain(keys, kBase, parts, table, count, hash, part);
          parts := parts + [part];
          assert keys + [] == keys;
          return;
        }
      }
      var b := Write(offset);
      values := values + b;
      var size := Write(|part|);
      more := size + part;
      AppendedPart(keys, kBase, part);
      AppendPart(part, h, pos, d, offset, size);
    }

    /** Append a part that was not found, and remember it. */
    method AppendPart(part: seq<Byte>, h: nat, pos: nat, ghost d: nat, offset: nat, size: seq<Byte>)
      requires Shaped() && Frugal() && offset == |keys| - kBase && size == Leb(|part|)
      requires PartAt(keys + (size + part), kBase, offset, part)
      requires dedup ==> h == hash(part) && pos == Probe(h, d, |table|) && table[pos] == Vacant
                         && Passes(table, h, part, keys, d)
      requires dedup ==> EntryValid(keys + (size + part), kBase, Entry(h, offset, |keys| + |size|, |part|))
      modifies this`keys, this`table, this`count, this`parts
      ensures Shaped() && Frugal() && parts == old(parts) + [part] && keys == old(keys) + (size + part)
    {
      ghost var before, known := keys, parts;
      var e := Entry(h, offset, |keys| + |size|, |part|);
      if dedup {
        TableGrows(keys, size + part, kBase, table, count);
      }
      keys := keys + (size + part);
      if dedup {
        table, count := Track(keys, kBase, table, count, pos, e);
      }
      parts := parts + [part];
      if dedup {
        MatchesAppended(before, size, part, e);
        FrugalMore(before, size + part, known, part, kBase, old(table), old(count), hash, pos, d, e, table, count);
      } else {
        FrugalPlain(before, size + part, kBase, known, table, count, hash, part);
      }
    }

    /** Write all key parts of a record and the list of their offsets. */
    method AddParts(key: seq<seq<Byte>>) returns (ghost refs: seq<nat>, ghost more: seq<Byte>)
      requires Shaped() && Frugal()
      modifies this`values, this`keys, this`table, this`count, this`parts
      ensures Shaped() && Frugal() && parts == old(parts) + key
      ensures keys == old(keys) + more && values == old(values) + LebAll(refs)
      ensures PartsAt(keys, kBase, refs, key)
    {
      refs, more := [], [];
      for i := 0 to |key|
        invariant Shaped() && Frugal() && parts == old(parts) + key[..i]
        invariant keys == old(keys) + more && values == old(values) + LebAll(refs)
        invariant PartsAt(keys, kBase, refs, key[..i])
      {
        ghost var before := keys;
        var offset, added := AddPart(key[i]);
        PartsSnoc(before, added, kBase, refs, key, i, offset);
        TakeNext(key, i);
        LebAllSnoc(refs, offset);
        Associate(old(values), LebAll(refs), Leb(offset));
        Associate(old(keys), more, added);
        refs, more := refs + [offset], more + added;
      }
      assert key[..|key|] == key;
    }

    /** The size and the lsn of a record. */
    method AddHead(rec: Rec)
      requires Shaped() && Frugal()
      modifies this`values
      ensures Shaped() && Frugal()
      ensures values == old(values) + (Leb(KeySize(rec.parts) + |rec.value|) + Leb(rec.lsn))
    {
      var keySize := SumSizes(rec.parts);
      var size := Write(keySize + |rec.value|);
      var lsn := Write(rec.lsn);
      values := values + size;
      values := values + lsn;
      Associate(old(values), size, lsn);
    }

    /** Write the bytes of a record. */
    method AddBytes(rec: Rec) returns (ghost refs: seq<nat>, ghost more: seq<Byte>)
      requires Shaped() && Frugal()
      modifies this`values, this`keys, this`table, this`count, this`parts
      ensures Shaped() && Frugal() && parts == old(parts) + rec.parts
      ensures keys == old(keys) + more && values == old(values) + RecBytes(rec, refs)
      ensures PartsAt(keys, kBase, refs, rec.parts)
    {
      ghost var before := values;
      AddHead(rec);
      ghost var head := values;
      refs, more := AddParts(rec.parts);
      values := values + rec.value;
      RecordAppended(before, head, rec, refs, values);
    }

    /** Append a record. */
    method Add(rec: Rec)
      requires Valid()
      modifies this`metas, this`values, this`keys, this`table, this`count, this`records, this`offsets, this`parts
      ensures Valid() && records == old(records) + [rec]
    {
      metas := metas + [Meta(|values| - vBase, rec.flags)];
      var refs, more := AddBytes(rec);
      AllStoredNext(old(values), vBase, old(keys), more, kBase, old(metas), records, offsets, rec, refs, values, keys,
                    metas);
      NoteRecord(rec, refs);
    }

    /** The record counts as added. */
    ghost method NoteRecord(rec: Rec, refs: seq<nat>)
      requires Shaped() && Frugal() && parts == AllParts(records) + rec.parts
      requires AllStored(values, vBase, keys, kBase, metas, records + [rec], offsets + [refs])
      modifies this`records, this`offsets
      ensures Valid() && records == old(records) + [rec]
    {
      AllPartsNext(records, rec);
      records, offsets := records + [rec], offsets + [refs];
    }

    /** Start a page behind what the buffers hold. */
    method Begin()
      requires Shaped() && (dedup ==> Entries(table) == {})
      modifies this`metas, this`vBase, this`kBase, this`records, this`offsets, this`parts
      ensures Valid() && records == []
    {
      metas, vBase, kBase, records, offsets, parts := [], |values|, |keys|, [], [], [];
      if dedup {
        NoEntries(table);
        NoneUsed(table);
        KnowsNothing(table, keys, hash);
      }
    }

    /** The finished page. */
    method End() returns (page: Page)
      requires Valid()
      ensures |page.metas| == |records|
      ensures forall i :: 0 <= i < |records| ==> Readable(page, i, records[i])
      ensures KeyArea(page) == Area(AllParts(records)) || dedup
      ensures dedup && |FirstUses(AllParts(records))| <= 16385 ==>
                KeyArea(page) == Area(FirstUses(AllParts(records)))
    {
      var v, k := values[vBase..], keys[kBase..];
      page := Page(metas, v + k, SIZE_META * |metas| + |v| + |k|, |k|);
      StoredReadable(values, vBase, keys, kBase, metas, records, offsets, page);
    }

    /** Forget the tracked parts; with compression the buffers are emptied as well. */
    method Commit(compress: bool)
      requires Shaped()
      modifies this`values, this`keys, this`vBase, this`kBase, this`table, this`count
      ensures Shaped() && (dedup ==> Entries(table) == {})
    {
      if dedup {
        table := seq(|table|, _ => Vacant);
        count := 0;
        NoneUsed(table);
      }
      if compress {
        values, keys, vBase, kBase := [], [], 0, 0;
      }
    }
  }

  /** The key parts of all records, in order. */
  ghost function AllParts(records: seq<Rec>): seq<Part> {
    if records == [] then [] else AllParts(records[..|records| - 1]) + records[|records| - 1].parts
  }

  lemma AllPartsNext(records: seq<Rec>, rec: Rec)
    ensures AllParts(records + [rec]) == AllParts(records) + rec.parts
  {
    assert (records + [rec])[..|records|] == records;
  }

  /** The end of a page, where the key parts are. */
  ghost function KeyArea(page: Page): seq<Byte> {
    if page.sizeKeys <= |page.body| then page.body[|page.body| - page.sizeKeys..] else []
  }

  lemma MatchesAppended(keys: seq<Byte>, size: seq<Byte>, part: seq<Byte>, e: Entry)
    requires e.start == |keys| + |size| && e.size == |part|
    ensures Matches(e, e.hash, part, keys + (size + part))
  {
  }

  /** Using a part that was found wastes nothing. */
  lemma FrugalAgain(keys: seq<Byte>, kBase: nat, parts: seq<Part>, table: seq<Slot>, count: nat, hash: Part -> nat,
                    part: Part)
    requires FrugalArea(keys, kBase, parts, true, table, count, hash)
    requires table != [] && Found(table, hash(part), part, keys)
    ensures FrugalArea(keys, kBase, parts + [part], true, table, count, hash)
  {
    FirstUsesNext(parts, part);
    if |FirstUses(parts)| <= TRACKER_SIZE / 2 + 1 {
      FoundIsWritten(table, keys, hash, parts, count, part);
      KnowsAgain(table, keys, hash, parts, count, part);
    }
  }

  /** Appending a part without a tracker. */
  lemma FrugalPlain(keys: seq<Byte>, more: seq<Byte>, kBase: nat, parts: seq<Part>, table: seq<Slot>, count: nat,
                    hash: Part -> nat, part: Part)
    requires FrugalArea(keys, kBase, parts, false, table, count, hash) && more == Leb(|part|) + part
    ensures FrugalArea(keys + more, kBase, parts + [part], false, table, count, hash)
  {
    AreaGrows(keys, more, kBase, parts, part);
  }

  lemma AreaGrows(keys: seq<Byte>, more: seq<Byte>, kBase: nat, parts: seq<Part>, part: Part)
    requires kBase <= |keys| && keys[kBase..] == Area(parts) && more == Leb(|part|) + part
    ensures (keys + more)[kBase..] == Area(parts + [part])
  {
    AreaNext(parts, part);
    assert (keys + more)[kBase..] == keys[kBase..] + more;
  }

  /** Appending a part that was not found keeps the key area as it should be. */
  lemma FrugalMore(keys: seq<Byte>, more: seq<Byte>, parts: seq<Part>, part: Part, kBase: nat, table: seq<Slot>,
                   count: nat, hash: Part -> nat, pos: nat, d: nat, e: Entry, table': seq<Slot>, count': nat)
    requires FrugalArea(keys, kBase, parts, true, table, count, hash)
    requires TRACKER_SIZE <= |table| && more == Leb(|part|) + part
    requires pos == Probe(hash(part), d, |table|) && table[pos] == Vacant && Passes(table, hash(part), part, keys, d)
    requires e.hash == hash(part) && Matches(e, e.hash, part, keys + more)
    requires count <= |table| / 2 ==> table' == table[pos := Used(e)] && count' == count + 1
    ensures FrugalArea(keys + more, kBase, parts + [part], true, table', count', hash)
  {
    FirstUsesNext(parts, part);
    if |FirstUses(parts + [part])| <= TRACKER_SIZE / 2 + 1 {
      FoundIsWritten(table, keys, hash, parts, count, part);
      NotFound(table, hash(part), part, keys, d);
      PassedReached(table, hash(part), part, keys, d);
      KnowsMore(table, keys, more, hash, parts, count, part, pos, e);
      AreaGrows(keys, more, kBase, FirstUses(parts), part);
    }
  }

  /** Record `i` of a page, with the offsets its key parts have. */
  ghost predicate ReadableAt(page: Page, i: nat, rec: Rec, refs: seq<nat>)
    requires i < |page.metas|
  {
    && page.sizeOrigin == 5 * |page.metas| + |page.body| && page.sizeKeys <= |page.body|
    && At(page.body, page.metas[i].offset, RecBytes(rec, refs))
    && PartsAt(page.body, |page.body| - page.sizeKeys, refs, rec.parts)
    && page.metas[i].flags == rec.flags
  }

  ghost predicate Readable(page: Page, i: nat, rec: Rec) {
    i < |page.metas| && exists refs :: ReadableAt(page, i, rec, refs)
  }

  lemma RecordReadable(values: seq<Byte>, vBase: nat, keys: seq<Byte>, kBase: nat, metas: seq<Meta>, i: nat, rec: Rec,
                       refs: seq<nat>, page: Page)
    requires vBase <= |values| && kBase <= |keys| && i < |metas|
    requires Stored(values, vBase, keys, kBase, metas[i], rec, refs)
    requires page == PageOf(metas, values[vBase..], keys[kBase..])
    ensures ReadableAt(page, i, rec, refs)
  {
    AtInBody(values, vBase, keys[kBase..], metas[i].offset, RecBytes(rec, refs));
    PartsReadable(values[vBase..], keys, kBase, refs, rec.parts);
  }

  lemma PartsReadable(v: seq<Byte>, keys: seq<Byte>, kBase: nat, refs: seq<nat>, key: seq<seq<Byte>>)
    requires kBase <= |keys| && PartsAt(keys, kBase, refs, key)
    ensures PartsAt(v + keys[kBase..], |v|, refs, key)
  {
    forall j | 0 <= j < |key|
      ensures PartAt(v + keys[kBase..], |v|, refs[j], key[j])
    {
      AtInKeys(v, keys, kBase, refs[j], Leb(|key[j]|) + key[j]);
    }
  }

  /** A page of these metas, values and key parts. */
  function PageOf(metas: seq<Meta>, v: seq<Byte>, k: seq<Byte>): Page {
    Page(metas, v + k, SIZE_META * |metas| + |v| + |k|, |k|)
  }

  lemma StoredReadable(values: seq<Byte>, vBase: nat, keys: seq<Byte>, kBase: nat,
                       metas: seq<Meta>, records: seq<Rec>, offsets: seq<seq<nat>>, page: Page)
    requires AllStored(values, vBase, keys, kBase, metas, records, offsets) && vBase <= |values| && kBase <= |keys|
    requires page == PageOf(metas, values[vBase..], keys[kBase..])
    ensures forall i :: 0 <= i < |records| ==> Readable(page, i, records[i])
  {
    forall i | 0 <= i < |records|
      ensures Readable(page, i, records[i])
    {
      StoredAt(values, vBase, keys, kBase, metas, records, offsets, i);
      RecordReadable(values, vBase, keys, kBase, metas, i, records[i], offsets[i], page);
    }
  }

  method SumSizes(parts: seq<seq<Byte>>) returns (size: nat)
    ensures size == KeySize(parts)
  {
    size := 0;
    for i := 0 to |parts|
      invariant size == KeySize(parts[..i])
    {
      assert parts[..i + 1][..i] == parts[..i];
      size := size + |parts[i]|;
    }
    assert parts[..|parts|] == parts;
  }

  lemma PartsSnoc(keys: seq<Byte>, more: seq<Byte>, kBase: nat, refs: seq<nat>, parts: seq<seq<Byte>>, i: nat,
        offset: nat)
    requires i < |parts| && PartsAt(keys, kBase, refs, parts[..i]) && PartAt(keys + more, kBase, offset, parts[i])
    ensures PartsAt(keys + more, kBase, refs + [offset], parts[..i + 1])
  {
  }

  lemma RecordAppended(values: seq<Byte>, head: seq<Byte>, rec: Rec, refs: seq<nat>, all: seq<Byte>)
    requires head == values + (Leb(KeySize(rec.parts) + |rec.value|) + Leb(rec.lsn))
    requires all == head + LebAll(refs) + rec.value
    ensures all == values + RecBytes(rec, refs)
  {
  }
}
