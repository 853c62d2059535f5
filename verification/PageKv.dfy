/** Reading key parts and values back from a page. */
module PageKv {
  import opened Machine
  import opened Leb128
  import opened PageFormat
  import KeyTracker
  import opened PageBuild
  import opened PartSharing
  import opened Sequences

  /** Find the key part at an offset of the key area. */
  method KeyRead(page: Page, offset: nat, ghost part: seq<Byte>) returns (ptr: nat, size: nat)
    requires page.sizeOrigin == SIZE_META * |page.metas| + |page.body| && page.sizeKeys <= |page.body|
    requires PartAt(page.body, |page.body| - page.sizeKeys, offset, part)
    ensures size == |part| && At(page.body, ptr, part)
  {
    ptr := page.sizeOrigin - page.sizeKeys - SIZE_META * |page.metas| + offset;
    AtSplit(page.body, ptr, Leb(|part|), part);
    var skip;
    size, skip := Read(page.body, ptr, |part|);
    ptr := ptr + skip;
  }

  /** Where the parts of a record's bytes are. */
  lemma RecSplit(body: seq<Byte>, pos: nat, rec: Rec, refs: seq<nat>)
    requires At(body, pos, RecBytes(rec, refs))
    ensures var size := Leb(KeySize(rec.parts) + |rec.value|);
            && At(body, pos, size)
            && At(body, pos + |size|, Leb(rec.lsn))
            && At(body, pos + |size| + |Leb(rec.lsn)|, LebAll(refs[0..]) + rec.value)
  {
    assert refs[0..] == refs;
    AtSplitTwice(body, pos, Leb(KeySize(rec.parts) + |rec.value|), Leb(rec.lsn), LebAll(refs) + rec.value);
  }

  lemma AtSplitTwice(body: seq<Byte>, pos: nat, a: seq<Byte>, b: seq<Byte>, c: seq<Byte>)
    requires At(body, pos, a + (b + c))
    ensures At(body, pos, a) && At(body, pos + |a|, b) && At(body, pos + |a| + |b|, c)
  {
    AtSplit(body, pos, a, b + c);
    AtSplit(body, pos + |a|, b, c);
  }

  lemma NextOffset(body: seq<Byte>, pos: nat, refs: seq<nat>, j: nat, value: seq<Byte>)
    requires j < |refs| && At(body, pos, LebAll(refs[j..]) + value)
    ensures At(body, pos, Leb(refs[j])) && At(body, pos + |Leb(refs[j])|, LebAll(refs[j + 1..]) + value)
  {
    LebAllFrom(refs, j);
    Associate(Leb(refs[j]), LebAll(refs[j + 1..]), value);
    AtSplit(body, pos, Leb(refs[j]), LebAll(refs[j + 1..]) + value);
  }

  lemma LastOffset(body: seq<Byte>, pos: nat, refs: seq<nat>, value: seq<Byte>)
    requires At(body, pos, LebAll(refs[|refs|..]) + value)
    ensures At(body, pos, value)
  {
  }

  /** Skip the size and the lsn of a record. */
  method SkipMeta(page: Page, i: nat, ghost rec: Rec, ghost refs: seq<nat>) returns (ptr: nat)
    requires i < |page.metas| && ReadableAt(page, i, rec, refs)
    ensures At(page.body, ptr, LebAll(refs[0..]) + rec.value)
  {
    ptr := page.metas[i].offset;
    RecSplit(page.body, ptr, rec, refs);
    var a := Skip(page.body, ptr, KeySize(rec.parts) + |rec.value|);
    var b := Skip(page.body, ptr + a, rec.lsn);
    ptr := ptr + a + b;
  }

  /** The offset of key part `part` in the list of offsets at `start`. */
  method OffsetOf(body: seq<Byte>, start: nat, part: nat, ghost refs: seq<nat>,
        ghost value: seq<Byte>) returns (offset: nat)
    requires part < |refs| && At(body, start, LebAll(refs[0..]) + value)
    ensures offset == refs[part]
  {
    var ptr, current, found := start, 0, false;
    offset := 0;
    while !found
      invariant 0 <= current <= part + 1 && found == (current == part + 1)
      invariant found ==> offset == refs[part]
      invariant !found ==> At(body, ptr, LebAll(refs[current..]) + value)
      decreases part + 1 - current
    {
      NextOffset(body, ptr, refs, current, value);
      var size;
      offset, size := Read(body, ptr, refs[current]);
      ptr := ptr + size;
      found := current == part;
      current := current + 1;
    }
  }

  /** Key part `part` of record `i`. */
  method Key(page: Page, i: nat, part: nat, ghost rec: Rec, ghost refs: seq<nat>) returns (key: seq<Byte>)
    requires i < |page.metas| && ReadableAt(page, i, rec, refs) && part < |rec.parts|
    ensures key == rec.parts[part]
  {
    var ptr := SkipMeta(page, i, rec, refs);
    var offset := OffsetOf(page.body, ptr, part, refs, rec.value);
    var at, size := KeyRead(page, offset, rec.parts[part]);
    key := page.body[at..at + size];
  }

  /** The size of record `i`: all its key parts and its value. */
  method Size(page: Page, i: nat, ghost rec: Rec, ghost refs: seq<nat>) returns (size: nat)
    requires i < |page.metas| && ReadableAt(page, i, rec, refs)
    ensures size == KeySize(rec.parts) + |rec.value|
  {
    RecSplit(page.body, page.metas[i].offset, rec, refs);
    var skip;
    size, skip := Read(page.body, page.metas[i].offset, KeySize(rec.parts) + |rec.value|);
  }

  /** Read the size of key part `j`, and pass its offset. */
  method PassPart(page: Page, ptr: nat, j: nat, ghost rec: Rec, ghost refs: seq<nat>) returns (next: nat, size: nat)
    requires page.sizeOrigin == SIZE_META * |page.metas| + |page.body| && page.sizeKeys <= |page.body|
    requires PartsAt(page.body, |page.body| - page.sizeKeys, refs, rec.parts) && j < |refs|
    requires At(page.body, ptr, LebAll(refs[j..]) + rec.value)
    ensures size == |rec.parts[j]| && At(page.body, next, LebAll(refs[j + 1..]) + rec.value)
  {
    NextOffset(page.body, ptr, refs, j, rec.value);
    var offset, skip := Read(page.body, ptr, refs[j]);
    var at;
    at, size := KeyRead(page, offset, rec.parts[j]);
    next := ptr + skip;
  }

  lemma KeySizeNext(parts: seq<seq<Byte>>, j: nat)
    requires j < |parts|
    ensures KeySize(parts[..j + 1]) == KeySize(parts[..j]) + |parts[j]|
  {
    assert parts[..j + 1][..j] == parts[..j];
  }

  /** The value of record `i`: what its size leaves after the sizes of its key parts. */
  method Value(page: Page, i: nat, count: nat, ghost rec: Rec, ghost refs: seq<nat>) returns (value: seq<Byte>)
    requires i < |page.metas| && ReadableAt(page, i, rec, refs) && |rec.parts| == count
    ensures value == rec.value
  {
    var size := Size(page, i, rec, refs);
    var ptr := SkipMeta(page, i, rec, refs);
    var sizeKey := 0;
    for j := 0 to count
      invariant sizeKey == KeySize(rec.parts[..j])
      invariant At(page.body, ptr, LebAll(refs[j..]) + rec.value)
    {
      KeySizeNext(rec.parts, j);
      var partSize;
      ptr, partSize := PassPart(page, ptr, j, rec, refs);
      sizeKey := sizeKey + partSize;
    }
    assert rec.parts[..count] == rec.parts;
    LastOffset(page.body, ptr, refs, rec.value);
    value := page.body[ptr..ptr + (size - sizeKey)];
  }

  method Lsn(page: Page, i: nat, ghost rec: Rec, ghost refs: seq<nat>) returns (lsn: nat)
    requires i < |page.metas| && ReadableAt(page, i, rec, refs)
    ensures lsn == rec.lsn
  {
    var ptr := page.metas[i].offset;
    RecSplit(page.body, ptr, rec, refs);
    var a := Skip(page.body, ptr, KeySize(rec.parts) + |rec.value|);
    var b;
    lsn, b := Read(page.body, ptr + a, rec.lsn);
  }

  /** Reading record `i` back gives exactly the record that was added. */
  method ReadBack(page: Page, i: nat, count: nat, ghost rec: Rec) returns (r: Rec)
    requires Readable(page, i, rec) && |rec.parts| == count
    ensures r == rec
  {
    ghost var refs :| ReadableAt(page, i, rec, refs);
    var lsn := Lsn(page, i, rec, refs);
    var value := Value(page, i, count, rec, refs);
    var parts := [];
    for j := 0 to count
      invariant parts == rec.parts[..j]
    {
      var key := Key(page, i, j, rec, refs);
      parts := parts + [key];
    }
    r := Rec(parts, value, lsn, page.metas[i].flags);
  }

  /** A page built from any list of records holds every one of them, and each key part once as long as there are no
      more than the tracker takes without growing. */
  method Build(builder: Builder, records: seq<Rec>) returns (page: Page)
    requires builder.Shaped() && (builder.dedup ==> KeyTracker.Entries(builder.table) == {})
    modifies builder
    ensures forall i :: 0 <= i < |records| ==> Readable(page, i, records[i])
    ensures !builder.dedup ==> KeyArea(page) == Area(AllParts(records))
    ensures builder.dedup && |FirstUses(AllParts(records))| <= 16385 ==>
              KeyArea(page) == Area(FirstUses(AllParts(records)))
  {
    builder.Begin();
    for j := 0 to |records|
      invariant builder.Valid() && builder.records == records[..j]
    {
      builder.Add(records[j]);
    }
    assert records[..|records|] == records;
    page := builder.End();
  }

  /** A page built from any list of records gives every one of them back. */
  method RoundTrip(builder: Builder, records: seq<Rec>, count: nat, i: nat) returns (r: Rec)
    requires builder.Shaped() && (builder.dedup ==> KeyTracker.Entries(builder.table) == {})
    requires i < |records| && forall j :: 0 <= j < |records| ==> |records[j].parts| == count
    modifies builder
    ensures r == records[i]
  {
    var page := Build(builder, records);
    r := ReadBack(page, i, count, records[i]);
  }
}
