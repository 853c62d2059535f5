/**
 How a record with key parts and a value is laid out in a page: its sizes, its lsn and the offsets
 of its key parts, then its value; the key parts are in an area of their own and may be shared.
 */
module PageFormat {
  import opened Machine
  import opened Leb128
  import opened Sequences

  datatype Rec = Rec(parts: seq<seq<Byte>>, value: seq<Byte>, lsn: nat, flags: nat)

  datatype Meta = Meta(offset: nat, flags: nat)

  /** The bytes of one `Meta` in a page. */
  const SIZE_META: nat := 5

  /** A finished page behind its header: the metas, then `body`, which ends with the key area. */
  datatype Page = Page(metas: seq<Meta>, body: seq<Byte>, sizeOrigin: nat, sizeKeys: nat)

  function KeySize(parts: seq<seq<Byte>>): nat {
    if parts == [] then 0 else KeySize(parts[..|parts| - 1]) + |parts[|parts| - 1]|
  }

  function LebAll(offsets: seq<nat>): seq<Byte> {
    if offsets == [] then [] else Leb(offsets[0]) + LebAll(offsets[1..])
  }

  function RecBytes(rec: Rec, offsets: seq<nat>): seq<Byte> {
    Leb(KeySize(rec.parts) + |rec.value|) + (Leb(rec.lsn) + (LebAll(offsets) + rec.value))
  }

  /** A key part stands at an offset of the key area that begins at `base`. */
  ghost predicate PartAt(keys: seq<Byte>, base: nat, offset: nat, part: seq<Byte>) {
    At(keys, base + offset, Leb(|part|) + part)
  }

  ghost predicate PartsAt(keys: seq<Byte>, base: nat, offsets: seq<nat>, parts: seq<seq<Byte>>) {
    |offsets| == |parts| && forall j :: 0 <= j < |parts| ==> PartAt(keys, base, offsets[j], parts[j])
  }

  // ---------------------------------------------------------------- lists of offsets

  lemma {:induction false} LebAllSnoc(offsets: seq<nat>, offset: nat)
    ensures LebAll(offsets + [offset]) == LebAll(offsets) + Leb(offset)
    decreases |offsets|
  {
    if offsets == [] {
      assert [offset][1..] == [];
    } else {
      assert (offsets + [offset])[1..] == offsets[1..] + [offset];
      LebAllSnoc(offsets[1..], offset);
      Associate(Leb(offsets[0]), LebAll(offsets[1..]), Leb(offset));
    }
  }

  lemma LebAllFrom(offsets: seq<nat>, j: nat)
    requires j < |offsets|
    ensures LebAll(offsets[j..]) == Leb(offsets[j]) + LebAll(offsets[j + 1..])
  {
    assert offsets[j..][1..] == offsets[j + 1..];
  }

  // ---------------------------------------------------------------- from the builder's buffers to a page

  lemma AtInBody(values: seq<Byte>, base: nat, keys: seq<Byte>, pos: nat, bytes: seq<Byte>)
    requires base <= |values| && At(values, base + pos, bytes)
    ensures At(values[base..] + keys, pos, bytes)
  {
    var body := values[base..] + keys;
    assert body[pos..pos + |bytes|] == values[base + pos..base + pos + |bytes|];
  }

  lemma AtInKeys(values: seq<Byte>, keys: seq<Byte>, base: nat, pos: nat, bytes: seq<Byte>)
    requires base <= |keys| && At(keys, base + pos, bytes)
    ensures At(values + keys[base..], |values| + pos, bytes)
  {
    var body := values + keys[base..];
    assert body[|values| + pos..|values| + pos + |bytes|] == keys[base + pos..base + pos + |bytes|];
  }
}
