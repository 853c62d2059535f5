/**
 The copy loops of the LZ4 codec, in place on the output buffer.
 */
module Lz4Copy {
  import opened Machine
  import opened Lz4Format
  import opened Lz4Buffer

  /** `LZ4_copy8`: one eight-byte load, then one eight-byte store. */
  method Copy8(dst: array<Byte>, d: nat, s: nat)
    requires d + 8 <= dst.Length && s + 8 <= dst.Length
    modifies dst
    ensures dst[..] == Put(old(dst[..]), d, d + 8, old(dst[..]), s)
  {
    forall i | 0 <= i < 8 {
      dst[d + i] := dst[s + i];
    }
    PutUnique(old(dst[..]), d, d + 8, old(dst[..]), s, dst[..]);
  }

  /** One step of `LZ4_wildCopy`. */
  method WildStep(dst: array<Byte>, d: nat, s: nat, e: nat)
    requires s <= d && d + 8 <= dst.Length && e + 7 <= dst.Length
    modifies dst
    ensures Spread(old(dst[..]), d, s, e) == SpreadOn(dst[..], d + 8, s + 8, e)
  {
    ghost var before := dst[..];
    Copy8(dst, d, s);
    assert dst[..] == Put(before, d, d + 8, before, s);
  }

  /** `LZ4_wildCopy` inside one buffer. */
  method WildCopyMatch(dst: array<Byte>, d: nat, s: nat, e: nat)
    requires s <= d && d + 8 <= dst.Length && e + 7 <= dst.Length
    modifies dst
    ensures dst[..] == Spread(old(dst[..]), d, s, e)
  {
    ghost var whole := Spread(dst[..], d, s, e);
    WildStep(dst, d, s, e);
    var to: nat, from: nat := d + 8, s + 8;
    while to < e
      invariant from <= to && whole == SpreadOn(dst[..], to, from, e)
    {
      WildStep(dst, to, from, e);
      to, from := to + 8, from + 8;
    }
  }

  /** The byte loop that finishes a match close to the end of the output. */
  method CopyMatchBytes(dst: array<Byte>, d: nat, s: nat, e: nat)
    requires s <= d && e <= dst.Length
    modifies dst
    ensures dst[..] == Crawl(old(dst[..]), d, s, e)
  {
    var to: nat, from: nat := d, s;
    while to < e
      invariant from <= to
      invariant Crawl(dst[..], to, from, e) == Crawl(old(dst[..]), d, s, e)
    {
      ghost var before := dst[..];
      dst[to] := dst[from];
      assert dst[..] == before[to := before[from]];
      to, from := to + 1, from + 1;
    }
  }

  /** The first eight bytes of a match whose offset is below eight. */
  method StartShortMatch(dst: array<Byte>, op: nat, offset: nat) returns (from: nat)
    requires offset < 8 && offset <= op && op + 8 <= dst.Length
    modifies dst
    ensures dst[..] == Start(old(dst[..]), op, offset) && from == From(op, offset)
  {
    from := op - offset;
    CopyMatchBytes(dst, op, from, op + 4);
    from := from + DEC32TABLE[offset];
    CopySecondHalf(dst, op, from);
    from := from - DEC64TABLE[offset];
  }

  method CopySecondHalf(dst: array<Byte>, op: nat, from: nat)
    requires op + 8 <= dst.Length && from + 4 <= dst.Length
    modifies dst
    ensures dst[..] == Put(old(dst[..]), op + 4, op + 8, old(dst[..]), from)
  {
    dst[op + 4], dst[op + 5], dst[op + 6], dst[op + 7] := dst[from], dst[from + 1], dst[from + 2], dst[from + 3];
    PutUnique(old(dst[..]), op + 4, op + 8, old(dst[..]), from, dst[..]);
  }

  /** The first eight bytes of a match; the result is where the copy goes on reading. */
  method StartMatch(dst: array<Byte>, op: nat, offset: nat) returns (from: nat)
    requires offset <= op && op + 8 <= dst.Length
    modifies dst
    ensures dst[..] == Start(old(dst[..]), op, offset) && from == From(op, offset)
  {
    if offset < 8 {
      from := StartShortMatch(dst, op, offset);
    } else {
      Copy8(dst, op, op - offset);
      from := op - offset + 8;
    }
  }

  /** The rest of a match. */
  method FinishMatch(dst: array<Byte>, d: nat, s: nat, cpy: nat)
    requires s <= d && d + 4 <= dst.Length && d <= cpy + 4 && cpy + LASTLITERALS <= dst.Length
    modifies dst
    ensures dst[..] == Rest(old(dst[..]), d, s, cpy)
  {
    var end := dst.Length - 8;
    if cpy > dst.Length - 12 {
      var to, from := d, s;
      if to < end {
        WildCopyMatch(dst, to, from, end);
        to, from := end, from + (end - to);
      }
      CopyMatchBytes(dst, to, from, cpy);
    } else {
      WildCopyMatch(dst, d, s, cpy);
    }
  }

  /** The whole match copy of the decoder, into a buffer that ends at `dst.Length`. */
  method CopyMatchInPlace(dst: array<Byte>, op: nat, offset: nat, length: nat)
    requires offset <= op && MINMATCH <= length
    requires op + MFLIMIT <= dst.Length && op + length + LASTLITERALS <= dst.Length
    modifies dst
    ensures dst[..] == Match(old(dst[..]), op, offset, length)
    ensures offset > 0 ==> dst[..op + length] == CopyMatch(old(dst[..op]), offset, length)
  {
    ghost var before := dst[..];
    assert before[..op] == dst[..op];
    var from := StartMatch(dst, op, offset);
    FinishMatch(dst, op + 8, from, op + length);
    if offset > 0 {
      MatchCopies(before, before[..op], offset, length);
      assert dst[..][..op + length] == dst[..op + length];
    }
  }

  /** `LZ4_wildCopy` from the input to the output: `n` bytes, in steps of eight. */
  method WildCopyFrom(dst: array<Byte>, d: nat, src: seq<Byte>, s: nat, n: nat)
    requires s + n + 7 <= |src| && s + 8 <= |src|
    requires d + n + 7 <= dst.Length && d + 8 <= dst.Length
    modifies dst
    ensures dst[..d + n] == old(dst[..d]) + Slice(src, s, s + n)
    ensures dst[..] == Put(old(dst[..]), d, d + Wild(n), src, s)
  {
    var k := 8;
    forall i | 0 <= i < 8 {
      dst[d + i] := src[s + i];
    }
    while k < n
      invariant 8 <= k && (k < n + 8 || k == 8) && k % 8 == 0
      invariant forall i :: d + k <= i < dst.Length ==> dst[i] == old(dst[i])
      invariant forall i :: 0 <= i < d ==> dst[i] == old(dst[i])
      invariant forall i, j :: d <= i < d + k && j == i - d + s ==> dst[i] == src[j]
    {
      forall i | 0 <= i < 8 {
        dst[d + k + i] := src[s + k + i];
      }
      k := k + 8;
    }
    PutUnique(old(dst[..]), d, d + Wild(n), src, s, dst[..]);
    PutPrefix(old(dst[..]), dst[..], d, src, s, n, Wild(n));
    assert dst[..][..d + n] == dst[..d + n] && old(dst[..])[..d] == old(dst[..d]);
  }

  /** The exact copy used for the last literals. */
  method CopyFrom(dst: array<Byte>, d: nat, src: seq<Byte>, s: nat, n: nat)
    requires s + n <= |src| && d + n <= dst.Length
    modifies dst
    ensures dst[..d + n] == old(dst[..d]) + Slice(src, s, s + n)
    ensures dst[..] == Put(old(dst[..]), d, d + n, src, s)
  {
    forall i | 0 <= i < n {
      dst[d + i] := src[s + i];
    }
    PutUnique(old(dst[..]), d, d + n, src, s, dst[..]);
  }
}
