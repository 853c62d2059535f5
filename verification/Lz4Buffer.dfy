/**
 What the copy loops of the LZ4 decoder do to a whole buffer, overrun included, for cells of any kind. They move
 eight bytes at a time and may run up to seven bytes past the end; a match whose offset is below eight is started
 with the tables `dec32table` and `dec64table`, which stretch the distance to a multiple of the offset that is at
 least eight, except for the malformed offset zero, for which the distance is four.
 */
module Lz4Buffer {
  import opened Machine
  import opened Lz4Format

  const DEC32TABLE: seq<int> := [4, 1, 2, 1, 4, 4, 4, 4]
  const DEC64TABLE: seq<int> := [0, 0, 0, -1, 0, 1, 2, 3]

  /** Write the cells from `d` up to `e`; they are read from `s` on. */
  function Put<T>(buf: seq<T>, d: nat, e: nat, from: seq<T>, s: nat): (r: seq<T>)
    requires d <= e <= |buf| && s + (e - d) <= |from|
    ensures |r| == |buf|
    decreases e - d
  {
    if d == e then buf else Put(buf[d := from[s]], d + 1, e, from, s + 1)
  }

  ghost predicate IsPut<T>(buf: seq<T>, d: nat, e: nat, from: seq<T>, s: nat, r: seq<T>)
    requires d <= e <= |buf| && s + (e - d) <= |from|
  {
    && |r| == |buf|
    && (forall i :: 0 <= i < d || e <= i < |buf| ==> r[i] == buf[i])
    && (forall i, j :: d <= i < e && j == i - d + s ==> r[i] == from[j])
  }

  lemma {:induction false} PutCells<T>(buf: seq<T>, d: nat, e: nat, from: seq<T>, s: nat)
    requires d <= e <= |buf| && s + (e - d) <= |from|
    ensures IsPut(buf, d, e, from, s, Put(buf, d, e, from, s))
    decreases e - d
  {
    if d != e {
      PutCells(buf[d := from[s]], d + 1, e, from, s + 1);
    }
  }

  lemma PutUnique<T>(buf: seq<T>, d: nat, e: nat, from: seq<T>, s: nat, r: seq<T>)
    requires d <= e <= |buf| && s + (e - d) <= |from| && IsPut(buf, d, e, from, s, r)
    ensures r == Put(buf, d, e, from, s)
  {
    PutCells(buf, d, e, from, s);
    var put := Put(buf, d, e, from, s);
    forall i | 0 <= i < |r|
      ensures r[i] == put[i]
    {
      if d <= i < e {
        assert r[i] == from[i - d + s];
      }
    }
  }

  /** `LZ4_wildCopy` inside one buffer: at least eight cells. */
  function Spread<T>(buf: seq<T>, d: nat, s: nat, e: nat): (r: seq<T>)
    requires s <= d && d + 8 <= |buf| && e + 7 <= |buf|
    ensures |r| == |buf|
    decreases e - d
  {
    var next := Put(buf, d, d + 8, buf, s);
    if d + 8 < e then Spread(next, d + 8, s + 8, e) else next
  }

  /** What is left of it behind `d`. */
  ghost function SpreadOn<T>(buf: seq<T>, d: nat, s: nat, e: nat): seq<T>
    requires s <= d && e + 7 <= |buf|
  {
    if d < e then Spread(buf, d, s, e) else buf
  }

  /** The loop that copies one cell at a time. */
  function Crawl<T>(buf: seq<T>, d: nat, s: nat, e: nat): (r: seq<T>)
    requires s <= d && e <= |buf|
    ensures |r| == |buf|
    decreases e - d
  {
    if d < e then Crawl(buf[d := buf[s]], d + 1, s + 1, e) else buf
  }

  /** The second four cells of a match with a short offset. */
  function SecondHalf<T>(buf: seq<T>, op: nat, offset: nat): (r: seq<T>)
    requires offset <= op && offset < 8 && op + 8 <= |buf|
    ensures |r| == |buf|
  {
    Put(buf, op + 4, op + 8, buf, op - offset + DEC32TABLE[offset])
  }

  /** The first eight cells of a match. */
  function Start<T>(buf: seq<T>, op: nat, offset: nat): (r: seq<T>)
    requires offset <= op && op + 8 <= |buf|
    ensures |r| == |buf|
  {
    if offset < 8 then SecondHalf(Crawl(buf, op, op - offset, op + 4), op, offset)
    else Put(buf, op, op + 8, buf, op - offset)
  }

  /** Where the copy goes on reading after them. */
  function From(op: nat, offset: nat): (r: nat)
    requires offset <= op
    ensures r <= op + 8
  {
    if offset < 8 then op - offset + DEC32TABLE[offset] - DEC64TABLE[offset] else op - offset + 8
  }

  /** The rest of a match, read from `s` on and written from `d` up to `cpy`; the buffer ends at `|buf|`. */
  function Rest<T>(buf: seq<T>, d: nat, s: nat, cpy: nat): (r: seq<T>)
    requires s <= d && d + 4 <= |buf| && d <= cpy + 4 && cpy + LASTLITERALS <= |buf|
    ensures |r| == |buf|
  {
    var end := |buf| - 8;
    if cpy + 4 <= end then Spread(buf, d, s, cpy)
    else if d < end then Crawl(Spread(buf, d, s, end), end, s + (end - d), cpy)
    else Crawl(buf, d, s, cpy)
  }

  /** The whole match copy of the decoder. */
  function Match<T>(buf: seq<T>, op: nat, offset: nat, length: nat): (r: seq<T>)
    requires offset <= op && MINMATCH <= length
    requires op + MFLIMIT <= |buf| && op + length + LASTLITERALS <= |buf|
    ensures |r| == |buf|
  {
    Rest(Start(buf, op, offset), op + 8, From(op, offset), op + length)
  }

  /** How many bytes `LZ4_wildCopy` moves. */
  function Wild(n: nat): (r: nat)
    ensures n <= r <= n + 8 && 8 <= r && (0 < n ==> r < n + 8)
  {
    if n == 0 then 8 else (n + 7) / 8 * 8
  }

  lemma PutPrefix(before: seq<Byte>, after: seq<Byte>, d: nat, src: seq<Byte>, s: nat, n: nat, m: nat)
    requires n <= m && s + m <= |src| && d + m <= |before| && after == Put(before, d, d + m, src, s)
    ensures after[..d + n] == before[..d] + Slice(src, s, s + n)
  {
    PutCells(before, d, d + m, src, s);
  }

  // ---------------------------------------------------------------- a match repeats what is before it

  ghost predicate SameBelow(a: seq<Byte>, b: seq<Byte>, n: nat) {
    n <= |a| == |b| && forall i :: 0 <= i < n ==> a[i] == b[i]
  }

  /** Walking back a whole number of offsets finds the same byte. */
  lemma {:induction false} RepeatsBack(s: seq<Byte>, lo: nat, hi: nat, offset: nat, m: nat, distance: nat, j: nat)
    requires Repeats(s, lo, hi, offset) && distance == m * offset
    requires j < hi && distance <= j && (m > 0 ==> lo + distance <= j + offset)
    ensures s[j] == s[j - distance]
    decreases m
  {
    if m > 0 {
      assert (m - 1) * offset == distance - offset;
      assert s[j] == s[j - offset];
      RepeatsBack(s, lo, hi, offset, m - 1, distance - offset, j - offset);
    }
  }

  /** Copying `n` bytes from `distance` back, a multiple of the offset, extends the repetition. */
  lemma RepeatsExtend(s: seq<Byte>, t: seq<Byte>, lo: nat, pos: nat, n: nat, offset: nat, m: nat, distance: nat)
    requires Repeats(s, lo, pos, offset) && SameBelow(s, t, pos) && pos + n <= |t|
    requires distance == m * offset && 1 <= m && n <= distance
    requires lo + distance <= pos + offset
    requires forall i, j :: pos <= i < pos + n && j == i - distance ==> t[i] == s[j]
    ensures Repeats(t, lo, pos + n, offset)
  {
    forall i, j | lo <= i < pos + n && j == i - offset
      ensures t[i] == t[j]
    {
      if i < pos {
        assert s[i] == s[j];
      } else if j < pos {
        assert t[i] == s[i - distance];
        assert (m - 1) * offset == distance - offset;
        RepeatsBack(s, lo, pos, offset, m - 1, distance - offset, j);
      } else {
        assert t[i] == s[i - distance] && t[j] == s[j - distance];
        assert s[i - distance] == s[j - distance];
      }
    }
  }

  /** The cells below `lo` are those of `old` and from `lo` to `hi` they repeat with the offset; copying may go on
      from `s`, a whole number of offsets back. */
  ghost predicate Repeating(was: seq<Byte>, buf: seq<Byte>, lo: nat, hi: nat, s: nat, offset: nat, m: nat) {
    && SameBelow(was, buf, lo) && Repeats(buf, lo, hi, offset)
    && s <= hi && hi - s == m * offset && 1 <= m && lo <= s + offset
  }

  lemma PutRepeats(was: seq<Byte>, buf: seq<Byte>, lo: nat, d: nat, s: nat, n: nat, offset: nat, m: nat)
    requires Repeating(was, buf, lo, d, s, offset, m) && s + n <= d && d + n <= |buf|
    ensures Repeating(was, Put(buf, d, d + n, buf, s), lo, d + n, s + n, offset, m)
  {
    PutCells(buf, d, d + n, buf, s);
    RepeatsExtend(buf, Put(buf, d, d + n, buf, s), lo, d, n, offset, m, d - s);
  }

  lemma {:induction false} SpreadRepeats(was: seq<Byte>, buf: seq<Byte>, lo: nat, d: nat, s: nat, e: nat, offset: nat,
                                         m: nat)
    requires Repeating(was, buf, lo, d, s, offset, m) && s + 8 <= d && d + 8 <= |buf| && e + 7 <= |buf|
    ensures e <= |buf| && SameBelow(was, Spread(buf, d, s, e), lo)
    ensures Repeats(Spread(buf, d, s, e), lo, if d <= e then e else d, offset)
    decreases e - d
  {
    PutRepeats(was, buf, lo, d, s, 8, offset, m);
    if d + 8 < e {
      SpreadRepeats(was, Put(buf, d, d + 8, buf, s), lo, d + 8, s + 8, e, offset, m);
    }
  }

  lemma {:induction false} CrawlRepeats(was: seq<Byte>, buf: seq<Byte>, lo: nat, d: nat, s: nat, e: nat, offset: nat,
                                        m: nat)
    requires Repeating(was, buf, lo, d, s, offset, m) && s < d && e <= |buf|
    ensures SameBelow(was, Crawl(buf, d, s, e), lo)
    ensures Repeats(Crawl(buf, d, s, e), lo, if d <= e then e else d, offset)
    decreases e - d
  {
    if d < e {
      PutRepeats(was, buf, lo, d, s, 1, offset, m);
      PutUnique(buf, d, d + 1, buf, s, buf[d := buf[s]]);
      CrawlRepeats(was, buf[d := buf[s]], lo, d + 1, s + 1, e, offset, m);
    }
  }

  /** How many offsets apart the reading and the writing end of a match are. */
  function Stride(offset: nat): nat {
    if offset == 1 then 8 else if offset == 2 then 4 else if offset == 3 then 3 else if offset < 8 then 2 else 1
  }

  lemma Strides(op: nat, offset: nat)
    requires 1 <= offset <= op
    ensures op + 8 - From(op, offset) == Stride(offset) * offset && 8 <= Stride(offset) * offset
    ensures op <= From(op, offset) + offset
  {
  }

  function HalfStride(offset: nat): nat {
    if offset == 1 then 4 else if offset < 4 then 2 else 1
  }

  lemma HalfStrides(offset: nat)
    requires 1 <= offset < 8
    ensures 4 + offset - DEC32TABLE[offset] == HalfStride(offset) * offset && 4 <= HalfStride(offset) * offset
  {
  }

  lemma StartRepeats(buf: seq<Byte>, op: nat, offset: nat)
    requires 1 <= offset <= op && op + 8 <= |buf|
    ensures Repeating(buf, Start(buf, op, offset), op, op + 8, From(op, offset), offset, Stride(offset))
  {
    Strides(op, offset);
    if offset < 8 {
      CrawlRepeats(buf, buf, op, op, op - offset, op + 4, offset, 1);
      SecondHalfRepeats(buf, Crawl(buf, op, op - offset, op + 4), op, offset);
    } else {
      PutRepeats(buf, buf, op, op, op - offset, 8, offset, 1);
    }
  }

  lemma SecondHalfRepeats(was: seq<Byte>, buf: seq<Byte>, op: nat, offset: nat)
    requires 1 <= offset < 8 && offset <= op && op + 8 <= |buf|
    requires SameBelow(was, buf, op) && Repeats(buf, op, op + 4, offset)
    ensures SameBelow(was, SecondHalf(buf, op, offset), op)
    ensures Repeats(SecondHalf(buf, op, offset), op, op + 8, offset)
  {
    HalfStrides(offset);
    PutRepeats(was, buf, op, op + 4, op - offset + DEC32TABLE[offset], 4, offset, HalfStride(offset));
  }

  /** The fast match copy produces the overlapping copy byte by byte. */
  lemma MatchCopies(buf: seq<Byte>, out: seq<Byte>, offset: nat, length: nat)
    requires 1 <= offset <= |out| && MINMATCH <= length && out <= buf
    requires |out| + MFLIMIT <= |buf| && |out| + length + LASTLITERALS <= |buf|
    ensures Match(buf, |out|, offset, length)[..|out| + length] == CopyMatch(out, offset, length)
  {
    var op, r := |out|, Match(buf, |out|, offset, length);
    MatchRepeats(buf, op, offset, length);
    assert Repeats(r[..op + length], op, op + length, offset);
    CopyMatchUnique(out, offset, length, r[..op + length]);
  }

  lemma MatchRepeats(buf: seq<Byte>, op: nat, offset: nat, length: nat)
    requires 1 <= offset <= op && MINMATCH <= length
    requires op + MFLIMIT <= |buf| && op + length + LASTLITERALS <= |buf|
    ensures SameBelow(buf, Match(buf, op, offset, length), op)
    ensures Repeats(Match(buf, op, offset, length), op, op + length, offset)
  {
    Strides(op, offset);
    StartRepeats(buf, op, offset);
    RestRepeats(buf, Start(buf, op, offset), op, From(op, offset), op + length, offset, Stride(offset));
  }

  lemma RestRepeats(was: seq<Byte>, buf: seq<Byte>, op: nat, s: nat, cpy: nat, offset: nat, m: nat)
    requires Repeating(was, buf, op, op + 8, s, offset, m) && s <= op
    requires op + MFLIMIT <= |buf| && op + MINMATCH <= cpy && cpy + LASTLITERALS <= |buf|
    ensures SameBelow(was, Rest(buf, op + 8, s, cpy), op) && Repeats(Rest(buf, op + 8, s, cpy), op, cpy, offset)
  {
    var d, end := op + 8, |buf| - 8;
    if cpy + 4 <= end {
      SpreadRepeats(was, buf, op, d, s, cpy, offset, m);
    } else if d < end {
      SpreadRepeats(was, buf, op, d, s, end, offset, m);
      CrawlRepeats(was, Spread(buf, d, s, end), op, end, s + (end - d), cpy, offset, m);
    } else {
      CrawlRepeats(was, buf, op, d, s, cpy, offset, m);
    }
  }

  /** For the malformed offset zero the first eight cells stay as they were. */
  lemma SelfKeeps<T>(buf: seq<T>, op: nat, length: nat, i: nat)
    requires MINMATCH <= length && op + MFLIMIT <= |buf| && op + length + LASTLITERALS <= |buf|
    requires i < op + 8
    ensures Match(buf, op, 0, length)[i] == buf[i]
  {
    CrawlSelf(buf, op, op + 4);
    PutUnique(buf, op + 4, op + 8, buf, op + 4, buf);
    assert Start(buf, op, 0) == buf;
    RestKeeps(buf, op + 8, op + 4, op + length, i);
  }

  lemma RestKeeps<T>(buf: seq<T>, d: nat, s: nat, cpy: nat, i: nat)
    requires s <= d && d + 4 <= |buf| && d <= cpy + 4 && cpy + LASTLITERALS <= |buf| && i < d
    ensures Rest(buf, d, s, cpy)[i] == buf[i]
  {
    var end := |buf| - 8;
    if cpy + 4 <= end {
      SpreadKeeps(buf, d, s, cpy, i);
    } else if d < end {
      SpreadKeeps(buf, d, s, end, i);
      CrawlKeeps(Spread(buf, d, s, end), end, s + (end - d), cpy, i);
    } else {
      CrawlKeeps(buf, d, s, cpy, i);
    }
  }

  lemma {:induction false} CrawlSelf<T>(buf: seq<T>, d: nat, e: nat)
    requires e <= |buf|
    ensures Crawl(buf, d, d, e) == buf
    decreases e - d
  {
    if d < e {
      assert buf[d := buf[d]] == buf;
      CrawlSelf(buf, d + 1, e);
    }
  }

  lemma {:induction false} SpreadKeeps<T>(buf: seq<T>, d: nat, s: nat, e: nat, i: nat)
    requires s <= d && d + 8 <= |buf| && e + 7 <= |buf| && i < d
    ensures Spread(buf, d, s, e)[i] == buf[i]
    decreases e - d
  {
    PutCells(buf, d, d + 8, buf, s);
    if d + 8 < e {
      SpreadKeeps(Put(buf, d, d + 8, buf, s), d + 8, s + 8, e, i);
    }
  }

  lemma {:induction false} CrawlKeeps<T>(buf: seq<T>, d: nat, s: nat, e: nat, i: nat)
    requires s <= d && e <= |buf| && i < d && i < |buf|
    ensures Crawl(buf, d, s, e)[i] == buf[i]
    decreases e - d
  {
    if d < e {
      CrawlKeeps(buf[d := buf[s]], d + 1, s + 1, e, i);
    }
  }

  // ---------------------------------------------------------------- where the cells come from

  /** Each cell of `bytes` holds the byte of `pool` that the same cell of `from` names. */
  ghost predicate Traces(pool: seq<Byte>, from: seq<nat>, bytes: seq<Byte>) {
    |from| == |bytes| && forall i :: 0 <= i < |from| ==> from[i] < |pool| && bytes[i] == pool[from[i]]
  }

  lemma {:induction false} PutTraces(pool: seq<Byte>, from: seq<nat>, bytes: seq<Byte>, d: nat, e: nat, w: seq<nat>,
                                     b: seq<Byte>, s: nat)
    requires Traces(pool, from, bytes) && Traces(pool, w, b) && d <= e <= |from| && s + (e - d) <= |w|
    ensures Traces(pool, Put(from, d, e, w, s), Put(bytes, d, e, b, s))
    decreases e - d
  {
    if d != e {
      PutTraces(pool, from[d := w[s]], bytes[d := b[s]], d + 1, e, w, b, s + 1);
    }
  }

  lemma {:induction false} SpreadTraces(pool: seq<Byte>, from: seq<nat>, bytes: seq<Byte>, d: nat, s: nat, e: nat)
    requires Traces(pool, from, bytes) && s <= d && d + 8 <= |from| && e + 7 <= |from|
    ensures Traces(pool, Spread(from, d, s, e), Spread(bytes, d, s, e))
    decreases e - d
  {
    PutTraces(pool, from, bytes, d, d + 8, from, bytes, s);
    if d + 8 < e {
      SpreadTraces(pool, Put(from, d, d + 8, from, s), Put(bytes, d, d + 8, bytes, s), d + 8, s + 8, e);
    }
  }

  lemma {:induction false} CrawlTraces(pool: seq<Byte>, from: seq<nat>, bytes: seq<Byte>, d: nat, s: nat, e: nat)
    requires Traces(pool, from, bytes) && s <= d && e <= |from|
    ensures Traces(pool, Crawl(from, d, s, e), Crawl(bytes, d, s, e))
    decreases e - d
  {
    if d < e {
      CrawlTraces(pool, from[d := from[s]], bytes[d := bytes[s]], d + 1, s + 1, e);
    }
  }

  lemma StartTraces(pool: seq<Byte>, from: seq<nat>, bytes: seq<Byte>, op: nat, offset: nat)
    requires Traces(pool, from, bytes) && offset <= op && op + 8 <= |from|
    ensures Traces(pool, Start(from, op, offset), Start(bytes, op, offset))
  {
    if offset < 8 {
      var a, b := Crawl(from, op, op - offset, op + 4), Crawl(bytes, op, op - offset, op + 4);
      CrawlTraces(pool, from, bytes, op, op - offset, op + 4);
      SecondHalfTraces(pool, a, b, op, offset);
    } else {
      PutTraces(pool, from, bytes, op, op + 8, from, bytes, op - offset);
    }
  }

  lemma SecondHalfTraces(pool: seq<Byte>, from: seq<nat>, bytes: seq<Byte>, op: nat, offset: nat)
    requires Traces(pool, from, bytes) && offset <= op && offset < 8 && op + 8 <= |from|
    ensures Traces(pool, SecondHalf(from, op, offset), SecondHalf(bytes, op, offset))
  {
    PutTraces(pool, from, bytes, op + 4, op + 8, from, bytes, op - offset + DEC32TABLE[offset]);
  }

  lemma RestTraces(pool: seq<Byte>, from: seq<nat>, bytes: seq<Byte>, d: nat, s: nat, cpy: nat)
    requires Traces(pool, from, bytes) && s <= d && d + 4 <= |from| && d <= cpy + 4 && cpy + LASTLITERALS <= |from|
    ensures Traces(pool, Rest(from, d, s, cpy), Rest(bytes, d, s, cpy))
  {
    var end := |from| - 8;
    if cpy + 4 <= end {
      SpreadTraces(pool, from, bytes, d, s, cpy);
    } else if d < end {
      SpreadTraces(pool, from, bytes, d, s, end);
      CrawlTraces(pool, Spread(from, d, s, end), Spread(bytes, d, s, end), end, s + (end - d), cpy);
    } else {
      CrawlTraces(pool, from, bytes, d, s, cpy);
    }
  }

  /** Whatever the cells are, a match moves the same ones. */
  lemma MatchTraces(pool: seq<Byte>, from: seq<nat>, bytes: seq<Byte>, op: nat, offset: nat, length: nat)
    requires Traces(pool, from, bytes) && offset <= op && MINMATCH <= length
    requires op + MFLIMIT <= |from| && op + length + LASTLITERALS <= |from|
    ensures Traces(pool, Match(from, op, offset, length), Match(bytes, op, offset, length))
  {
    StartTraces(pool, from, bytes, op, offset);
    RestTraces(pool, Start(from, op, offset), Start(bytes, op, offset), op + 8, From(op, offset), op + length);
  }
}
