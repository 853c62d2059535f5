/**
 When the output of the safe LZ4 decoder is that of its block. A back reference with offset zero copies the buffer
 onto itself, so that bytes from before the call may be handed out. Decoding the numbers of the cells instead of
 their bytes tells, from the block alone, where every byte of the output comes from.
 */
module Lz4Stale {
  import opened Machine
  import opened Lz4Format
  import opened Lz4Buffer
  import opened Lz4Decompress

  /** What a caller gets to see. */
  ghost function Seen(fill: Fill<Byte>): Outcome
    requires fill.Output? ==> fill.size <= |fill.buf|
  {
    match fill
    case Output(buf, size) => Decoded(buf[..size])
    case Stopped(position) => Malformed(position)
    case Unreadable => Fault
  }

  // ---------------------------------------------------------------- decoding cell numbers

  function Numbers(first: nat, n: nat): (r: seq<nat>)
    ensures |r| == n && forall i :: 0 <= i < n ==> r[i] == first + i
  {
    seq(n, i requires 0 <= i => first + i)
  }

  /** Cells below `outputSize` are those of the buffer, the others those of the memory the block is in. */
  function Origins(src: seq<Byte>, inputSize: nat, outputSize: nat): Fill<nat>
    requires inputSize <= |src|
  {
    FillCells(src, Numbers(outputSize, |src|), inputSize, Numbers(0, outputSize))
  }

  ghost predicate FillTraces(pool: seq<Byte>, from: Fill<nat>, bytes: Fill<Byte>, oend: nat) {
    match from
    case Output(f, size) =>
      bytes.Output? && bytes.size == size <= oend && |bytes.buf| == oend && Traces(pool, f, bytes.buf)
    case Stopped(position) => bytes == Stopped(position)
    case Unreadable => bytes == Unreadable
  }

  lemma FillTurnTraces(pool: seq<Byte>, cells: seq<nat>, src: seq<Byte>, iend: nat, from: seq<nat>, bytes: seq<Byte>,
                       size: nat, t: Turn, w: nat)
    requires iend <= |src| && Traces(pool, cells, src) && Traces(pool, from, bytes)
    requires Fits(t, iend, size, |from|) && w == Wild(t.length)
    ensures Traces(pool, FillTurn(cells, iend, from, size, t), FillTurn(src, iend, bytes, size, t))
  {
    var f, b := Put(from, size, size + w, cells, t.start), Put(bytes, size, size + w, src, t.start);
    PutTraces(pool, from, bytes, size, size + w, cells, src, t.start);
    MatchTraces(pool, f, b, size + t.length, t.offset, t.matchLength);
  }

  lemma CopyTraces(pool: seq<Byte>, cells: seq<nat>, src: seq<Byte>, iend: nat, from: seq<nat>, bytes: seq<Byte>,
                   size: nat, t: Turn)
    requires iend <= |src| && Traces(pool, cells, src) && Traces(pool, from, bytes)
    ensures Traces(pool, Copy(cells, iend, from, size, t), Copy(src, iend, bytes, size, t))
  {
    if Fits(t, iend, size, |from|) {
      FillTurnTraces(pool, cells, src, iend, from, bytes, size, t, Wild(t.length));
    } else if t.Last? && t.start <= iend && size + (iend - t.start) <= |from| {
      PutTraces(pool, from, bytes, size, size + (iend - t.start), cells, src, t.start);
    }
  }

  /** Both copiers move the same cells. */
  ghost predicate MoveAlike(pool: seq<Byte>, copy: Copier<nat>, copyBytes: Copier<Byte>) {
    forall f, b, n, t :: Traces(pool, f, b) ==>
      Traces(pool, copy(f, n, t), copyBytes(b, n, t)) && |copyBytes(b, n, t)| == |b|
  }

  lemma {:induction false} TraceFrom(pool: seq<Byte>, src: seq<Byte>, iend: nat, ip: nat, from: seq<nat>,
                                     bytes: seq<Byte>, size: nat, copy: Copier<nat>, copyBytes: Copier<Byte>,
                                     o: Fill<nat>, r: Fill<Byte>)
    requires AtToken(src, iend, ip) && size <= |bytes| && Traces(pool, from, bytes) && MoveAlike(pool, copy, copyBytes)
    requires o == FillFrom(src, iend, ip, from, size, |bytes|, copy)
    requires r == FillFrom(src, iend, ip, bytes, size, |bytes|, copyBytes)
    ensures FillTraces(pool, o, r, |bytes|)
    decreases iend - ip
  {
    var t := ReadTurn(src, iend, ip, size, |bytes|);
    if t.Pair? {
      TraceFrom(pool, src, iend, t.next, copy(from, size, t), copyBytes(bytes, size, t),
                size + t.length + t.matchLength, copy, copyBytes, o, r);
    }
  }

  /** Every byte left in the buffer is the one its origin names. */
  lemma OriginsTrace(src: seq<Byte>, inputSize: nat, buf: seq<Byte>)
    requires inputSize <= |src|
    ensures FillTraces(buf + src, Origins(src, inputSize, |buf|), FillAll(src, inputSize, buf), |buf|)
  {
    var pool, oend := buf + src, |buf|;
    var cells, from := Numbers(oend, |src|), Numbers(0, oend);
    var copy, copyBytes := CopyFor(cells, inputSize), CopyFor(src, inputSize);
    forall f: seq<nat>, b: seq<Byte>, n: nat, t: Turn | Traces(pool, f, b)
      ensures Traces(pool, copy(f, n, t), copyBytes(b, n, t)) && |copyBytes(b, n, t)| == |b|
    {
      CopyTraces(pool, cells, src, inputSize, f, b, n, t);
    }
    if |buf| != 0 {
      TraceFrom(pool, src, inputSize, 0, from, buf, 0, copy, copyBytes, Origins(src, inputSize, |buf|),
                FillAll(src, inputSize, buf));
    }
  }

  // ---------------------------------------------------------------- the exact condition

  /** No byte of the output comes from the buffer. */
  predicate FromBlock(src: seq<Byte>, inputSize: nat, outputSize: nat)
    requires inputSize <= |src|
  {
    var o := Origins(src, inputSize, outputSize);
    o.Output? ==> forall i :: 0 <= i < o.size && i < |o.buf| ==> outputSize <= o.buf[i]
  }

  ghost function Answer(src: seq<Byte>, inputSize: nat, buf: seq<Byte>): Outcome
    requires inputSize <= |src|
  {
    OriginsTrace(src, inputSize, buf);
    Seen(FillAll(src, inputSize, buf))
  }

  lemma AnswerAlike(src: seq<Byte>, inputSize: nat, a: seq<Byte>, b: seq<Byte>)
    requires inputSize <= |src| && |a| == |b| && FromBlock(src, inputSize, |a|)
    ensures Answer(src, inputSize, a) == Answer(src, inputSize, b)
  {
    OriginsTrace(src, inputSize, a);
    OriginsTrace(src, inputSize, b);
    var o, x, y := Origins(src, inputSize, |a|), FillAll(src, inputSize, a), FillAll(src, inputSize, b);
    if o.Output? {
      forall i | 0 <= i < o.size
        ensures x.buf[i] == y.buf[i]
      {
        assert x.buf[i] == (a + src)[o.buf[i]] && y.buf[i] == (b + src)[o.buf[i]];
      }
      assert x.buf[..o.size] == y.buf[..o.size];
    }
  }

  lemma AnswerDiffers(src: seq<Byte>, inputSize: nat, outputSize: nat) returns (a: seq<Byte>, b: seq<Byte>)
    requires inputSize <= |src| && !FromBlock(src, inputSize, outputSize)
    ensures |a| == |b| == outputSize && Answer(src, inputSize, a) != Answer(src, inputSize, b)
  {
    var o := Origins(src, inputSize, outputSize);
    var i :| 0 <= i < o.size && i < |o.buf| && o.buf[i] < outputSize;
    a := seq(outputSize, _ => 0);
    b := a[o.buf[i] := 1];
    OriginsTrace(src, inputSize, a);
    OriginsTrace(src, inputSize, b);
    var x, y := FillAll(src, inputSize, a), FillAll(src, inputSize, b);
    assert x.buf[i] == (a + src)[o.buf[i]] == 0 && y.buf[i] == (b + src)[o.buf[i]] == 1;
    assert x.buf[..o.size][i] != y.buf[..o.size][i];
  }

  /** The answer is that of the block alone, whatever the buffer held, just if no cell number of the buffer is left
      in the output of cell numbers. */
  lemma AnswerFromBlock(src: seq<Byte>, inputSize: nat, outputSize: nat)
    requires inputSize <= |src|
    ensures FromBlock(src, inputSize, outputSize) <==>
            forall a, b :: |a| == |b| == outputSize ==> Answer(src, inputSize, a) == Answer(src, inputSize, b)
  {
    if FromBlock(src, inputSize, outputSize) {
      forall a, b | |a| == |b| == outputSize
        ensures Answer(src, inputSize, a) == Answer(src, inputSize, b)
      {
        AnswerAlike(src, inputSize, a, b);
      }
    } else {
      var a, b := AnswerDiffers(src, inputSize, outputSize);
    }
  }

  /** Without a zero offset it always is. */
  lemma ProperOffsets(src: seq<Byte>, inputSize: nat, outputSize: nat)
    requires inputSize <= |src| && !Decode(src, inputSize, outputSize).ZeroOffset?
    ensures FromBlock(src, inputSize, outputSize)
  {
    if !FromBlock(src, inputSize, outputSize) {
      var a, b := AnswerDiffers(src, inputSize, outputSize);
      DecodeLeaves(src, inputSize, a);
      DecodeLeaves(src, inputSize, b);
      assert false;
    }
  }

  // ---------------------------------------------------------------- blocks with a zero offset

  /** The bytes of a sequence with offset zero: of the eight behind the literals, those the literal copy overran are
      input, the others are what the buffer held. */
  ghost predicate SelfCopied(src: seq<Byte>, buf: seq<Byte>, t: Turn, size: nat, r: seq<Byte>)
    requires t.Pair?
  {
    && |r| == |buf| && size + t.length + 8 <= |r| && size + Wild(t.length) <= |r| && t.start + Wild(t.length) <= |src|
    && (forall i, j :: size <= i < size + t.length + 8 && i < size + Wild(t.length) && j == i - size + t.start ==>
          r[i] == src[j])
    && (forall i :: size + Wild(t.length) <= i < size + t.length + 8 ==> r[i] == buf[i])
  }

  lemma SelfCopies(src: seq<Byte>, iend: nat, buf: seq<Byte>, size: nat, t: Turn)
    requires iend <= |src| && Fits(t, iend, size, |buf|) && t.offset == 0
    ensures SelfCopied(src, buf, t, size, Copy(src, iend, buf, size, t))
  {
    var w, op := Wild(t.length), size + t.length;
    var copied := Put(buf, size, size + w, src, t.start);
    PutCells(buf, size, size + w, src, t.start);
    forall i | 0 <= i < op + 8
      ensures Copy(src, iend, buf, size, t)[i] == copied[i]
    {
      SelfKeeps(copied, op, t.matchLength, i);
    }
  }

  /** A block of one sequence and the last literals. */
  lemma TwoTurns(src: seq<Byte>, iend: nat, buf: seq<Byte>, t: Turn, last: Turn, mid: seq<Byte>)
    requires iend <= |src| && buf != [] && t == ReadTurn(src, iend, 0, 0, |buf|) && t.Pair?
    requires last == ReadTurn(src, iend, t.next, t.length + t.matchLength, |buf|) && last.Last?
    requires mid == Copy(src, iend, buf, 0, t)
    ensures var size := t.length + t.matchLength; var end := size + iend - last.start;
            FillAll(src, iend, buf) == Output(Put(mid, size, end, src, last.start), end)
  {
    FillTwo(src, iend, buf, t, last, mid, CopyFor(src, iend));
  }

  lemma FillTwo(src: seq<Byte>, iend: nat, buf: seq<Byte>, t: Turn, last: Turn, mid: seq<Byte>, copy: Copier<Byte>)
    requires iend <= |src| && t == ReadTurn(src, iend, 0, 0, |buf|) && t.Pair?
    requires last == ReadTurn(src, iend, t.next, t.length + t.matchLength, |buf|) && last.Last?
    requires mid == copy(buf, 0, t)
    ensures var size := t.length + t.matchLength;
            FillFrom(src, iend, 0, buf, 0, |buf|, copy) == Output(copy(mid, size, last), size + iend - last.start)
  {
  }

  const STALE_BLOCK: seq<Byte> := [128, 1, 2, 3, 4, 5, 6, 7, 8, 0, 0, 80, 9, 10, 11, 12, 13]

  lemma StaleTurns()
    ensures ReadTurn(STALE_BLOCK, 17, 0, 0, 32) == Pair(1, 8, 0, 4, 11)
    ensures ReadTurn(STALE_BLOCK, 17, 11, 12, 32) == Last(12)
  {
  }

  lemma StaleCells(buf: seq<Byte>, mid: seq<Byte>, r: seq<Byte>)
    requires |buf| == 32 && SelfCopied(STALE_BLOCK, buf, Pair(1, 8, 0, 4, 11), 0, mid)
    requires IsPut(mid, 12, 17, STALE_BLOCK, 12, r)
    ensures r[..17] == [1, 2, 3, 4, 5, 6, 7, 8] + buf[8..12] + [9, 10, 11, 12, 13]
  {
    var src := STALE_BLOCK;
    assert mid[0] == src[1] && mid[1] == src[2] && mid[2] == src[3] && mid[3] == src[4];
    assert mid[4] == src[5] && mid[5] == src[6] && mid[6] == src[7] && mid[7] == src[8];
    assert r[12] == src[12] && r[13] == src[13] && r[14] == src[14] && r[15] == src[15] && r[16] == src[16];
  }

  /** Eight literals, then a match of four with offset zero: four bytes of the buffer are handed out. */
  lemma StaleOutput(buf: seq<Byte>)
    requires |buf| == 32
    ensures Answer(STALE_BLOCK, 17, buf) == Decoded([1, 2, 3, 4, 5, 6, 7, 8] + buf[8..12] + [9, 10, 11, 12, 13])
  {
    var t := Pair(1, 8, 0, 4, 11);
    StaleTurns();
    var mid := Copy(STALE_BLOCK, 17, buf, 0, t);
    SelfCopies(STALE_BLOCK, 17, buf, 0, t);
    TwoTurns(STALE_BLOCK, 17, buf, t, Last(12), mid);
    PutCells(mid, 12, 17, STALE_BLOCK, 12);
    StaleCells(buf, mid, Put(mid, 12, 17, STALE_BLOCK, 12));
  }

  const SETTLED_BLOCK: seq<Byte> := [16, 7, 0, 0, 80, 1, 2, 3, 4, 5]

  /** One literal, then the same: the literal copy has put seven more bytes of the block there, and the output is the
      same for every buffer. */
  lemma SettledOutput(buf: seq<Byte>)
    requires |buf| == 32
    ensures Decode(SETTLED_BLOCK, 10, 32) == ZeroOffset
    ensures Answer(SETTLED_BLOCK, 10, buf) == Decoded([7, 0, 0, 80, 1] + [1, 2, 3, 4, 5])
  {
    var src, t, last := SETTLED_BLOCK, Pair(1, 1, 0, 4, 4), Last(5);
    assert ReadTurn(src, 10, 0, 0, 32) == t && ReadTurn(src, 10, 4, 5, 32) == last;
    var mid := Copy(src, 10, buf, 0, t);
    SelfCopies(src, 10, buf, 0, t);
    TwoTurns(src, 10, buf, t, last, mid);
    PutCells(mid, 5, 10, src, 5);
    assert Put(mid, 5, 10, src, 5)[..10] == [7, 0, 0, 80, 1] + [1, 2, 3, 4, 5];
  }
}
