/**
 What the safe LZ4 decoder reads outside its block, and when the answer depends on it.
 */
module Lz4Reads {
  import opened Machine
  import opened Lz4Format
  import opened Lz4Decompress

  /** A byte behind the memory is read just if the memory is empty, or is one byte that announces a longer literal
      length. With the block as all of the memory this is when the decoder reads outside the block. */
  lemma ReadsInside(src: seq<Byte>, inputSize: nat, outputSize: nat)
    requires inputSize <= |src|
    ensures Decode(src, inputSize, outputSize).Fault? <==> !Readable(src, outputSize)
  {
    if outputSize != 0 {
      var buf: seq<Byte> := seq(outputSize, _ => 0);
      ReadableTurn(src, inputSize, 0, outputSize);
      FillReadable(src, inputSize, 0, buf, 0, outputSize, CopyFor(src, inputSize));
      DecodeLeaves(src, inputSize, buf);
    }
  }

  // ---------------------------------------------------------------- two memories with the same block

  ghost predicate Agree(a: seq<Byte>, b: seq<Byte>, n: nat) {
    n <= |a| && n <= |b| && forall i :: 0 <= i < n ==> a[i] == b[i]
  }

  lemma {:induction false} SameLiteralRun(a: seq<Byte>, b: seq<Byte>, iend: nat, ip: nat, length: nat)
    requires Agree(a, b, iend) && ip < iend
    ensures LiteralRun(a, iend, ip, length) == LiteralRun(b, iend, ip, length)
    decreases iend - ip
  {
    if ip + 1 < iend - RUN_MASK && a[ip] == 255 {
      SameLiteralRun(a, b, iend, ip + 1, length + 255);
    }
  }

  lemma {:induction false} SameMatchRun(a: seq<Byte>, b: seq<Byte>, iend: nat, ip: nat, length: nat)
    requires Agree(a, b, iend)
    ensures MatchRun(a, iend, ip, length) == MatchRun(b, iend, ip, length)
    decreases iend - ip
  {
    if ip <= iend - LASTLITERALS && a[ip] == 255 {
      SameMatchRun(a, b, iend, ip + 1, length + 255);
    }
  }

  lemma SameBackReference(a: seq<Byte>, b: seq<Byte>, iend: nat, token: Byte, start: nat, length: nat, size: nat,
                          oend: nat)
    requires Agree(a, b, iend) && start + length + 8 <= iend && size + length + MFLIMIT <= oend
    ensures ReadBackReference(a, iend, token, start, length, size, oend)
         == ReadBackReference(b, iend, token, start, length, size, oend)
  {
    SameMatchRun(a, b, iend, start + length + 2, RUN_MASK);
  }

  lemma SameLiteralLength(a: seq<Byte>, b: seq<Byte>, iend: nat, ip: nat)
    requires Agree(a, b, iend) && 2 <= iend && AtToken(a, iend, ip) && AtToken(b, iend, ip)
    ensures ReadLiteralLength(a, iend, ip) == ReadLiteralLength(b, iend, ip)
  {
    SameLiteralRun(a, b, iend, ip + 1, RUN_MASK);
  }

  /** A block of one byte is over with the first turn, whatever the byte behind it. */
  lemma SameTurn(a: seq<Byte>, b: seq<Byte>, iend: nat, ip: nat, size: nat, oend: nat)
    requires Agree(a, b, iend) && 1 <= iend && 2 <= |a| && 2 <= |b| && AtToken(a, iend, ip) && AtToken(b, iend, ip)
    ensures ReadTurn(a, iend, ip, size, oend) == ReadTurn(b, iend, ip, size, oend)
  {
    if 2 <= iend {
      SameLiteralLength(a, b, iend, ip);
      var Run(start, length) := ReadLiteralLength(a, iend, ip);
      if !(size + length > oend - MFLIMIT || start + length > iend - (2 + 1 + LASTLITERALS)) {
        SameBackReference(a, b, iend, a[ip], start, length, size, oend);
      }
    }
  }

  lemma {:induction false} SameFrom(a: seq<Byte>, b: seq<Byte>, iend: nat, ip: nat, out: seq<Byte>, oend: nat)
    requires Agree(a, b, iend) && 1 <= iend && 2 <= |a| && 2 <= |b| && AtToken(a, iend, ip) && AtToken(b, iend, ip)
    requires |out| <= oend
    ensures DecodeFrom(a, iend, ip, out, oend) == DecodeFrom(b, iend, ip, out, oend)
    decreases iend - ip
  {
    SameTurn(a, b, iend, ip, |out|, oend);
    var t := ReadTurn(a, iend, ip, |out|, oend);
    if t.Last? {
      assert Slice(a, t.start, iend) == Slice(b, t.start, iend);
    } else if t.Pair? && t.offset != 0 {
      assert Slice(a, t.start, t.start + t.length) == Slice(b, t.start, t.start + t.length);
      SameFrom(a, b, iend, t.next, Produce(a, out, t), oend);
    }
  }

  /** For an empty block the answer depends on the byte behind it. */
  lemma EmptyBlock(outputSize: nat)
    requires 0 < outputSize
    ensures Decode([0, 0], 0, outputSize) == Malformed(1) && Decode([240, 0], 0, outputSize) == Malformed(2)
  {
  }

  /** The answer is that of the block alone, whatever follows it in memory, just if the block is not empty or there
      is no room for output. */
  lemma AnswerOfBlock(inputSize: nat, outputSize: nat)
    ensures (forall a, b :: 2 <= |a| && 2 <= |b| && Agree(a, b, inputSize) ==>
                              Decode(a, inputSize, outputSize) == Decode(b, inputSize, outputSize))
            <==> outputSize == 0 || 0 < inputSize
  {
    if outputSize == 0 {
    } else if 0 < inputSize {
      forall a, b | 2 <= |a| && 2 <= |b| && Agree(a, b, inputSize)
        ensures Decode(a, inputSize, outputSize) == Decode(b, inputSize, outputSize)
      {
        SameFrom(a, b, inputSize, 0, [], outputSize);
      }
    } else {
      EmptyBlock(outputSize);
      assert Agree([0, 0], [240, 0], 0);
    }
  }
}
