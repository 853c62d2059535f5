/**
 `LZ4_decompress_generic` in its full, safe, no-dictionary form.

 `DecodeFrom` reads the block one byte at a time and copies matches one byte at a time. `FillFrom` says what is left
 in the output buffer, for cells of any kind: bytes, or their numbers. `Decompress` is the fast form: it writes the
 output buffer in eight-byte steps that run past the end of each copy, and starts short-offset matches with the two
 adjustment tables. The contract of `Decompress` says that all three agree.
 */
module Lz4Decompress {
  import opened Machine
  import opened Lz4Format
  import opened Lz4Buffer
  import opened Lz4Copy

  // ---------------------------------------------------------------- byte-at-a-time meaning

  datatype Run = Run(ip: nat, length: nat) | Overrun(at: nat) | Outside

  datatype Outcome =
    | Decoded(output: seq<Byte>)
    | Malformed(position: nat)  // the reader's position when the error was found
    | ZeroOffset                // a back reference to itself: no byte-at-a-time meaning
    | Fault                     // a byte behind the readable memory is read

  /** Continuation bytes of a literal length; near the end of the input one byte is read at most. */
  function LiteralRun(src: seq<Byte>, iend: nat, ip: nat, length: nat): (r: Run)
    requires iend <= |src|
    ensures r.Outside? <==> |src| <= ip
    ensures !r.Overrun? && (r.Run? ==> ip < r.ip <= |src| && length <= r.length)
    ensures r.Run? ==> r.ip == ip + 1 || r.ip <= iend - RUN_MASK
    decreases iend - ip
  {
    if |src| <= ip then Outside
    else if ip + 1 < iend - RUN_MASK && src[ip] == 255 then LiteralRun(src, iend, ip + 1, length + 255)
    else Run(ip + 1, length + src[ip])
  }

  /** Continuation bytes of a match length; running into the last literals is an error. */
  function MatchRun(src: seq<Byte>, iend: nat, ip: nat, length: nat): (r: Run)
    requires iend <= |src|
    ensures r.Run? ==> ip < r.ip <= iend - LASTLITERALS + 1 && length <= r.length
    ensures !r.Outside? && (r.Overrun? ==> ip <= r.at)
    decreases iend - ip
  {
    if ip > iend - LASTLITERALS then Overrun(ip)
    else if src[ip] == 255 then MatchRun(src, iend, ip + 1, length + 255)
    else Run(ip + 1, length + src[ip])
  }

  ghost predicate AtToken(src: seq<Byte>, iend: nat, ip: nat) {
    iend <= |src| && (ip == 0 || ip + 4 <= iend)
  }

  /** What one turn of the decoding loop reads: a whole sequence, the last literals, or an error. */
  datatype Turn =
    | Last(start: nat)
    | Error(position: nat)
    | Beyond
    | Pair(start: nat, length: nat, offset: nat, matchLength: nat, next: nat)

  function ReadLiteralLength(src: seq<Byte>, iend: nat, ip: nat): (r: Run)
    requires AtToken(src, iend, ip)
    ensures !r.Overrun? && (r.Run? ==> ip < r.ip <= |src|)
    ensures r.Run? ==> r.ip <= ip + 2 || r.ip <= iend - RUN_MASK
    ensures 0 < ip ==> r.Run?
  {
    if |src| <= ip then Outside
    else if src[ip] / 16 == RUN_MASK then LiteralRun(src, iend, ip + 1, RUN_MASK)
    else Run(ip + 1, src[ip] / 16)
  }

  function ReadMatchLength(src: seq<Byte>, iend: nat, token: Byte, ip: nat): (r: Run)
    requires iend <= |src| && ip + 6 <= iend
    ensures !r.Outside? && (r.Run? ==> ip <= r.ip <= iend - LASTLITERALS + 1)
  {
    if token % 16 == RUN_MASK then MatchRun(src, iend, ip, RUN_MASK) else Run(ip, token % 16)
  }

  function ReadOffset(src: seq<Byte>, p: nat): nat
    requires p + 2 <= |src|
  {
    (src[p] as int) + 256 * (src[p + 1] as int)
  }

  /** A sequence at `ip` that can be copied: its literals are well inside the input, and the output ends with at
      least five bytes of room. */
  predicate Fits(t: Turn, iend: nat, size: nat, oend: nat) {
    && t.Pair? && t.start + t.length + 8 <= iend && t.start + t.length + 2 <= t.next <= iend - 4
    && t.offset <= size + t.length && MINMATCH <= t.matchLength
    && size + t.length + MFLIMIT <= oend && size + t.length + t.matchLength + LASTLITERALS <= oend
  }

  /** The offset and match length that follow the literals; `size` bytes precede the literals. */
  function ReadBackReference(src: seq<Byte>, iend: nat, token: Byte, start: nat, length: nat, size: nat,
                             oend: nat): (r: Turn)
    requires iend <= |src| && start + length + 8 <= iend && size + length + MFLIMIT <= oend
    ensures r.Error? || Fits(r, iend, size, oend)
    ensures r.Pair? ==> r.start == start && r.length == length
  {
    var p := start + length;
    var offset := ReadOffset(src, p);
    if offset > size + length then Error(p + 2)
    else
      match ReadMatchLength(src, iend, token, p + 2)
      case Overrun(at) => Error(at)
      case Run(next, code) =>
        if size + length + code + MINMATCH > oend - LASTLITERALS then Error(next)
        else Pair(start, length, offset, code + MINMATCH, next)
  }

  /** One turn of the decoder, `size` bytes having been produced so far. */
  function ReadTurn(src: seq<Byte>, iend: nat, ip: nat, size: nat, oend: nat): (r: Turn)
    requires AtToken(src, iend, ip)
    ensures r.Last? ==> ip < r.start <= iend && size + (iend - r.start) <= oend
    ensures r.Pair? ==> ip < r.start && Fits(r, iend, size, oend)
    ensures 0 < ip ==> !r.Beyond?
  {
    match ReadLiteralLength(src, iend, ip)
    case Outside => Beyond
    case Run(start, length) =>
      if size + length > oend - MFLIMIT || start + length > iend - (2 + 1 + LASTLITERALS) then
        if start + length != iend || size + length > oend then Error(start) else Last(start)
      else ReadBackReference(src, iend, src[ip], start, length, size, oend)
  }

  /** The output after the sequence of one turn. */
  function Produce(src: seq<Byte>, out: seq<Byte>, t: Turn): (r: seq<Byte>)
    requires t.Pair? && t.start + t.length <= |src| && 1 <= t.offset <= |out| + t.length
    ensures |r| == |out| + t.length + t.matchLength
  {
    CopyMatch(out + Slice(src, t.start, t.start + t.length), t.offset, t.matchLength)
  }

  function DecodeFrom(src: seq<Byte>, iend: nat, ip: nat, out: seq<Byte>, oend: nat): (r: Outcome)
    requires AtToken(src, iend, ip) && |out| <= oend
    ensures r.Decoded? ==> |r.output| <= oend
    decreases iend - ip
  {
    var t := ReadTurn(src, iend, ip, |out|, oend);
    if t.Error? then Malformed(t.position)
    else if t.Beyond? then Fault
    else if t.Last? then Decoded(out + Slice(src, t.start, iend))
    else if t.offset == 0 then ZeroOffset
    else DecodeFrom(src, iend, t.next, Produce(src, out, t), oend)
  }

  /** What `LZ4_decompress_safe` answers for the block in the first `inputSize` bytes of a readable memory. */
  function Decode(src: seq<Byte>, inputSize: nat, outputSize: nat): (r: Outcome)
    requires inputSize <= |src|
    ensures r.Decoded? ==> |r.output| <= outputSize
  {
    if outputSize == 0 then
      if inputSize == 1 && src[0] == 0 then Decoded([]) else Malformed(0)
    else DecodeFrom(src, inputSize, 0, [], outputSize)
  }

  // ---------------------------------------------------------------- decoding undoes encoding

  ghost predicate BytesAt(src: seq<Byte>, at: nat, b: seq<Byte>) {
    at + |b| <= |src| && src[at..at + |b|] == b
  }

  lemma BytesAtSplit(src: seq<Byte>, at: nat, a: seq<Byte>, b: seq<Byte>)
    requires BytesAt(src, at, a + b)
    ensures BytesAt(src, at, a) && BytesAt(src, at + |a|, b)
  {
    var w := src[at..at + |a + b|];
    assert w[..|a|] == a && w[|a|..] == b;
  }

  lemma FirstByte(src: seq<Byte>, at: nat, b: seq<Byte>)
    requires BytesAt(src, at, b) && b != []
    ensures src[at] == b[0]
  {
    assert src[at] == src[at..at + |b|][0];
  }

  lemma {:induction false} LiteralRunReads(src: seq<Byte>, iend: nat, ip: nat, length: nat, n: nat)
    requires iend <= |src|
    requires ip + |LengthBytes(n)| + RUN_MASK + n <= iend
    requires BytesAt(src, ip, LengthBytes(n))
    ensures LiteralRun(src, iend, ip, length) == Run(ip + |LengthBytes(n)|, length + n)
    decreases n
  {
    FirstByte(src, ip, LengthBytes(n));
    if n >= 255 {
      BytesAtSplit(src, ip, [255], LengthBytes(n - 255));
      LiteralRunReads(src, iend, ip + 1, length + 255, n - 255);
    }
  }

  lemma {:induction false} MatchRunReads(src: seq<Byte>, iend: nat, ip: nat, length: nat, n: nat)
    requires iend <= |src|
    requires ip + |LengthBytes(n)| + LASTLITERALS <= iend + 1
    requires BytesAt(src, ip, LengthBytes(n))
    ensures MatchRun(src, iend, ip, length) == Run(ip + |LengthBytes(n)|, length + n)
    decreases n
  {
    FirstByte(src, ip, LengthBytes(n));
    if n >= 255 {
      BytesAtSplit(src, ip, [255], LengthBytes(n - 255));
      MatchRunReads(src, iend, ip + 1, length + 255, n - 255);
    }
  }

  /** Token, literal length and literals, as they open both kinds of sequence. */
  lemma ReadLiterals(src: seq<Byte>, iend: nat, ip: nat, token: Byte, literals: seq<Byte>)
    requires AtToken(src, iend, ip) && token / 16 == Nibble(|literals|)
    requires BytesAt(src, ip, EncodeLiterals(token, literals))
    requires ip + |EncodeLiterals(token, literals)| <= iend
    ensures src[ip] == token
    ensures var start := ip + 1 + |Extension(|literals|)|;
      && ReadLiteralLength(src, iend, ip) == Run(start, |literals|)
      && start + |literals| == ip + |EncodeLiterals(token, literals)|
      && BytesAt(src, start, literals)
  {
    var n := |literals|;
    BytesAtSplit(src, ip, [token] + Extension(n), literals);
    BytesAtSplit(src, ip, [token], Extension(n));
    FirstByte(src, ip, [token]);
    if n >= RUN_MASK {
      LiteralRunReads(src, iend, ip + 1, RUN_MASK, n - RUN_MASK);
    }
  }

  lemma OffsetBytes(src: seq<Byte>, p: nat, lo: Byte, hi: Byte, rest: seq<Byte>)
    requires BytesAt(src, p, [lo, hi] + rest)
    ensures src[p] == lo && src[p + 1] == hi && BytesAt(src, p + 2, rest)
  {
    BytesAtSplit(src, p, [lo, hi], rest);
    assert src[p..p + 2] == [lo, hi];
  }

  /** A sequence that ends at `end` leaves room for what must follow it. */
  ghost predicate Roomy(end: nat, code: nat, iend: nat) {
    end + LASTLITERALS <= iend + 1 && end + 1 + LASTLITERALS <= iend + |Extension(code)|
  }

  ghost predicate AllRoomy(ss: Block, iend: nat)
    requires AllEncodable(ss)
  {
    ss.More? ==> AllRoomy(ss.front, iend) && Roomy(|EncodeSequences(ss)|, ss.newest.matchLength - MINMATCH, iend)
  }

  lemma {:induction false} EarlyRoomy(ss: Block, iend: nat)
    requires AllEncodable(ss) && |EncodeSequences(ss)| + 1 + LASTLITERALS <= iend
    ensures AllRoomy(ss, iend)
  {
    if ss.More? {
      EarlyRoomy(ss.front, iend);
    }
  }

  lemma ReadMatch(src: seq<Byte>, iend: nat, p: nat, token: Byte, offset: nat, code: nat)
    requires iend <= |src| && token % 16 == Nibble(code) && offset <= MAX_DISTANCE
    requires BytesAt(src, p, EncodeMatch(offset, code))
    requires p + 8 <= iend && Roomy(p + |EncodeMatch(offset, code)|, code, iend)
    ensures ReadOffset(src, p) == offset
    ensures ReadMatchLength(src, iend, token, p + 2) == Run(p + |EncodeMatch(offset, code)|, code)
  {
    OffsetBytes(src, p, offset % 256, offset / 256, Extension(code));
    if code >= RUN_MASK {
      MatchRunReads(src, iend, p + 2, RUN_MASK, code - RUN_MASK);
    }
  }

  lemma ReadPair(src: seq<Byte>, iend: nat, ip: nat, size: nat, oend: nat, start: nat, length: nat, offset: nat,
        code: nat, next: nat)
    requires AtToken(src, iend, ip) && start + length + 8 <= iend
    requires ReadLiteralLength(src, iend, ip) == Run(start, length)
    requires ReadOffset(src, start + length) == offset
    requires ReadMatchLength(src, iend, src[ip], start + length + 2) == Run(next, code)
    requires 1 <= offset <= size + length && size + length + MFLIMIT <= oend
    requires size + length + code + MINMATCH + LASTLITERALS <= oend
    ensures ReadTurn(src, iend, ip, size, oend) == Pair(start, length, offset, code + MINMATCH, next)
  {
  }

  /** With the literals read, the back reference completes the turn. */
  lemma ReadTail(src: seq<Byte>, iend: nat, ip: nat, size: nat, oend: nat, offset: nat, code: nat, t: Turn)
    requires AtToken(src, iend, ip) && ip < iend && 1 <= offset <= MAX_DISTANCE && src[ip] % 16 == Nibble(code)
    requires t.Pair?
    requires t == Pair(t.start, t.length, offset, code + MINMATCH, t.start + t.length + 2 + |Extension(code)|)
    requires ReadLiteralLength(src, iend, ip) == Run(t.start, t.length)
    requires BytesAt(src, t.start + t.length, EncodeMatch(offset, code)) && Roomy(t.next, code, iend)
    requires offset <= size + t.length && size + t.length + MFLIMIT <= oend
    requires size + t.length + code + MINMATCH + LASTLITERALS <= oend
    ensures ReadTurn(src, iend, ip, size, oend) == t
  {
    ReadMatch(src, iend, t.start + t.length, src[ip], offset, code);
    ReadPair(src, iend, ip, size, oend, t.start, t.length, offset, code, t.next);
  }

  /** One encoded sequence, met at a token, is read whole. */
  lemma ReadSequence(src: seq<Byte>, iend: nat, ip: nat, size: nat, oend: nat, literals: seq<Byte>, offset: nat,
        code: nat, t: Turn)
    requires AtToken(src, iend, ip) && 1 <= offset <= MAX_DISTANCE
    requires BytesAt(src, ip, EncodeLiterals(Token(|literals|, code), literals))
    requires t.Pair? && t.start == ip + 1 + |Extension(|literals|)| && t.length == |literals|
    requires t == Pair(t.start, t.length, offset, code + MINMATCH, t.start + t.length + 2 + |Extension(code)|)
    requires BytesAt(src, t.start + t.length, EncodeMatch(offset, code))
    requires Roomy(t.next, code, iend)
    requires offset <= size + |literals|
    requires size + |literals| + MFLIMIT <= oend
    requires size + |literals| + code + MINMATCH + LASTLITERALS <= oend
    ensures ReadTurn(src, iend, ip, size, oend) == t && BytesAt(src, t.start, literals)
  {
    ReadLiterals(src, iend, ip, Token(|literals|, code), literals);
    ReadTail(src, iend, ip, size, oend, offset, code, t);
  }

  lemma DecodePair(src: seq<Byte>, iend: nat, ip: nat, out: seq<Byte>, oend: nat, t: Turn, more: seq<Byte>, r: Outcome)
    requires AtToken(src, iend, ip) && |out| <= oend && r == DecodeFrom(src, iend, ip, out, oend)
    requires ReadTurn(src, iend, ip, |out|, oend) == t && t.Pair? && 0 < t.offset && more == Produce(src, out, t)
    ensures r == DecodeFrom(src, iend, t.next, more, oend)
  {
  }

  lemma ProduceLiterals(src: seq<Byte>, out: seq<Byte>, t: Turn, literals: seq<Byte>)
    requires t.Pair? && t.length == |literals| && BytesAt(src, t.start, literals) && 1 <= t.offset <= |out| + t.length
    ensures Produce(src, out, t) == CopyMatch(out + literals, t.offset, t.matchLength)
  {
    assert Slice(src, t.start, t.start + t.length) == literals;
  }

  lemma SequenceSize(s: Sequence, head: seq<Byte>, tail: seq<Byte>)
    requires 1 <= s.offset <= MAX_DISTANCE && MINMATCH <= s.matchLength
    requires head == EncodeLiterals(Token(|s.literals|, s.matchLength - MINMATCH), s.literals)
    requires tail == EncodeMatch(s.offset, s.matchLength - MINMATCH)
    ensures EncodeSequence(s) == head + tail && |EncodeSequence(s)| == |head| + |tail|
    ensures |head| == 1 + |Extension(|s.literals|)| + |s.literals|
        && |tail| == 2 + |Extension(s.matchLength - MINMATCH)|
  {
  }

  /** One encoded sequence, met at a token, is consumed whole. */
  lemma DecodeSequence(src: seq<Byte>, iend: nat, ip: nat, out: seq<Byte>, oend: nat, s: Sequence) returns (t: Turn)
    requires AtToken(src, iend, ip)
    requires Encodable(s) && BytesAt(src, ip, EncodeSequence(s))
    requires Roomy(ip + |EncodeSequence(s)|, s.matchLength - MINMATCH, iend)
    requires s.offset <= |out| + |s.literals|
    requires |out| + |s.literals| + MFLIMIT <= oend
    requires |out| + |s.literals| + s.matchLength + LASTLITERALS <= oend
    ensures t == ReadTurn(src, iend, ip, |out|, oend) && t.Pair?
    ensures t.next == ip + |EncodeSequence(s)| && t.length == |s.literals| && BytesAt(src, t.start, s.literals)
    ensures t.offset == s.offset && t.matchLength == s.matchLength
  {
    var code := s.matchLength - MINMATCH;
    var head, tail := EncodeLiterals(Token(|s.literals|, code), s.literals), EncodeMatch(s.offset, code);
    var start := ip + 1 + |Extension(|s.literals|)|;
    t := Pair(start, |s.literals|, s.offset, code + MINMATCH, start + |s.literals| + 2 + |Extension(code)|);
    SequenceSize(s, head, tail);
    BytesAtSplit(src, ip, head, tail);
    ReadSequence(src, iend, ip, |out|, oend, s.literals, s.offset, code, t);
  }

  /** The low half of the last token does not matter. */
  lemma DecodeLast(src: seq<Byte>, iend: nat, ip: nat, out: seq<Byte>, oend: nat, last: seq<Byte>, code: nat)
    requires AtToken(src, iend, ip)
    requires BytesAt(src, ip, EncodeLiterals(Token(|last|, code), last))
    requires ip + |EncodeLiterals(Token(|last|, code), last)| == iend
    requires |out| + |last| <= oend
    ensures DecodeFrom(src, iend, ip, out, oend) == Decoded(out + last)
  {
    ReadLiterals(src, iend, ip, Token(|last|, code), last);
    LastTurn(src, iend, ip, out, oend, last, iend - |last|);
  }

  lemma LastTurn(src: seq<Byte>, iend: nat, ip: nat, out: seq<Byte>, oend: nat, last: seq<Byte>, start: nat)
    requires AtToken(src, iend, ip) && |out| + |last| <= oend && start + |last| == iend
    requires ReadLiteralLength(src, iend, ip) == Run(start, |last|) && BytesAt(src, start, last)
    ensures DecodeFrom(src, iend, ip, out, oend) == Decoded(out + last)
  {
    assert ReadTurn(src, iend, ip, |out|, oend) == Last(start);
    assert Slice(src, start, iend) == last;
  }

  /** Decoding goes on behind an encoded sequence with what the sequence stands for. */
  lemma DecodeNext(src: seq<Byte>, iend: nat, ip: nat, out: seq<Byte>, oend: nat, s: Sequence, next: nat,
                   more: seq<Byte>, r: Outcome)
    requires AtToken(src, iend, ip) && |out| <= oend && r == DecodeFrom(src, iend, ip, out, oend)
    requires Encodable(s) && BytesAt(src, ip, EncodeSequence(s))
    requires next == ip + |EncodeSequence(s)| && Roomy(next, s.matchLength - MINMATCH, iend)
    requires s.offset <= |out| + |s.literals| && |out| + |s.literals| + MFLIMIT <= oend
    requires |out| + |s.literals| + s.matchLength + LASTLITERALS <= oend
    requires more == CopyMatch(out + s.literals, s.offset, s.matchLength)
    ensures AtToken(src, iend, next) && |more| <= oend
    ensures r == DecodeFrom(src, iend, next, more, oend)
  {
    var t := DecodeSequence(src, iend, ip, out, oend, s);
    ProduceLiterals(src, out, t, s.literals);
    DecodePair(src, iend, ip, out, oend, t, more, r);
  }

  /** Having read the sequences of a block, the decoder has produced what they stand for. */
  lemma {:induction false} DecodeSequences(src: seq<Byte>, iend: nat, ss: Block, total: nat, oend: nat, r: Outcome)
    requires iend <= |src| && total <= oend
    requires r == DecodeFrom(src, iend, 0, [], oend)
    requires Valid(ss, total) && BytesAt(src, 0, EncodeSequences(ss))
    requires AllRoomy(ss, iend)
    ensures AtToken(src, iend, |EncodeSequences(ss)|) && |ExpandSequences(ss, total)| <= oend
    ensures r == DecodeFrom(src, iend, |EncodeSequences(ss)|, ExpandSequences(ss, total), oend)
  {
    if ss.More? {
      var front, s := ss.front, ss.newest;
      var ip := |EncodeSequences(front)|;
      BytesAtSplit(src, 0, EncodeSequences(front), EncodeSequence(s));
      DecodeSequences(src, iend, front, total, oend, r);
      DecodeNext(src, iend, ip, ExpandSequences(front, total), oend, s, |EncodeSequences(ss)|,
                 ExpandSequences(ss, total), r);
    }
  }

  lemma EmptyData(ss: Block, last: seq<Byte>, total: nat)
    requires Valid(ss, total) && total == ExpandedSize(ss) + |last| == 0
    ensures ss == Empty && last == [] && Encode(ss, last) == [0]
  {
  }

  /** Every valid block decodes to the data it stands for, whatever follows it in memory and
      however much larger the output buffer is. */
  lemma DecodeEncode(src: seq<Byte>, ss: Block, last: seq<Byte>, total: nat, outputSize: nat)
    requires Valid(ss, total) && total == ExpandedSize(ss) + |last| <= outputSize
    requires BytesAt(src, 0, Encode(ss, last))
    ensures Decode(src, |Encode(ss, last)|, outputSize) == Decoded(Expand(ss, last, total))
  {
    if outputSize == 0 {
      EmptyData(ss, last, total);
      FirstByte(src, 0, [0]);
    } else {
      DecodeBlock(src, |Encode(ss, last)|, ss, last, total, outputSize);
    }
  }

  lemma DecodeBlock(src: seq<Byte>, iend: nat, ss: Block, last: seq<Byte>, total: nat, oend: nat)
    requires Valid(ss, total) && total == ExpandedSize(ss) + |last| <= oend
    requires BytesAt(src, 0, Encode(ss, last)) && iend == |Encode(ss, last)|
    ensures DecodeFrom(src, iend, 0, [], oend) == Decoded(Expand(ss, last, total))
  {
    var ip := |EncodeSequences(ss)|;
    BytesAtSplit(src, 0, EncodeSequences(ss), EncodeLast(last));
    if ss.More? {
      EarlyRoomy(ss, iend);
    }
    DecodeSequences(src, iend, ss, total, oend, DecodeFrom(src, iend, 0, [], oend));
    DecodeLast(src, iend, ip, ExpandSequences(ss, total), oend, last, 0);
  }

  // ---------------------------------------------------------------- what is left in the buffer

  /** The readable memory holds every byte the decoder reads. */
  predicate Readable(src: seq<Byte>, outputSize: nat) {
    outputSize == 0 || 2 <= |src| || (|src| == 1 && src[0] < 240)
  }

  /** The sequence of one turn, copied with the overrun of both copies into a buffer that holds `size` cells. */
  function FillTurn<T>(cells: seq<T>, iend: nat, buf: seq<T>, size: nat, t: Turn): (r: seq<T>)
    requires iend <= |cells| && Fits(t, iend, size, |buf|)
    ensures |r| == |buf|
  {
    Match(Put(buf, size, size + Wild(t.length), cells, t.start), size + t.length, t.offset, t.matchLength)
  }

  /** What a turn does to the buffer: a sequence, the last literals, or nothing. */
  function Copy<T>(cells: seq<T>, iend: nat, buf: seq<T>, size: nat, t: Turn): (r: seq<T>)
    requires iend <= |cells|
    ensures |r| == |buf|
  {
    if Fits(t, iend, size, |buf|) then FillTurn(cells, iend, buf, size, t)
    else if t.Last? && t.start <= iend && size + (iend - t.start) <= |buf| then
      Put(buf, size, size + (iend - t.start), cells, t.start)
    else buf
  }

  type Copier<!T> = (seq<T>, nat, Turn) -> seq<T>

  /** The cells of the input are `cells`. */
  function CopyFor<T>(cells: seq<T>, iend: nat): Copier<T>
    requires iend <= |cells|
  {
    (buf: seq<T>, size: nat, t: Turn) => Copy(cells, iend, buf, size, t)
  }

  datatype Fill<T> = Output(buf: seq<T>, size: nat) | Stopped(position: nat) | Unreadable

  /** What the decoder leaves in a buffer of `oend` cells of any kind. */
  function FillFrom<T>(src: seq<Byte>, iend: nat, ip: nat, buf: seq<T>, size: nat, oend: nat,
                       copy: Copier<T>): (r: Fill<T>)
    requires AtToken(src, iend, ip) && size <= oend
    ensures r.Output? ==> r.size <= oend
    decreases iend - ip
  {
    var t := ReadTurn(src, iend, ip, size, oend);
    if t.Error? then Stopped(t.position)
    else if t.Beyond? then Unreadable
    else if t.Last? then Output(copy(buf, size, t), size + iend - t.start)
    else FillFrom(src, iend, t.next, copy(buf, size, t), size + t.length + t.matchLength, oend, copy)
  }

  function FillCells<T>(src: seq<Byte>, cells: seq<T>, inputSize: nat, buf: seq<T>): (r: Fill<T>)
    requires inputSize <= |src| == |cells|
    ensures r.Output? ==> r.size <= |buf|
  {
    if |buf| == 0 then
      if inputSize == 1 && src[0] == 0 then Output(buf, 0) else Stopped(0)
    else FillFrom(src, inputSize, 0, buf, 0, |buf|, CopyFor(cells, inputSize))
  }

  /** What the decoder leaves in the buffer `buf`. */
  function FillAll(src: seq<Byte>, inputSize: nat, buf: seq<Byte>): (r: Fill<Byte>)
    requires inputSize <= |src|
    ensures r.Output? ==> r.size <= |buf|
  {
    FillCells(src, src, inputSize, buf)
  }

  /** A sequence with a proper offset leaves what it stands for. */
  lemma FillTurnProduces(src: seq<Byte>, iend: nat, buf: seq<Byte>, size: nat, t: Turn, w: nat, r: seq<Byte>,
                         more: seq<Byte>)
    requires iend <= |src| && Fits(t, iend, size, |buf|) && 0 < t.offset && w == Wild(t.length)
    requires r == FillTurn(src, iend, buf, size, t) && more == Produce(src, buf[..size], t)
    ensures r[..size + t.length + t.matchLength] == more
  {
    var copied, out := Put(buf, size, size + w, src, t.start), buf[..size] + Slice(src, t.start, t.start + t.length);
    PutPrefix(buf, copied, size, src, t.start, t.length, w);
    MatchProduces(copied, out, t.offset, t.matchLength, size + t.length, r);
  }

  lemma MatchProduces(copied: seq<Byte>, out: seq<Byte>, offset: nat, length: nat, op: nat, r: seq<Byte>)
    requires 1 <= offset <= |out| == op && MINMATCH <= length && out <= copied
    requires op + MFLIMIT <= |copied| && op + length + LASTLITERALS <= |copied|
    requires r == Match(copied, op, offset, length)
    ensures r[..op + length] == CopyMatch(out, offset, length)
  {
    MatchCopies(copied, out, offset, length);
  }

  /** A turn leaves `size` bytes and what it produces. */
  ghost predicate Copied(src: seq<Byte>, iend: nat, buf: seq<Byte>, size: nat, t: Turn, r: seq<Byte>)
    requires iend <= |src|
  {
    && |r| == |buf|
    && (Fits(t, iend, size, |buf|) && 0 < t.offset ==>
          r[..size + t.length + t.matchLength] == Produce(src, buf[..size], t))
    && (t.Last? && t.start <= iend && size + (iend - t.start) <= |buf| ==>
          r[..size + (iend - t.start)] == buf[..size] + Slice(src, t.start, iend))
  }

  lemma CopyIsCopied(src: seq<Byte>, iend: nat, buf: seq<Byte>, size: nat, t: Turn)
    requires iend <= |src|
    ensures Copied(src, iend, buf, size, t, Copy(src, iend, buf, size, t))
  {
    if Fits(t, iend, size, |buf|) {
      if 0 < t.offset {
        FillTurnProduces(src, iend, buf, size, t, Wild(t.length), FillTurn(src, iend, buf, size, t),
                         Produce(src, buf[..size], t));
      }
    } else if t.Last? && t.start <= iend && size + (iend - t.start) <= |buf| {
      var n := iend - t.start;
      PutPrefix(buf, Put(buf, size, size + n, src, t.start), size, src, t.start, n, n);
    }
  }

  /** The outcome says what is left in the buffer, unless a zero offset is met. */
  ghost predicate Leaves(expected: Outcome, fill: Fill<Byte>) {
    match expected
    case Decoded(output) => fill.Output? && fill.size == |output| <= |fill.buf| && fill.buf[..fill.size] == output
    case Malformed(position) => fill == Stopped(position)
    case Fault => fill == Unreadable
    case ZeroOffset => fill != Unreadable
  }

  /** Only the first turn can read behind the memory. */
  lemma {:induction false} FillReadable<T>(src: seq<Byte>, iend: nat, ip: nat, buf: seq<T>, size: nat, oend: nat,
                                           copy: Copier<T>)
    requires AtToken(src, iend, ip) && size <= oend
    ensures FillFrom(src, iend, ip, buf, size, oend, copy).Unreadable? <==> ReadTurn(src, iend, ip, size, oend).Beyond?
    decreases iend - ip
  {
    var t := ReadTurn(src, iend, ip, size, oend);
    if t.Pair? {
      FillReadable(src, iend, t.next, copy(buf, size, t), size + t.length + t.matchLength, oend, copy);
    }
  }

  /** What one turn answers, or where decoding goes on. */
  lemma DecodeStep(src: seq<Byte>, iend: nat, ip: nat, out: seq<Byte>, oend: nat, t: Turn, r: Outcome)
    requires AtToken(src, iend, ip) && |out| <= oend && r == DecodeFrom(src, iend, ip, out, oend)
    requires t == ReadTurn(src, iend, ip, |out|, oend)
    ensures t.Error? ==> r == Malformed(t.position)
    ensures t.Beyond? ==> r == Fault
    ensures t.Last? ==> r == Decoded(out + Slice(src, t.start, iend))
    ensures t.Pair? && t.offset == 0 ==> r == ZeroOffset
  {
  }

  lemma FillStep<T>(src: seq<Byte>, iend: nat, ip: nat, buf: seq<T>, size: nat, oend: nat, copy: Copier<T>, t: Turn,
                    next: seq<T>, fill: Fill<T>)
    requires AtToken(src, iend, ip) && size <= oend && fill == FillFrom(src, iend, ip, buf, size, oend, copy)
    requires t == ReadTurn(src, iend, ip, size, oend) && next == copy(buf, size, t)
    ensures t.Error? ==> fill == Stopped(t.position)
    ensures t.Beyond? ==> fill == Unreadable
    ensures t.Last? ==> fill == Output(next, size + iend - t.start)
    ensures t.Pair? ==> fill == FillFrom(src, iend, t.next, next, size + t.length + t.matchLength, oend, copy)
  {
  }

  /** A turn that ends the run, for a buffer that begins with the output so far. */
  lemma EndLeaves(src: seq<Byte>, iend: nat, out: seq<Byte>, buf: seq<Byte>, t: Turn, next: seq<Byte>)
    requires iend <= |src| && |out| <= |buf| && out == buf[..|out|] && Copied(src, iend, buf, |out|, t, next)
    requires t.Last? && t.start <= iend && |out| + (iend - t.start) <= |buf|
    ensures Leaves(Decoded(out + Slice(src, t.start, iend)), Output(next, |out| + iend - t.start))
  {
  }

  lemma PairLeaves(src: seq<Byte>, iend: nat, out: seq<Byte>, buf: seq<Byte>, t: Turn, next: seq<Byte>)
    requires iend <= |src| && |out| <= |buf| && out == buf[..|out|] && Copied(src, iend, buf, |out|, t, next)
    requires Fits(t, iend, |out|, |buf|) && 0 < t.offset
    ensures |next| == |buf| && Produce(src, out, t) == next[..|out| + t.length + t.matchLength]
  {
  }

  lemma {:induction false} FillLeaves(src: seq<Byte>, iend: nat, ip: nat, out: seq<Byte>, buf: seq<Byte>,
                                      copy: Copier<Byte>, r: Outcome, fill: Fill<Byte>)
    requires AtToken(src, iend, ip) && |out| <= |buf| && out == buf[..|out|]
    requires forall b, n, t :: Copied(src, iend, b, n, t, copy(b, n, t))
    requires r == DecodeFrom(src, iend, ip, out, |buf|) && fill == FillFrom(src, iend, ip, buf, |out|, |buf|, copy)
    ensures Leaves(r, fill)
    decreases iend - ip
  {
    var t := ReadTurn(src, iend, ip, |out|, |buf|);
    var next := copy(buf, |out|, t);
    DecodeStep(src, iend, ip, out, |buf|, t, r);
    FillStep(src, iend, ip, buf, |out|, |buf|, copy, t, next, fill);
    if t.Last? {
      EndLeaves(src, iend, out, buf, t, next);
    } else if t.Pair? && t.offset == 0 {
      FillReadable(src, iend, ip, buf, |out|, |buf|, copy);
    } else if t.Pair? {
      PairLeaves(src, iend, out, buf, t, next);
      DecodePair(src, iend, ip, out, |buf|, t, Produce(src, out, t), r);
      FillLeaves(src, iend, t.next, Produce(src, out, t), next, copy, r, fill);
    }
  }

  lemma DecodeLeaves(src: seq<Byte>, inputSize: nat, buf: seq<Byte>)
    requires inputSize <= |src|
    ensures Leaves(Decode(src, inputSize, |buf|), FillAll(src, inputSize, buf))
  {
    if |buf| != 0 {
      var copy := CopyFor(src, inputSize);
      forall b, n, t
        ensures Copied(src, inputSize, b, n, t, copy(b, n, t))
      {
        CopyIsCopied(src, inputSize, b, n, t);
      }
      FillLeaves(src, inputSize, 0, [], buf, copy, Decode(src, inputSize, |buf|), FillAll(src, inputSize, buf));
    }
  }

  lemma ReadableTurn(src: seq<Byte>, iend: nat, size: nat, oend: nat)
    requires iend <= |src|
    ensures ReadTurn(src, iend, 0, size, oend).Beyond? <==> |src| == 0 || (|src| == 1 && 240 <= src[0])
  {
  }

  // ---------------------------------------------------------------- the fast decoder

  /** The token's literal length, with its do-while loop over continuation bytes. */
  method LiteralLength(src: seq<Byte>, iend: nat, at: nat) returns (ip: nat, length: nat)
    requires AtToken(src, iend, at) && ReadLiteralLength(src, iend, at).Run?
    ensures Run(ip, length) == ReadLiteralLength(src, iend, at)
  {
    ip, length := at + 1, src[at] / 16;
    if length == RUN_MASK {
      var s: nat := src[ip];
      ip, length := ip + 1, length + s;
      while ip < iend - RUN_MASK && s == 255
        invariant at + 1 < ip <= |src| && s == src[ip - 1] && s <= length
        invariant LiteralRun(src, iend, at + 1, RUN_MASK) == LiteralRun(src, iend, ip - 1, length - s)
      {
        s := src[ip];
        ip, length := ip + 1, length + s;
      }
    }
  }

  /** The token's match length, with its do-while loop over continuation bytes. */
  method MatchLength(src: seq<Byte>, iend: nat, token: Byte, at: nat) returns (r: Run)
    requires iend <= |src| && at + 6 <= iend
    ensures r == ReadMatchLength(src, iend, token, at)
  {
    if token % 16 != RUN_MASK {
      return Run(at, token % 16);
    }
    var ip: nat, length: nat := at, RUN_MASK;
    while true
      invariant at <= ip && MatchRun(src, iend, at, RUN_MASK) == MatchRun(src, iend, ip, length)
      decreases iend - ip
    {
      if ip > iend - LASTLITERALS {
        return Overrun(ip);
      }
      var s: nat := src[ip];
      ip, length := ip + 1, length + s;
      if s != 255 {
        return Run(ip, length);
      }
    }
  }

  /** The back reference after `length` literals read from `start`, applied to the output so far. */
  method CopyBackReference(src: seq<Byte>, iend: nat, token: Byte, ghost start: nat, ghost length: nat, at: nat,
                           dst: array<Byte>, op: nat)
    returns (more: bool, result: int, ip: nat, end: nat)
    requires iend <= |src| && at == start + length && at + 8 <= iend && length <= op && op + MFLIMIT <= dst.Length
    modifies dst
    ensures var t := ReadBackReference(src, iend, token, start, length, op - length, dst.Length);
            && more == t.Pair?
            && (t.Error? ==> result == -1 - t.position)
            && (t.Pair? ==> ip == t.next && end == op + t.matchLength
                            && dst[..] == Match(old(dst[..]), op, t.offset, t.matchLength))
  {
    more, result, ip, end := false, 0, at + 2, op;
    var offset := ReadOffset(src, at);
    if offset > op {
      result := -1 - ip;
      return;
    }
    var run := MatchLength(src, iend, token, ip);
    if run.Overrun? {
      result := -1 - run.at;
      return;
    }
    var matchLength := run.length + MINMATCH;
    ip := run.ip;
    if op + matchLength > dst.Length - LASTLITERALS {
      result := -1 - ip;
      return;
    }
    CopyMatchInPlace(dst, op, offset, matchLength);
    more, end := true, op + matchLength;
  }

  /** One turn of the main loop: the sequence at `at` is appended to the `size` bytes already in
      `dst`, or the run ends with a result. */
  method DecodeTurn(src: seq<Byte>, iend: nat, at: nat, dst: array<Byte>, size: nat)
    returns (more: bool, result: int, ip: nat, op: nat)
    requires AtToken(src, iend, at) && size <= dst.Length && !ReadTurn(src, iend, at, size, dst.Length).Beyond?
    modifies dst
    ensures var t := ReadTurn(src, iend, at, size, dst.Length);
            && more == t.Pair?
            && (t.Error? ==> result == -1 - t.position)
            && (t.Last? ==> result == size + iend - t.start
                            && dst[..] == Put(old(dst[..]), size, result, src, t.start))
            && (t.Pair? ==> ip == t.next && op == size + t.length + t.matchLength
                            && dst[..] == FillTurn(src, iend, old(dst[..]), size, t))
  {
    more, result, op := false, 0, size;
    var length;
    ip, length := LiteralLength(src, iend, at);
    ghost var t := ReadTurn(src, iend, at, size, dst.Length);
    var cpy := op + length;
    if cpy > dst.Length - MFLIMIT || ip + length > iend - (2 + 1 + LASTLITERALS) {
      if ip + length != iend || cpy > dst.Length {
        result := -1 - ip;
      } else {
        CopyFrom(dst, op, src, ip, length);
        result := cpy;
      }
    } else {
      WildCopyFrom(dst, op, src, ip, length);
      assert t == ReadBackReference(src, iend, src[at], ip, length, size, dst.Length);
      more, result, ip, op := CopyBackReference(src, iend, src[at], ip, length, ip + length, dst, cpy);
    }
  }

  /** A negative result is the position of the error, negated, minus one. */
  ghost predicate Answers(fill: Fill<Byte>, result: int, out: seq<Byte>) {
    match fill
    case Output(buf, size) => result == size && out == buf
    case Stopped(position) => result == -1 - position
    case Unreadable => false
  }

  /** The turns from `ip` on, with the buffer as it is, lead to `fill`. */
  ghost predicate LeadsTo(src: seq<Byte>, iend: nat, ip: nat, buf: seq<Byte>, size: nat, copy: Copier<Byte>,
                          fill: Fill<Byte>)
  {
    && AtToken(src, iend, ip) && size <= |buf| && !ReadTurn(src, iend, ip, size, |buf|).Beyond?
    && fill == FillFrom(src, iend, ip, buf, size, |buf|, copy)
  }

  lemma LeadsOn(src: seq<Byte>, iend: nat, ip: nat, buf: seq<Byte>, size: nat, copy: Copier<Byte>, fill: Fill<Byte>,
                t: Turn, next: seq<Byte>, end: nat)
    requires LeadsTo(src, iend, ip, buf, size, copy, fill) && t == ReadTurn(src, iend, ip, size, |buf|)
    requires !t.Error? ==> next == copy(buf, size, t) && |next| == |buf|
    requires t.Pair? ==> end == size + t.length + t.matchLength
    ensures t.Error? ==> fill == Stopped(t.position)
    ensures t.Last? ==> fill == Output(next, size + iend - t.start)
    ensures t.Pair? ==> LeadsTo(src, iend, t.next, next, end, copy, fill)
  {
  }

  method Advance(src: seq<Byte>, iend: nat, at: nat, dst: array<Byte>, size: nat, ghost copy: Copier<Byte>,
                 ghost fill: Fill<Byte>)
    returns (more: bool, result: int, ip: nat, op: nat)
    requires iend <= |src| && copy == CopyFor(src, iend) && LeadsTo(src, iend, at, dst[..], size, copy, fill)
    modifies dst
    ensures more ==> at < ip && LeadsTo(src, iend, ip, dst[..], op, copy, fill)
    ensures !more ==> Answers(fill, result, dst[..])
  {
    ghost var before, t := dst[..], ReadTurn(src, iend, at, size, dst.Length);
    more, result, ip, op := DecodeTurn(src, iend, at, dst, size);
    LeadsOn(src, iend, at, before, size, copy, fill, t, dst[..], op);
  }

  /** `LZ4_decompress_safe`. The input block is the first `inputSize` bytes of `src`; a block
      shorter than two bytes may be read two bytes deep. Nothing outside `dst` is written. */
  method Decompress(src: seq<Byte>, inputSize: nat, dst: array<Byte>) returns (result: int)
    requires inputSize <= |src| && Readable(src, dst.Length)
    modifies dst
    ensures Answers(FillAll(src, inputSize, old(dst[..])), result, dst[..])
    ensures Leaves(Decode(src, inputSize, dst.Length), FillAll(src, inputSize, old(dst[..])))
  {
    DecodeLeaves(src, inputSize, dst[..]);
    if dst.Length == 0 {
      return if inputSize == 1 && src[0] == 0 then 0 else -1;
    }
    ghost var copy, fill := CopyFor(src, inputSize), FillAll(src, inputSize, dst[..]);
    ReadableTurn(src, inputSize, 0, dst.Length);
    var ip: nat, op: nat, more := 0, 0, true;
    result := 0;
    while more
      invariant more ==> LeadsTo(src, inputSize, ip, dst[..], op, copy, fill)
      invariant !more ==> Answers(fill, result, dst[..])
      decreases more, inputSize - ip
    {
      more, result, ip, op := Advance(src, inputSize, ip, dst, op, copy, fill);
    }
  }
}
