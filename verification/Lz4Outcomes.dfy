/**
 Which answer the LZ4 decoder gives, said by the format and without a reader: a block begins with as many whole
 sequences as it may, and what stands behind them decides.
 */
module Lz4Outcomes {
  import opened Machine
  import opened Lz4Format
  import opened Lz4Decompress

  // ---------------------------------------------------------------- what stands behind the sequences

  /** A token at `k` with its literal length: `length` literals begin at `start`. */
  ghost predicate Header(src: seq<Byte>, iend: nat, k: nat, length: nat, start: nat) {
    && k < |src| && src[k] / 16 == Nibble(length) && start == k + 1 + |Extension(length)|
    && BytesAt(src, k + 1, Extension(length))
    && (|Extension(length)| <= 1 || start - 1 < iend - RUN_MASK)
  }

  /** A literal length that goes on at the very end of the block. */
  ghost predicate EndlessHeader(src: seq<Byte>, iend: nat, k: nat, start: nat) {
    && k + 1 < start <= |src| && src[k] / 16 == RUN_MASK && iend - RUN_MASK <= start
    && (start == k + 2 || start - 1 < iend - RUN_MASK)
    && forall i :: k < i < start ==> src[i] == 255
  }

  /** There is no room for a match behind these literals. */
  ghost predicate MustEnd(iend: nat, oend: nat, size: nat, length: nat, start: nat) {
    size + length > oend - MFLIMIT || start + length > iend - (2 + 1 + LASTLITERALS)
  }

  /** Behind the literals at `start` a match may follow, and its offset is within the output. */
  ghost predicate MatchMayFollow(src: seq<Byte>, iend: nat, oend: nat, size: nat, k: nat, length: nat, start: nat) {
    && iend <= |src| && Header(src, iend, k, length, start) && !MustEnd(iend, oend, size, length, start)
    && ReadOffset(src, start + length) <= size + length
  }

  /** The match length at `p`, behind the offset, and where it ends. */
  ghost predicate MatchCode(src: seq<Byte>, iend: nat, token: Byte, p: nat, code: nat, next: nat) {
    && token % 16 == Nibble(code) && BytesAt(src, p, Extension(code)) && next == p + |Extension(code)|
    && (Extension(code) != [] ==> next - 1 <= iend - LASTLITERALS)
  }

  /** The literals must be the last, but they do not end with the block or do not fit. */
  ghost predicate WrongEnd(src: seq<Byte>, iend: nat, oend: nat, size: nat, k: nat, length: nat, position: nat) {
    && Header(src, iend, k, length, position) && MustEnd(iend, oend, size, length, position)
    && (position + length != iend || size + length > oend)
  }

  /** The offset points in front of the output. */
  ghost predicate WrongOffset(src: seq<Byte>, iend: nat, oend: nat, size: nat, k: nat, length: nat, start: nat,
                              position: nat) {
    && iend <= |src| && Header(src, iend, k, length, start) && !MustEnd(iend, oend, size, length, start)
    && ReadOffset(src, start + length) > size + length && position == start + length + 2
  }

  /** The match length runs into the last literals. */
  ghost predicate EndlessMatch(src: seq<Byte>, iend: nat, oend: nat, size: nat, k: nat, length: nat, start: nat,
                               position: nat) {
    && MatchMayFollow(src, iend, oend, size, k, length, start)
    && src[k] % 16 == RUN_MASK && position == iend - LASTLITERALS + 1
    && forall i :: start + length + 2 <= i < position ==> src[i] == 255
  }

  /** The match does not fit the output. */
  ghost predicate LongMatch(src: seq<Byte>, iend: nat, oend: nat, size: nat, k: nat, length: nat, start: nat, code: nat,
                            position: nat) {
    && MatchMayFollow(src, iend, oend, size, k, length, start)
    && MatchCode(src, iend, src[k], start + length + 2, code, position)
    && size + length + code + MINMATCH + LASTLITERALS > oend
  }

  /** The decoder stumbles over what is at `k`, having produced `size` bytes, and reports `position`. */
  ghost predicate Stumbles(src: seq<Byte>, iend: nat, oend: nat, size: nat, k: nat, position: nat) {
    || EndlessHeader(src, iend, k, position)
    || (exists length: nat :: WrongEnd(src, iend, oend, size, k, length, position))
    || (exists length: nat, start: nat :: WrongOffset(src, iend, oend, size, k, length, start, position))
    || (exists length: nat, start: nat :: EndlessMatch(src, iend, oend, size, k, length, start, position))
    || (exists length: nat, start: nat, code: nat :: LongMatch(src, iend, oend, size, k, length, start, code, position))
  }

  /** A sequence that is in order but for its offset, which is zero. */
  ghost predicate SelfCopy(src: seq<Byte>, iend: nat, oend: nat, size: nat, k: nat, length: nat, start: nat, code: nat,
                           next: nat) {
    && MatchMayFollow(src, iend, oend, size, k, length, start) && ReadOffset(src, start + length) == 0
    && MatchCode(src, iend, src[k], start + length + 2, code, next)
    && size + length + code + MINMATCH + LASTLITERALS <= oend
  }

  /** The last literals, up to the end of the block. */
  ghost predicate LastLiterals(src: seq<Byte>, iend: nat, oend: nat, size: nat, k: nat, last: seq<Byte>, code: nat) {
    && code <= RUN_MASK && BytesAt(src, k, EncodeLiterals(Token(|last|, code), last))
    && k + |EncodeLiterals(Token(|last|, code), last)| == iend && size + |last| <= oend
  }

  ghost predicate Ending(src: seq<Byte>, iend: nat, oend: nat, ss: Block, r: Outcome)
    requires Valid(ss, oend)
  {
    var k, size := |EncodeSequences(ss)|, ExpandedSize(ss);
    match r
    case Decoded(out) =>
      exists last: seq<Byte>, code: nat ::
        LastLiterals(src, iend, oend, size, k, last, code) && out == Expand(ss, last, oend)
    case Malformed(position) => Stumbles(src, iend, oend, size, k, position)
    case ZeroOffset =>
      exists length: nat, start: nat, code: nat, next: nat ::
        SelfCopy(src, iend, oend, size, k, length, start, code, next)
    case Fault => k == 0 && (src == [] || (|src| == 1 && src[0] / 16 == RUN_MASK))
  }

  /** The block begins with these sequences. */
  ghost predicate Begins(src: seq<Byte>, iend: nat, oend: nat, ss: Block) {
    Valid(ss, oend) && AllRoomy(ss, iend) && BytesAt(src, 0, EncodeSequences(ss))
  }

  // ---------------------------------------------------------------- lengths

  lemma {:induction false} LiteralRunFollows(src: seq<Byte>, iend: nat, ip: nat, length: nat, n: nat)
    requires iend <= |src| && BytesAt(src, ip, LengthBytes(n))
    requires |LengthBytes(n)| <= 1 || ip + |LengthBytes(n)| - 1 < iend - RUN_MASK
    ensures LiteralRun(src, iend, ip, length) == Run(ip + |LengthBytes(n)|, length + n)
    decreases n
  {
    FirstByte(src, ip, LengthBytes(n));
    if n >= 255 {
      BytesAtSplit(src, ip, [255], LengthBytes(n - 255));
      LiteralRunFollows(src, iend, ip + 1, length + 255, n - 255);
    }
  }

  lemma {:induction false} LiteralRunStops(src: seq<Byte>, iend: nat, ip: nat, length: nat, end: nat)
    requires iend <= |src| && ip < end <= |src| && iend - RUN_MASK <= end
    requires end == ip + 1 || end - 1 < iend - RUN_MASK
    requires forall i :: ip <= i < end ==> src[i] == 255
    ensures LiteralRun(src, iend, ip, length) == Run(end, length + 255 * (end - ip))
    decreases end - ip
  {
    if ip + 1 < end {
      LiteralRunStops(src, iend, ip + 1, length + 255, end);
    }
  }

  /** What a literal length was read from. */
  lemma {:induction false} LiteralRunFrom(src: seq<Byte>, iend: nat, ip: nat, length: nat, r: Run)
    requires iend <= |src| && ip < |src| && r == LiteralRun(src, iend, ip, length)
    ensures r.Run? && ip < r.ip <= |src| && length <= r.length && (r.ip == ip + 1 || r.ip - 1 < iend - RUN_MASK)
    ensures src[r.ip - 1] != 255 ==>
              BytesAt(src, ip, LengthBytes(r.length - length)) && r.ip == ip + |LengthBytes(r.length - length)|
    ensures src[r.ip - 1] == 255 ==>
              && iend - RUN_MASK <= r.ip && r.length == length + 255 * (r.ip - ip)
              && forall i :: ip <= i < r.ip ==> src[i] == 255
    decreases iend - ip
  {
    if ip + 1 < iend - RUN_MASK && src[ip] == 255 {
      LiteralRunFrom(src, iend, ip + 1, length + 255, r);
      var n := r.length - length;
      if src[r.ip - 1] != 255 {
        JoinBytes(src, ip, [255], LengthBytes(n - 255));
      }
    } else if src[ip] != 255 {
      assert src[ip..ip + 1] == [src[ip]];
    }
  }

  lemma JoinBytes(src: seq<Byte>, at: nat, a: seq<Byte>, b: seq<Byte>)
    requires BytesAt(src, at, a) && BytesAt(src, at + |a|, b)
    ensures BytesAt(src, at, a + b)
  {
    assert src[at..at + |a + b|] == src[at..at + |a|] + src[at + |a|..at + |a| + |b|];
  }

  lemma {:induction false} MatchRunStops(src: seq<Byte>, iend: nat, ip: nat, length: nat)
    requires iend <= |src| && ip <= iend - LASTLITERALS + 1
    requires forall i :: ip <= i <= iend - LASTLITERALS ==> src[i] == 255
    ensures MatchRun(src, iend, ip, length) == Overrun(iend - LASTLITERALS + 1)
    decreases iend - ip
  {
    if ip <= iend - LASTLITERALS {
      MatchRunStops(src, iend, ip + 1, length + 255);
    }
  }

  /** What a match length was read from. */
  lemma {:induction false} MatchRunFrom(src: seq<Byte>, iend: nat, ip: nat, length: nat, r: Run)
    requires iend <= |src| && ip <= iend - LASTLITERALS + 1 && r == MatchRun(src, iend, ip, length)
    ensures r.Run? ==>
              && length <= r.length && BytesAt(src, ip, LengthBytes(r.length - length))
              && r.ip == ip + |LengthBytes(r.length - length)| <= iend - LASTLITERALS + 1
    ensures r.Overrun? ==>
              r.at == iend - LASTLITERALS + 1 && forall i :: ip <= i < r.at ==> src[i] == 255
    decreases iend - ip
  {
    if ip <= iend - LASTLITERALS {
      if src[ip] == 255 {
        MatchRunFrom(src, iend, ip + 1, length + 255, r);
        if r.Run? {
          JoinBytes(src, ip, [255], LengthBytes(r.length - length - 255));
        }
      } else {
        assert src[ip..ip + 1] == [src[ip]];
      }
    }
  }

  // ---------------------------------------------------------------- headers and match codes

  lemma HeaderRead(src: seq<Byte>, iend: nat, k: nat, length: nat, start: nat)
    requires AtToken(src, iend, k) && Header(src, iend, k, length, start)
    ensures ReadLiteralLength(src, iend, k) == Run(start, length)
  {
    if length >= RUN_MASK {
      LiteralRunFollows(src, iend, k + 1, RUN_MASK, length - RUN_MASK);
    }
  }

  lemma EndlessRead(src: seq<Byte>, iend: nat, k: nat, start: nat) returns (length: nat)
    requires AtToken(src, iend, k) && EndlessHeader(src, iend, k, start)
    ensures ReadLiteralLength(src, iend, k) == Run(start, length) && start + length > iend
  {
    LiteralRunStops(src, iend, k + 1, RUN_MASK, start);
    length := RUN_MASK + 255 * (start - k - 1);
  }

  lemma HeaderFrom(src: seq<Byte>, iend: nat, k: nat, length: nat, start: nat)
    requires AtToken(src, iend, k) && ReadLiteralLength(src, iend, k) == Run(start, length)
    ensures Header(src, iend, k, length, start) || (EndlessHeader(src, iend, k, start) && start + length > iend)
  {
    if src[k] / 16 == RUN_MASK {
      LiteralRunFrom(src, iend, k + 1, RUN_MASK, Run(start, length));
    }
  }

  lemma MatchCodeRead(src: seq<Byte>, iend: nat, token: Byte, p: nat, code: nat, next: nat)
    requires iend <= |src| && p + 6 <= iend && MatchCode(src, iend, token, p, code, next)
    ensures ReadMatchLength(src, iend, token, p) == Run(next, code)
  {
    if code >= RUN_MASK {
      MatchRunReads(src, iend, p, RUN_MASK, code - RUN_MASK);
    }
  }

  lemma MatchCodeFrom(src: seq<Byte>, iend: nat, token: Byte, p: nat, r: Run)
    requires iend <= |src| && p + 6 <= iend && r == ReadMatchLength(src, iend, token, p)
    ensures r.Run? ==> MatchCode(src, iend, token, p, r.length, r.ip)
    ensures r.Overrun? ==>
              && token % 16 == RUN_MASK && r.at == iend - LASTLITERALS + 1
              && forall i :: p <= i < r.at ==> src[i] == 255
  {
    if token % 16 == RUN_MASK {
      MatchRunFrom(src, iend, p, RUN_MASK, r);
    }
  }

  // ---------------------------------------------------------------- one turn

  lemma TurnBehindHeader(src: seq<Byte>, iend: nat, oend: nat, size: nat, k: nat, length: nat, start: nat, t: Turn)
    requires AtToken(src, iend, k) && Header(src, iend, k, length, start) && t == ReadTurn(src, iend, k, size, oend)
    ensures MustEnd(iend, oend, size, length, start) ==>
              t == if start + length != iend || size + length > oend then Error(start) else Last(start)
    ensures !MustEnd(iend, oend, size, length, start) ==>
              t == ReadBackReference(src, iend, src[k], start, length, size, oend)
  {
    HeaderRead(src, iend, k, length, start);
  }

  lemma EndlessTurn(src: seq<Byte>, iend: nat, oend: nat, size: nat, k: nat, start: nat)
    requires AtToken(src, iend, k) && EndlessHeader(src, iend, k, start)
    ensures ReadTurn(src, iend, k, size, oend) == Error(start)
  {
    var length := EndlessRead(src, iend, k, start);
  }

  /** The turn behind a header that lets a match follow. */
  lemma MatchTurn(src: seq<Byte>, iend: nat, oend: nat, size: nat, k: nat, length: nat, start: nat, t: Turn, run: Run)
    requires AtToken(src, iend, k) && MatchMayFollow(src, iend, oend, size, k, length, start)
    requires t == ReadTurn(src, iend, k, size, oend)
    requires run == ReadMatchLength(src, iend, src[k], start + length + 2)
    ensures run.Overrun? ==> t == Error(run.at)
    ensures run.Run? && size + length + run.length + MINMATCH + LASTLITERALS > oend ==> t == Error(run.ip)
    ensures run.Run? && size + length + run.length + MINMATCH + LASTLITERALS <= oend ==>
              t == Pair(start, length, ReadOffset(src, start + length), run.length + MINMATCH, run.ip)
  {
    TurnBehindHeader(src, iend, oend, size, k, length, start, t);
  }

  lemma WrongEndTurn(src: seq<Byte>, iend: nat, oend: nat, size: nat, k: nat, length: nat, position: nat)
    requires AtToken(src, iend, k) && WrongEnd(src, iend, oend, size, k, length, position)
    ensures ReadTurn(src, iend, k, size, oend) == Error(position)
  {
    TurnBehindHeader(src, iend, oend, size, k, length, position, ReadTurn(src, iend, k, size, oend));
  }

  lemma WrongOffsetTurn(src: seq<Byte>, iend: nat, oend: nat, size: nat, k: nat, length: nat, start: nat,
                        position: nat)
    requires AtToken(src, iend, k) && WrongOffset(src, iend, oend, size, k, length, start, position)
    ensures ReadTurn(src, iend, k, size, oend) == Error(position)
  {
    TurnBehindHeader(src, iend, oend, size, k, length, start, ReadTurn(src, iend, k, size, oend));
  }

  lemma EndlessMatchTurn(src: seq<Byte>, iend: nat, oend: nat, size: nat, k: nat, length: nat, start: nat,
                         position: nat)
    requires AtToken(src, iend, k) && EndlessMatch(src, iend, oend, size, k, length, start, position)
    ensures ReadTurn(src, iend, k, size, oend) == Error(position)
  {
    MatchRunStops(src, iend, start + length + 2, RUN_MASK);
    MatchTurn(src, iend, oend, size, k, length, start, ReadTurn(src, iend, k, size, oend), Overrun(position));
  }

  lemma LongMatchTurn(src: seq<Byte>, iend: nat, oend: nat, size: nat, k: nat, length: nat, start: nat, code: nat,
                      position: nat)
    requires AtToken(src, iend, k) && LongMatch(src, iend, oend, size, k, length, start, code, position)
    ensures ReadTurn(src, iend, k, size, oend) == Error(position)
  {
    MatchCodeRead(src, iend, src[k], start + length + 2, code, position);
    MatchTurn(src, iend, oend, size, k, length, start, ReadTurn(src, iend, k, size, oend), Run(position, code));
  }

  lemma StumbleTurn(src: seq<Byte>, iend: nat, oend: nat, size: nat, k: nat, position: nat)
    requires AtToken(src, iend, k) && Stumbles(src, iend, oend, size, k, position)
    ensures ReadTurn(src, iend, k, size, oend) == Error(position)
  {
    if EndlessHeader(src, iend, k, position) {
      EndlessTurn(src, iend, oend, size, k, position);
    } else if length: nat :| WrongEnd(src, iend, oend, size, k, length, position) {
      WrongEndTurn(src, iend, oend, size, k, length, position);
    } else if length: nat, start: nat :| WrongOffset(src, iend, oend, size, k, length, start, position) {
      WrongOffsetTurn(src, iend, oend, size, k, length, start, position);
    } else if length: nat, start: nat :| EndlessMatch(src, iend, oend, size, k, length, start, position) {
      EndlessMatchTurn(src, iend, oend, size, k, length, start, position);
    } else {
      var length: nat, start: nat, code: nat :| LongMatch(src, iend, oend, size, k, length, start, code, position);
      LongMatchTurn(src, iend, oend, size, k, length, start, code, position);
    }
  }

  lemma SelfCopyTurn(src: seq<Byte>, iend: nat, oend: nat, size: nat, k: nat, length: nat, start: nat, code: nat,
                     next: nat)
    requires AtToken(src, iend, k) && SelfCopy(src, iend, oend, size, k, length, start, code, next)
    ensures ReadTurn(src, iend, k, size, oend) == Pair(start, length, 0, code + MINMATCH, next)
  {
    MatchCodeRead(src, iend, src[k], start + length + 2, code, next);
    MatchTurn(src, iend, oend, size, k, length, start, ReadTurn(src, iend, k, size, oend), Run(next, code));
  }

  /** What a turn that fails has met. */
  lemma ErrorFrom(src: seq<Byte>, iend: nat, oend: nat, size: nat, k: nat, position: nat)
    requires AtToken(src, iend, k) && ReadTurn(src, iend, k, size, oend) == Error(position)
    ensures Stumbles(src, iend, oend, size, k, position)
  {
    var Run(start, length) := ReadLiteralLength(src, iend, k);
    HeaderFrom(src, iend, k, length, start);
    if !EndlessHeader(src, iend, k, position) {
      if !Header(src, iend, k, length, start) {
        EndlessTurn(src, iend, oend, size, k, start);
        assert false;
      } else if MustEnd(iend, oend, size, length, start) {
        assert WrongEnd(src, iend, oend, size, k, length, position);
      } else if ReadOffset(src, start + length) > size + length {
        assert WrongOffset(src, iend, oend, size, k, length, start, position);
      } else {
        MatchErrorFrom(src, iend, oend, size, k, length, start, position);
      }
    }
  }

  lemma MatchErrorFrom(src: seq<Byte>, iend: nat, oend: nat, size: nat, k: nat, length: nat, start: nat,
                       position: nat)
    requires AtToken(src, iend, k) && ReadTurn(src, iend, k, size, oend) == Error(position)
    requires MatchMayFollow(src, iend, oend, size, k, length, start)
    ensures Stumbles(src, iend, oend, size, k, position)
  {
    var run := ReadMatchLength(src, iend, src[k], start + length + 2);
    MatchTurn(src, iend, oend, size, k, length, start, Error(position), run);
    MatchCodeFrom(src, iend, src[k], start + length + 2, run);
    if run.Overrun? {
      assert EndlessMatch(src, iend, oend, size, k, length, start, position);
    } else {
      assert LongMatch(src, iend, oend, size, k, length, start, run.length, position);
    }
  }

  lemma PairHeader(src: seq<Byte>, iend: nat, oend: nat, size: nat, k: nat, t: Turn)
    requires AtToken(src, iend, k) && t == ReadTurn(src, iend, k, size, oend) && t.Pair?
    ensures ReadLiteralLength(src, iend, k) == Run(t.start, t.length)
    ensures MatchMayFollow(src, iend, oend, size, k, t.length, t.start)
  {
    var Run(start, length) := ReadLiteralLength(src, iend, k);
    HeaderFrom(src, iend, k, length, start);
    if !Header(src, iend, k, length, start) {
      EndlessTurn(src, iend, oend, size, k, start);
      assert false;
    }
    TurnBehindHeader(src, iend, oend, size, k, length, start, t);
  }

  /** What a turn that reads a sequence has met. */
  lemma PairFrom(src: seq<Byte>, iend: nat, oend: nat, size: nat, k: nat, t: Turn)
    requires AtToken(src, iend, k) && t == ReadTurn(src, iend, k, size, oend) && t.Pair?
    ensures MatchMayFollow(src, iend, oend, size, k, t.length, t.start)
    ensures t.offset == ReadOffset(src, t.start + t.length)
    ensures MatchCode(src, iend, src[k], t.start + t.length + 2, t.matchLength - MINMATCH, t.next)
    ensures t.offset == 0 ==>
              SelfCopy(src, iend, oend, size, k, t.length, t.start, t.matchLength - MINMATCH, t.next)
  {
    PairHeader(src, iend, oend, size, k, t);
    var run := ReadMatchLength(src, iend, src[k], t.start + t.length + 2);
    MatchTurn(src, iend, oend, size, k, t.length, t.start, t, run);
    MatchCodeFrom(src, iend, src[k], t.start + t.length + 2, run);
  }

  /** What a turn that ends the block has met. */
  lemma LastHeader(src: seq<Byte>, iend: nat, oend: nat, size: nat, k: nat, start: nat, length: nat)
    requires AtToken(src, iend, k) && ReadTurn(src, iend, k, size, oend) == Last(start) && length == iend - start
    ensures Header(src, iend, k, length, start) && size + length <= oend
  {
    var r := ReadLiteralLength(src, iend, k);
    HeaderFrom(src, iend, k, r.length, r.ip);
  }

  lemma LastFrom(src: seq<Byte>, iend: nat, oend: nat, size: nat, k: nat, start: nat)
    requires AtToken(src, iend, k) && ReadTurn(src, iend, k, size, oend) == Last(start)
    ensures LastLiterals(src, iend, oend, size, k, Slice(src, start, iend), src[k] % 16)
  {
    var length := iend - start;
    LastHeader(src, iend, oend, size, k, start, length);
    LiteralsAt(src, k, length, start);
  }

  lemma LiteralsAt(src: seq<Byte>, k: nat, length: nat, start: nat)
    requires k < |src| && src[k] / 16 == Nibble(length) && BytesAt(src, k + 1, Extension(length))
    requires start == k + 1 + |Extension(length)| && start + length <= |src|
    ensures src[k] == Token(length, src[k] % 16)
    ensures var literals := Slice(src, start, start + length);
            && BytesAt(src, k, EncodeLiterals(src[k], literals))
            && |EncodeLiterals(src[k], literals)| == start + length - k
  {
    var literals := Slice(src, start, start + length);
    assert BytesAt(src, k, [src[k]]);
    JoinBytes(src, k, [src[k]], Extension(length));
    assert BytesAt(src, start, literals) by {
      assert src[start..start + length] == literals;
    }
    JoinBytes(src, k, [src[k]] + Extension(length), literals);
  }

  lemma MatchAt(src: seq<Byte>, p: nat, code: nat)
    requires p + 2 <= |src| && BytesAt(src, p + 2, Extension(code))
    ensures ReadOffset(src, p) <= MAX_DISTANCE && BytesAt(src, p, EncodeMatch(ReadOffset(src, p), code))
  {
    var offset := ReadOffset(src, p);
    assert offset % 256 == src[p] && offset / 256 == src[p + 1];
    assert BytesAt(src, p, [src[p], src[p + 1]]) by {
      assert src[p..p + 2] == [src[p], src[p + 1]];
    }
    JoinBytes(src, p, [src[p], src[p + 1]], Extension(code));
  }

  lemma TokenOf(length: nat, code: nat, token: Byte)
    requires token / 16 == Nibble(length) && token % 16 == Nibble(code)
    ensures token == Token(length, code) == Token(length, token % 16)
  {
  }

  /** Header, literals, offset and match code make up a sequence. */
  lemma SequenceAt(src: seq<Byte>, k: nat, start: nat, literals: seq<Byte>, code: nat, s: Sequence)
    requires k < |src| && src[k] == Token(|literals|, code) && start == k + 1 + |Extension(|literals|)|
    requires BytesAt(src, k, EncodeLiterals(src[k], literals)) && start + |literals| + 2 <= |src|
    requires BytesAt(src, start + |literals| + 2, Extension(code))
    requires s == Sequence(literals, ReadOffset(src, start + |literals|), code + MINMATCH) && 0 < s.offset
    ensures Encodable(s) && BytesAt(src, k, EncodeSequence(s))
    ensures |EncodeSequence(s)| == start + |literals| + 2 + |Extension(code)| - k
  {
    var head := EncodeLiterals(src[k], literals);
    MatchAt(src, start + |literals|, code);
    JoinBytes(src, k, head, EncodeMatch(s.offset, code));
    SequenceSize(s, head, EncodeMatch(s.offset, code));
  }

  /** The sequence that a turn has read. */
  lemma SequenceFrom(src: seq<Byte>, iend: nat, oend: nat, size: nat, k: nat, t: Turn) returns (s: Sequence)
    requires AtToken(src, iend, k) && t == ReadTurn(src, iend, k, size, oend) && t.Pair? && 0 < t.offset
    ensures s == Sequence(Slice(src, t.start, t.start + t.length), t.offset, t.matchLength) && Encodable(s)
    ensures BytesAt(src, k, EncodeSequence(s)) && t.next == k + |EncodeSequence(s)|
    ensures Roomy(t.next, t.matchLength - MINMATCH, iend)
  {
    var code, literals := t.matchLength - MINMATCH, Slice(src, t.start, t.start + t.length);
    s := Sequence(literals, t.offset, t.matchLength);
    PairFrom(src, iend, oend, size, k, t);
    assert Fits(t, iend, size, oend);
    assert BytesAt(src, k, EncodeLiterals(src[k], literals)) by {
      LiteralsAt(src, k, t.length, t.start);
    }
    TokenOf(t.length, code, src[k]);
    SequenceAt(src, k, t.start, literals, code, s);
  }

  // ---------------------------------------------------------------- the whole block

  /** The decoder has read the sequences `ss` and stands behind them. */
  ghost predicate StandsBehind(src: seq<Byte>, iend: nat, oend: nat, ss: Block, k: nat, out: seq<Byte>) {
    && Begins(src, iend, oend, ss) && AtToken(src, iend, k) && k == |EncodeSequences(ss)| && |out| <= oend
    && out == ExpandSequences(ss, oend)
  }

  lemma BeginsFurther(src: seq<Byte>, iend: nat, oend: nat, ss: Block, s: Sequence)
    requires Begins(src, iend, oend, ss) && Encodable(s)
    requires BytesAt(src, |EncodeSequences(ss)|, EncodeSequence(s))
    requires Roomy(|EncodeSequences(ss)| + |EncodeSequence(s)|, s.matchLength - MINMATCH, iend)
    requires var start := ExpandedSize(ss) + |s.literals|;
             s.offset <= start && start + MFLIMIT <= oend && start + s.matchLength + LASTLITERALS <= oend
    ensures Begins(src, iend, oend, More(ss, s))
    ensures |EncodeSequences(More(ss, s))| == |EncodeSequences(ss)| + |EncodeSequence(s)|
  {
    JoinBytes(src, 0, EncodeSequences(ss), EncodeSequence(s));
  }

  lemma StandsFurther(src: seq<Byte>, iend: nat, oend: nat, ss: Block, k: nat, out: seq<Byte>, s: Sequence,
                      next: nat, more: seq<Byte>)
    requires StandsBehind(src, iend, oend, ss, k, out) && Encodable(s) && BytesAt(src, k, EncodeSequence(s))
    requires next == k + |EncodeSequence(s)| && Roomy(next, s.matchLength - MINMATCH, iend)
    requires var start := |out| + |s.literals|;
             s.offset <= start && start + MFLIMIT <= oend && start + s.matchLength + LASTLITERALS <= oend
    requires more == CopyMatch(out + s.literals, s.offset, s.matchLength)
    ensures StandsBehind(src, iend, oend, More(ss, s), next, more)
  {
    BeginsFurther(src, iend, oend, ss, s);
  }

  /** What stands behind the sequences gives the answer of the turn. */
  lemma EndingFrom(src: seq<Byte>, iend: nat, oend: nat, ss: Block, k: nat, out: seq<Byte>, t: Turn, r: Outcome)
    requires StandsBehind(src, iend, oend, ss, k, out) && r == DecodeFrom(src, iend, k, out, oend)
    requires t == ReadTurn(src, iend, k, |out|, oend) && !(t.Pair? && 0 < t.offset)
    ensures Ending(src, iend, oend, ss, r)
  {
    DecodeStep(src, iend, k, out, oend, t, r);
    match t
    case Error(position) => ErrorFrom(src, iend, oend, |out|, k, position);
    case Last(start) => LastFrom(src, iend, oend, |out|, k, start);
    case Pair(_, _, _, _, _) => PairFrom(src, iend, oend, |out|, k, t);
    case Beyond => ReadableTurn(src, iend, |out|, oend);
  }

  lemma {:induction false} EndingFound(src: seq<Byte>, iend: nat, oend: nat, ss: Block, k: nat, out: seq<Byte>,
                                       r: Outcome) returns (all: Block)
    requires StandsBehind(src, iend, oend, ss, k, out) && r == DecodeFrom(src, iend, k, out, oend)
    ensures Begins(src, iend, oend, all) && Ending(src, iend, oend, all, r)
    decreases iend - k
  {
    var t := ReadTurn(src, iend, k, |out|, oend);
    if t.Pair? && 0 < t.offset {
      var s := SequenceFrom(src, iend, oend, |out|, k, t);
      var more := Produce(src, out, t);
      StandsFurther(src, iend, oend, ss, k, out, s, t.next, more);
      DecodePair(src, iend, k, out, oend, t, more, r);
      all := EndingFound(src, iend, oend, More(ss, s), t.next, more, r);
    } else {
      EndingFrom(src, iend, oend, ss, k, out, t, r);
      all := ss;
    }
  }

  lemma EndingGives(src: seq<Byte>, iend: nat, oend: nat, ss: Block, k: nat, out: seq<Byte>, r: Outcome)
    requires StandsBehind(src, iend, oend, ss, k, out) && Ending(src, iend, oend, ss, r)
    ensures DecodeFrom(src, iend, k, out, oend) == r
  {
    var t, answer := ReadTurn(src, iend, k, |out|, oend), DecodeFrom(src, iend, k, out, oend);
    DecodeStep(src, iend, k, out, oend, t, answer);
    match r
    case Decoded(all) =>
      var last: seq<Byte>, code: nat :|
        LastLiterals(src, iend, oend, |out|, k, last, code) && all == Expand(ss, last, oend);
      DecodeLast(src, iend, k, out, oend, last, code);
    case Malformed(position) => StumbleTurn(src, iend, oend, |out|, k, position);
    case ZeroOffset =>
      var length: nat, start: nat, code: nat, next: nat :|
        SelfCopy(src, iend, oend, |out|, k, length, start, code, next);
      SelfCopyTurn(src, iend, oend, |out|, k, length, start, code, next);
    case Fault => ReadableTurn(src, iend, |out|, oend);
  }

  lemma DecodeFromExactly(src: seq<Byte>, iend: nat, oend: nat, r: Outcome)
    requires iend <= |src|
    ensures DecodeFrom(src, iend, 0, [], oend) == r <==>
            exists ss: Block :: Begins(src, iend, oend, ss) && Ending(src, iend, oend, ss, r)
  {
    var answer := DecodeFrom(src, iend, 0, [], oend);
    if answer == r {
      assert StandsBehind(src, iend, oend, Empty, 0, []);
      var ss := EndingFound(src, iend, oend, Empty, 0, [], r);
    }
    if ss: Block :| Begins(src, iend, oend, ss) && Ending(src, iend, oend, ss, r) {
      DecodeSequences(src, iend, ss, oend, oend, answer);
      EndingGives(src, iend, oend, ss, |EncodeSequences(ss)|, ExpandSequences(ss, oend), r);
    }
  }

  /** Which answer the decoder gives for any memory and sizes. With no room for output only the block of one zero byte
      is accepted. Otherwise the answer is `r` just if the block begins with some sequences that are in order and what
      stands behind them is an ending of that kind. */
  lemma DecodeExactly(src: seq<Byte>, inputSize: nat, outputSize: nat, r: Outcome)
    requires inputSize <= |src|
    ensures Decode(src, inputSize, outputSize) == r <==>
            if outputSize == 0 then r == if src[..inputSize] == [0] then Decoded([]) else Malformed(0)
            else exists ss: Block :: Begins(src, inputSize, outputSize, ss) && Ending(src, inputSize, outputSize, ss, r)
  {
    if outputSize == 0 {
      assert inputSize == 1 ==> src[..inputSize] == [src[0]];
    } else {
      DecodeFromExactly(src, inputSize, outputSize, r);
    }
  }

  /** Whatever the decoder accepts is a block of the format, up to the low half of the last token, and the output is
      what it stands for. */
  lemma AcceptedIsBlock(src: seq<Byte>, inputSize: nat, outputSize: nat, out: seq<Byte>)
      returns (ss: Block, last: seq<Byte>, code: nat)
    requires inputSize <= |src| && Decode(src, inputSize, outputSize) == Decoded(out)
    ensures Valid(ss, outputSize) && code <= RUN_MASK
    ensures src[..inputSize] == EncodeSequences(ss) + EncodeLiterals(Token(|last|, code), last)
    ensures out == Expand(ss, last, outputSize) && |out| <= outputSize
  {
    if outputSize == 0 {
      ss, last, code := Empty, [], 0;
      assert src[..inputSize] == [0];
    } else {
      DecodeExactly(src, inputSize, outputSize, Decoded(out));
      ss :| Begins(src, inputSize, outputSize, ss) && Ending(src, inputSize, outputSize, ss, Decoded(out));
      last, code :| LastLiterals(src, inputSize, outputSize, ExpandedSize(ss), |EncodeSequences(ss)|, last, code)
                    && out == Expand(ss, last, outputSize);
      JoinBytes(src, 0, EncodeSequences(ss), EncodeLiterals(Token(|last|, code), last));
    }
  }

  const THIRTEEN: seq<Byte> := [19, 97, 1, 0, 80, 97, 97, 97, 97, 97]

  /** The block of thirteen equal bytes, and an output buffer that is one byte short. */
  lemma OneByteShort()
    ensures Decode(THIRTEEN, 10, 12) == Malformed(1)
  {
    assert THIRTEEN[0] / 16 == 1 && THIRTEEN[0] % 16 == 3;
    assert ReadLiteralLength(THIRTEEN, 10, 0) == Run(1, 1);
  }
}
