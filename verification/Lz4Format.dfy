/**
 The LZ4 block format, stated independently of any encoder or decoder: a block is a list of
 sequences (literals, then a back reference) followed by a run of last literals.
 `Encode` gives its bytes, `Expand` the data it stands for.
 */
module Lz4Format {
  import opened Machine

  const MINMATCH := 4
  const LASTLITERALS := 5
  const MFLIMIT := 12
  const RUN_MASK := 15
  const MAX_DISTANCE := 65535
  const MAX_INPUT_SIZE := 0x7E000000

  /** The bytes from `lo` up to `hi`. */
  function Slice(s: seq<Byte>, lo: nat, hi: nat): (r: seq<Byte>)
    requires lo <= hi <= |s|
    ensures |r| == hi - lo
  {
    seq(hi - lo, i requires 0 <= i < hi - lo => s[lo + i])
  }

  datatype Sequence = Sequence(literals: seq<Byte>, offset: nat, matchLength: nat)

  /** The bytes that carry a length which does not fit its four bits of the token. */
  function LengthBytes(n: nat): (r: seq<Byte>)
    ensures |r| >= 1
  {
    if n < 255 then [n] else [255] + LengthBytes(n - 255)
  }

  function Nibble(n: nat): (r: nat)
    ensures r <= RUN_MASK
  {
    if n < RUN_MASK then n else RUN_MASK
  }

  function Extension(n: nat): seq<Byte> {
    if n < RUN_MASK then [] else LengthBytes(n - RUN_MASK)
  }

  ghost predicate Encodable(s: Sequence) {
    1 <= s.offset <= MAX_DISTANCE && MINMATCH <= s.matchLength
  }

  function Token(literalLength: nat, matchCode: nat): Byte {
    (if literalLength < RUN_MASK then 16 * literalLength else 240)
    + (if matchCode < RUN_MASK then matchCode else RUN_MASK)
  }

  function EncodeLiterals(token: Byte, literals: seq<Byte>): seq<Byte> {
    [token] + Extension(|literals|) + literals
  }

  function EncodeMatch(offset: nat, code: nat): seq<Byte>
    requires offset <= MAX_DISTANCE
  {
    [offset % 256, offset / 256] + Extension(code)
  }

  function EncodeSequence(s: Sequence): seq<Byte>
    requires 1 <= s.offset <= MAX_DISTANCE && MINMATCH <= s.matchLength
  {
    EncodeLiterals(Token(|s.literals|, s.matchLength - MINMATCH), s.literals)
    + EncodeMatch(s.offset, s.matchLength - MINMATCH)
  }

  /** The sequences of a block, in order; the newest is outermost. */
  datatype Block = Empty | More(front: Block, newest: Sequence)

  ghost predicate AllEncodable(ss: Block) {
    ss.More? ==> AllEncodable(ss.front) && Encodable(ss.newest)
  }

  ghost function EncodeSequences(ss: Block): seq<Byte>
    requires AllEncodable(ss)
  {
    if ss.Empty? then [] else EncodeSequences(ss.front) + EncodeSequence(ss.newest)
  }

  function EncodeLast(literals: seq<Byte>): seq<Byte> {
    EncodeLiterals(Token(|literals|, 0), literals)
  }

  ghost function Encode(ss: Block, last: seq<Byte>): seq<Byte>
    requires AllEncodable(ss)
  {
    EncodeSequences(ss) + EncodeLast(last)
  }

  /** Append `length` bytes, each equal to the byte `offset` places before it: the copied
      region may overlap the region being written. */
  function CopyMatch(out: seq<Byte>, offset: nat, length: nat): (r: seq<Byte>)
    requires 1 <= offset <= |out|
    ensures |r| == |out| + length
    ensures out <= r
    decreases length
  {
    if length == 0 then out
    else CopyMatch(out + [out[|out| - offset]], offset, length - 1)
  }

  function ExpandedSize(ss: Block): nat {
    if ss.Empty? then 0 else ExpandedSize(ss.front) + |ss.newest.literals| + ss.newest.matchLength
  }

  /** Every back reference stays inside the data produced so far, and the end-of-block parsing
      restrictions hold for a block that expands to `total` bytes. */
  ghost predicate Valid(ss: Block, total: nat)
    ensures Valid(ss, total) ==> AllEncodable(ss)
  {
    ss.More? ==>
      && Valid(ss.front, total)
      && Encodable(ss.newest)
      && (var start := ExpandedSize(ss.front) + |ss.newest.literals|;
          && ss.newest.offset <= start
          && start + MFLIMIT <= total
          && start + ss.newest.matchLength + LASTLITERALS <= total)
  }

  ghost function ExpandSequences(ss: Block, total: nat): (r: seq<Byte>)
    requires Valid(ss, total)
    ensures |r| == ExpandedSize(ss)
  {
    if ss.Empty? then []
    else CopyMatch(ExpandSequences(ss.front, total) + ss.newest.literals, ss.newest.offset, ss.newest.matchLength)
  }

  ghost function Expand(ss: Block, last: seq<Byte>, total: nat): seq<Byte>
    requires Valid(ss, total)
  {
    ExpandSequences(ss, total) + last
  }

  function CompressBound(size: nat): nat {
    if size > MAX_INPUT_SIZE then 0 else size + size / 255 + 16
  }

  /** From `lo` to `hi` every byte equals the one `offset` places before it. */
  ghost predicate Repeats(s: seq<Byte>, lo: nat, hi: nat, offset: nat) {
    && offset <= lo <= hi <= |s|
    && forall i, j :: lo <= i < hi && j == i - offset ==> s[i] == s[j]
  }

  /** A byte string whose tail repeats with the given offset is what `CopyMatch` produces. */
  lemma {:induction false} CopyMatchUnique(out: seq<Byte>, offset: nat, length: nat, r: seq<Byte>)
    requires 1 <= offset <= |out|
    requires |r| == |out| + length && out <= r
    requires Repeats(r, |out|, |r|, offset)
    ensures r == CopyMatch(out, offset, length)
    decreases length
  {
    if length == 0 {
      assert r == out;
    } else {
      var out' := out + [out[|out| - offset]];
      assert r[|out|] == out[|out| - offset];
      assert out' <= r;
      CopyMatchUnique(out', offset, length - 1, r);
    }
  }

  /** Room used by the sequences: at most 256 bytes for every 255 bytes of data. */
  lemma {:induction false} SequencesBound(ss: Block, total: nat)
    requires Valid(ss, total)
    ensures 255 * |EncodeSequences(ss)| <= 256 * |ExpandSequences(ss, total)|
  {
    if ss.More? {
      SequencesBound(ss.front, total);
      SequenceBound(ss.newest);
    }
  }

  lemma SequenceBound(s: Sequence)
    requires Encodable(s)
    ensures 255 * |EncodeSequence(s)| <= 256 * (|s.literals| + s.matchLength)
  {
    ExtensionBound(|s.literals|);
    ExtensionBound(s.matchLength - MINMATCH);
  }

  lemma {:induction false} LengthBytesSize(n: nat)
    ensures |LengthBytes(n)| == n / 255 + 1
  {
    if n >= 255 {
      LengthBytesSize(n - 255);
    }
  }

  lemma ExtensionBound(n: nat)
    ensures 255 * |Extension(n)| <= n + 240
  {
    if n >= RUN_MASK {
      LengthBytesSize(n - RUN_MASK);
    }
  }

  /** The size promise of `LZ4_compressBound`, for any block that stands for the data. */
  lemma BlockBound(ss: Block, last: seq<Byte>, total: nat)
    requires Valid(ss, total) && |Expand(ss, last, total)| == total <= MAX_INPUT_SIZE
    ensures |Encode(ss, last)| <= CompressBound(total)
  {
    SequencesBound(ss, total);
    ExtensionBound(|last|);
    assert 255 * |Encode(ss, last)| <= 256 * total + 495;
  }
}
