/**
 CRC32C, eight bytes at a time. The polynomial is that of section 12.1 of RFC 3720, reflected, with
 no inversion before or after.
 */
module Crc32c {
  import opened Slicing

  type Word = bv32
  type Byte = bv8

  const POLYNOMIAL: Word := 0x82F63B78

  const BITS_PER_BYTE: nat := 8

  function Xor(a: Word, b: Word): Word {
    a ^ b
  }

  // ---------------------------------------------------------------- one byte at a time

  function Half(c: Word): Word {
    c >> 1
  }

  function Carry(c: Word): Word {
    if c & 1 == 1 then POLYNOMIAL else 0
  }

  function BitStep(c: Word): Word {
    Xor(Half(c), Carry(c))
  }

  /** Single bits as an algebra of their own; nothing is injected. */
  const BITS: Algebra<Word, ()> := Algebra(Xor, BitStep, (k: nat, b: ()) => 0)

  /** The table for single bytes: eight bit steps. */
  function ByteTable(b: Word): Word {
    BITS.Shifts(BITS_PER_BYTE, b)
  }

  function Low(c: Word): Word {
    c & 0xFF
  }

  function High(c: Word): Word {
    c >> 8
  }

  /** The remainder after one more byte, which has been added to the low bits already. */
  function Shift(c: Word): Word {
    Xor(ByteTable(Low(c)), High(c))
  }

  function Inject(k: nat, b: Byte): Word {
    if k == 0 then b as Word
    else if k == 1 then (b as Word) << 8
    else if k == 2 then (b as Word) << 16
    else (b as Word) << 24
  }

  const CRC: Algebra<Word, Byte> := Algebra(Xor, Shift, Inject)

  /** The checksum defined byte by byte. */
  function Crc(c: Word, bytes: seq<Byte>): Word {
    if bytes == [] then c else CRC.Step(Crc(c, bytes[..|bytes| - 1]), bytes[|bytes| - 1])
  }

  /** The checksum of a concatenation is the chained checksum of its parts. */
  lemma {:induction false} CrcConcat(c: Word, a: seq<Byte>, b: seq<Byte>)
    ensures Crc(c, a + b) == Crc(Crc(c, a), b)
    decreases |b|
  {
    if b == [] {
      assert a + b == a;
    } else {
      assert (a + b)[..|a + b| - 1] == a + b[..|b| - 1];
      CrcConcat(c, a, b[..|b| - 1]);
    }
  }

  // ---------------------------------------------------------------- words as bits

  lemma BitsAssociate(a: Word, b: Word, c: Word)
    ensures (a ^ b) ^ c == a ^ (b ^ c)
  {
  }

  lemma XorAssociates(a: Word, b: Word, c: Word)
    ensures Xor(Xor(a, b), c) == Xor(a, Xor(b, c))
  {
    BitsAssociate(a, b, c);
  }

  lemma XorCommutes(a: Word, b: Word)
    ensures Xor(a, b) == Xor(b, a)
  {
  }

  lemma BitsAdditive()
    ensures Additive(BITS)
  {
    forall a, b, c
      ensures BITS.Associates(a, b, c)
    {
      XorAssociates(a, b, c);
    }
    forall a, b
      ensures BITS.Commutes(a, b)
    {
      XorCommutes(a, b);
    }
  }

  lemma CrcAdditive()
    ensures Additive(CRC)
  {
    forall a, b, c
      ensures CRC.Associates(a, b, c)
    {
      XorAssociates(a, b, c);
    }
    forall a, b
      ensures CRC.Commutes(a, b)
    {
      XorCommutes(a, b);
    }
  }

  lemma HalfAdds(x: Word, y: Word)
    ensures Half(Xor(x, y)) == Xor(Half(x), Half(y))
  {
  }

  lemma CarryAdds(x: Word, y: Word)
    ensures Carry(Xor(x, y)) == Xor(Carry(x), Carry(y))
  {
  }

  lemma BitStepDistributes(x: Word, y: Word)
    ensures BITS.Distributes(x, y)
  {
    HalfAdds(x, y);
    CarryAdds(x, y);
    BitsAdditive();
    Swap(BITS, Half(x), Half(y), Carry(x), Carry(y));
  }

  lemma BitsLinear()
    ensures Linear(BITS)
  {
    BitsAdditive();
    forall a, b
      ensures BITS.Distributes(a, b)
    {
      BitStepDistributes(a, b);
    }
  }

  lemma PartsAdd(x: Word, y: Word)
    ensures Low(Xor(x, y)) == Xor(Low(x), Low(y))
    ensures High(Xor(x, y)) == Xor(High(x), High(y))
  {
  }

  lemma TableDistributes(x: Word, y: Word)
    ensures ByteTable(Xor(x, y)) == Xor(ByteTable(x), ByteTable(y))
  {
    BitsLinear();
    ShiftsDistribute(BITS, BITS_PER_BYTE, x, y);
  }

  lemma ShiftDistributes(x: Word, y: Word)
    ensures CRC.Distributes(x, y)
  {
    PartsAdd(x, y);
    TableDistributes(Low(x), Low(y));
    CrcAdditive();
    Swap(CRC, ByteTable(Low(x)), ByteTable(Low(y)), High(x), High(y));
  }

  lemma {:induction false} ShiftsOfZero(n: nat)
    ensures BITS.Shifts(n, 0) == 0
  {
    if 0 < n {
      ShiftsOfZero(n - 1);
    }
  }

  lemma InjectLowers(k: nat, b: Byte)
    requires k < 3
    ensures Low(Inject(k + 1, b)) == 0 && High(Inject(k + 1, b)) == Inject(k, b)
  {
  }

  lemma CrcLinear()
    ensures Linear(CRC)
  {
    CrcAdditive();
    forall a, b
      ensures CRC.Distributes(a, b)
    {
      ShiftDistributes(a, b);
    }
    forall k: nat, b | k < 3
      ensures CRC.Lowers(k, b)
    {
      InjectLowers(k, b);
      ShiftsOfZero(BITS_PER_BYTE);
    }
  }

  // ---------------------------------------------------------------- eight bytes at a time

  function ByteOf(c: Word): Byte {
    (c & 0xFF) as Byte
  }

  /** A little-endian load of four bytes. */
  function Load(b0: Byte, b1: Byte, b2: Byte, b3: Byte): Word {
    (b0 as Word) | ((b1 as Word) << 8) | ((b2 as Word) << 16) | ((b3 as Word) << 24)
  }

  /** One turn of the fast loop, on the words loaded from eight bytes, with the tables from the last down. */
  function Slice(c: Word, w1: Word, w2: Word): Word {
    var x := Xor(c, w1);
    var high := x >> 16;
    var sum := Xor(Xor(Xor(CRC.Table(LAST_TABLE, ByteOf(x)), CRC.Table(LAST_TABLE - 1, ByteOf(x >> 8))),
                       CRC.Table(LAST_TABLE - 2, ByteOf(high))), CRC.Table(LAST_TABLE - 3, ByteOf(high >> 8)));
    var term := Xor(CRC.Table(LAST_TABLE - 4, ByteOf(w2)), CRC.Table(LAST_TABLE - 5, ByteOf(w2 >> 8)));
    var high2 := w2 >> 16;
    Xor(Xor(Xor(sum, term), CRC.Table(LAST_TABLE - 6, ByteOf(high2))), CRC.Table(LAST_TABLE - 7, ByteOf(high2 >> 8)))
  }

  lemma LoadIsWord(b0: Byte, b1: Byte, b2: Byte, b3: Byte)
    ensures Load(b0, b1, b2, b3) == CRC.Word(b0, b1, b2, b3)
  {
    LoadIsXor(b0 as Word, b1 as Word, b2 as Word, b3 as Word);
  }

  lemma LoadIsXor(b0: Word, b1: Word, b2: Word, b3: Word)
    requires b0 < 256 && b1 < 256 && b2 < 256 && b3 < 256
    ensures b0 | (b1 << 8) | (b2 << 16) | (b3 << 24) == ((b0 ^ (b1 << 8)) ^ (b2 << 16)) ^ (b3 << 24)
  {
  }

  lemma SplitWord(c: Word)
    ensures c == Load(ByteOf(c), ByteOf(c >> 8), ByteOf(c >> 16), ByteOf((c >> 16) >> 8))
  {
  }

  lemma LoadBytes(b0: Byte, b1: Byte, b2: Byte, b3: Byte, w: Word)
    requires w == Load(b0, b1, b2, b3)
    ensures ByteOf(w) == b0 && ByteOf(w >> 8) == b1 && ByteOf(w >> 16) == b2 && ByteOf((w >> 16) >> 8) == b3
  {
  }

  function Steps4(c: Word, b0: Byte, b1: Byte, b2: Byte, b3: Byte): Word {
    CRC.Step(CRC.Step(CRC.Step(CRC.Step(c, b0), b1), b2), b3)
  }

  lemma WordOfSum(c: Word, b0: Byte, b1: Byte, b2: Byte, b3: Byte, x: Word)
    requires x == Xor(c, Load(b0, b1, b2, b3))
    ensures CRC.xor(c, CRC.Word(b0, b1, b2, b3))
            == CRC.Word(ByteOf(x), ByteOf(x >> 8), ByteOf(x >> 16), ByteOf((x >> 16) >> 8))
  {
    LoadIsWord(b0, b1, b2, b3);
    SplitWord(x);
    LoadIsWord(ByteOf(x), ByteOf(x >> 8), ByteOf(x >> 16), ByteOf((x >> 16) >> 8));
  }

  /** One turn of the fast loop is eight steps over single bytes. */
  lemma SliceIsSteps(c: Word, b0: Byte, b1: Byte, b2: Byte, b3: Byte, f0: Byte, f1: Byte, f2: Byte, f3: Byte)
    ensures Slice(c, Load(b0, b1, b2, b3), Load(f0, f1, f2, f3)) == Steps4(Steps4(c, b0, b1, b2, b3), f0, f1, f2, f3)
  {
    var x, w2 := Xor(c, Load(b0, b1, b2, b3)), Load(f0, f1, f2, f3);
    CrcLinear();
    WordOfSum(c, b0, b1, b2, b3, x);
    LoadBytes(f0, f1, f2, f3, w2);
    EightSteps(CRC, c, b0, b1, b2, b3, ByteOf(x), ByteOf(x >> 8), ByteOf(x >> 16), ByteOf((x >> 16) >> 8), f0, f1,
        f2, f3);
  }

  lemma CrcNext(c: Word, bytes: seq<Byte>, k: nat)
    requires k < |bytes|
    ensures Crc(c, bytes[..k + 1]) == CRC.Step(Crc(c, bytes[..k]), bytes[k])
  {
    assert bytes[..k + 1][..k] == bytes[..k];
  }

  lemma CrcFour(c: Word, bytes: seq<Byte>, k: nat)
    requires k + 4 <= |bytes|
    ensures Crc(c, bytes[..k + 4]) == Steps4(Crc(c, bytes[..k]), bytes[k], bytes[k + 1], bytes[k + 2], bytes[k + 3])
  {
    CrcNext(c, bytes, k);
    CrcNext(c, bytes, k + 1);
    CrcNext(c, bytes, k + 2);
    CrcNext(c, bytes, k + 3);
  }

  lemma CrcEight(c: Word, bytes: seq<Byte>, p: nat)
    requires p + 8 <= |bytes|
    ensures Crc(c, bytes[..p + 8]) == Slice(Crc(c, bytes[..p]), LoadAt(bytes, p), LoadAt(bytes, p + 4))
  {
    CrcFour(c, bytes, p);
    CrcFour(c, bytes, p + 4);
    SliceIsSteps(Crc(c, bytes[..p]), bytes[p], bytes[p + 1], bytes[p + 2], bytes[p + 3],
                 bytes[p + 4], bytes[p + 5], bytes[p + 6], bytes[p + 7]);
  }

  function LoadAt(bytes: seq<Byte>, p: nat): Word
    requires p + 4 <= |bytes|
  {
    Load(bytes[p], bytes[p + 1], bytes[p + 2], bytes[p + 3])
  }

  method ByteTurn(crc: Word, buf: seq<Byte>, k: nat, ghost seed: Word) returns (r: Word)
    requires k < |buf| && crc == Crc(seed, buf[..k])
    ensures r == Crc(seed, buf[..k + 1])
  {
    CrcNext(seed, buf, k);
    r := CRC.Step(crc, buf[k]);
  }

  /** Single bytes from `from` to `to`. */
  method Bytewise(crc: Word, buf: seq<Byte>, from: nat, to: nat, ghost seed: Word) returns (r: Word)
    requires from <= to <= |buf| && crc == Crc(seed, buf[..from])
    ensures r == Crc(seed, buf[..to])
  {
    r := crc;
    for k := from to to
      invariant r == Crc(seed, buf[..k])
    {
      r := ByteTurn(r, buf, k, seed);
    }
  }

  method SliceTurn(crc: Word, buf: seq<Byte>, p: nat, ghost seed: Word) returns (r: Word)
    requires p + 8 <= |buf| && crc == Crc(seed, buf[..p])
    ensures r == Crc(seed, buf[..p + 8])
  {
    CrcEight(seed, buf, p);
    r := Slice(crc, LoadAt(buf, p), LoadAt(buf, p + 4));
  }

  /** Eight bytes at a time from `from` on. */
  method Sliced(crc: Word, buf: seq<Byte>, from: nat, turns: nat, ghost seed: Word) returns (r: Word)
    requires from + 8 * turns <= |buf| && crc == Crc(seed, buf[..from])
    ensures r == Crc(seed, buf[..from + 8 * turns])
  {
    r := crc;
    var p := from;
    for i := 0 to turns
      invariant p == from + 8 * i && r == Crc(seed, buf[..p])
    {
      r := SliceTurn(r, buf, p, seed);
      p := p + 8;
    }
  }

  /** Single bytes up to an aligned address, then eight at a time, then the rest. */
  method Checksum(seed: Word, buf: seq<Byte>, address: nat) returns (crc: Word)
    ensures crc == Crc(seed, buf)
  {
    var initial := (4 - address % 4) % 4;
    if |buf| < initial {
      initial := |buf|;
    }
    var turns := (|buf| - initial) / 8;
    crc := Bytewise(seed, buf, 0, initial, seed);
    crc := Sliced(crc, buf, initial, turns, seed);
    crc := Bytewise(crc, buf, initial + 8 * turns, |buf|, seed);
    assert buf[..|buf|] == buf;
  }
}
