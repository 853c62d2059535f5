/**
 The checksum is the remainder of a division of polynomials. The message is divided with its first byte first, and the
 lowest bit of each byte first.
 */
module CrcRemainder {
  import opened Slicing
  import opened Crc32c
  import opened Polynomials
  import opened WordPolynomials

  predicate Odd(w: Word) {
    w & 1 == 1
  }

  const WORDS: Bits<Word> := Bits(Xor, Half, Odd, 0, POLYNOMIAL)

  function Widened(b: Byte): Word {
    b as Word
  }

  ghost function PolyOfByte(b: Byte): Poly {
    WORDS.PolyOf(Widened(b), 8)
  }

  ghost function PolyOfWord(w: Word): Poly {
    WORDS.PolyOf(w, 32)
  }

  /** The message as a polynomial: the last byte has the lowest powers. */
  ghost function Message(bytes: seq<Byte>): Poly {
    if bytes == [] then {}
    else Plus(Up(Message(bytes[..|bytes| - 1]), 8), PolyOfByte(bytes[|bytes| - 1]))
  }

  /** What is divided: the message with 32 zero bits behind it, and the seed on top of its first bits. */
  ghost function Dividend(seed: Word, bytes: seq<Byte>): Poly {
    Plus(Up(PolyOfWord(seed), 8 * |bytes|), Up(Message(bytes), 32))
  }

  // ---------------------------------------------------------------- words of 32 bits

  lemma WordAdds(a: Word, b: Word)
    ensures WORDS.Adds(a, b)
  {
    HalfAdds(a, b);
    OddAdds(a, b);
  }

  lemma OddAdds(a: Word, b: Word)
    ensures Odd(Xor(a, b)) <==> (Odd(a) != Odd(b))
  {
  }

  lemma EightHalves(w: Word)
    ensures Half(Half(Half(Half(Half(Half(Half(Half(w)))))))) == High(w)
  {
  }

  lemma {:induction false} HalvesInside(w: Word, n: nat)
    ensures WORDS.Halves(w, n + 1) == WORDS.Halves(Half(w), n)
  {
    if n != 0 {
      HalvesInside(w, n - 1);
    }
  }

  lemma HalveFour(w: Word, n: nat)
    ensures WORDS.Halves(w, n + 4) == WORDS.Halves(Half(Half(Half(Half(w)))), n)
  {
    HalvesInside(w, n + 3);
    HalvesInside(Half(w), n + 2);
    HalvesInside(Half(Half(w)), n + 1);
    HalvesInside(Half(Half(Half(w))), n);
  }

  lemma HalveEight(w: Word, n: nat)
    requires n == BITS_PER_BYTE
    ensures WORDS.Halves(w, n) == High(w)
  {
    HalveFour(w, n - 4);
    HalveFour(Half(Half(Half(Half(w)))), n - 8);
    EightHalves(w);
  }

  lemma BitAbove(w: Word, n: nat, k: nat)
    requires n == BITS_PER_BYTE
    ensures WORDS.Bit(w, n + k) <==> WORDS.Bit(High(w), k)
  {
    BitHalves(WORDS, w, n, k);
    HalveEight(w, n);
  }

  lemma FourBytes(w: Word)
    ensures High(High(High(High(w)))) == 0
  {
  }

  lemma FourBytesEnd(w: Word, n: nat)
    requires n == BITS_PER_BYTE
    ensures !WORDS.Bit(w, n + (n + (n + (n + 0))))
  {
    BitAbove(w, n, n + (n + (n + 0)));
    BitAbove(High(w), n, n + (n + 0));
    BitAbove(High(High(w)), n, n + 0);
    BitAbove(High(High(High(w))), n, 0);
    FourBytes(w);
  }

  lemma WordEnds(w: Word)
    ensures WORDS.Ends(w)
  {
    FourBytesEnd(w, BITS_PER_BYTE);
  }

  // ---------------------------------------------------------------- the polynomial

  /** The bits of the lowest byte of a word. */
  predicate LowBit(w: Word, k: nat)
    requires k < 8
  {
    match k
    case 0 => w & 0x01 != 0
    case 1 => w & 0x02 != 0
    case 2 => w & 0x04 != 0
    case 3 => w & 0x08 != 0
    case 4 => w & 0x10 != 0
    case 5 => w & 0x20 != 0
    case 6 => w & 0x40 != 0
    case _ => w & 0x80 != 0
  }

  lemma LowBitHalf(w: Word, k: nat)
    requires 0 < k < 8
    ensures LowBit(w, k) <==> LowBit(Half(w), k - 1)
  {
  }

  lemma {:induction false} BitLow(w: Word, k: nat)
    requires k < 8
    ensures WORDS.Bit(w, k) <==> LowBit(w, k)
    decreases k
  {
    if k != 0 {
      LowBitHalf(w, k);
      BitLow(Half(w), k - 1);
    }
  }

  /** Byte `i` of a word. */
  function ByteAt(w: Word, i: nat): Word
    requires i < 4
  {
    if i == 0 then w else if i == 1 then High(w) else if i == 2 then High(High(w)) else High(High(High(w)))
  }

  lemma BitOfByte(w: Word, i: nat, j: nat, n: nat)
    requires i < 4 && j < 8 && n == BITS_PER_BYTE
    ensures WORDS.Bit(w, n * i + j) <==> LowBit(ByteAt(w, i), j)
  {
    BitLow(ByteAt(w, i), j);
    if i == 1 {
      BitAbove(w, n, j);
    } else if i == 2 {
      BitAbove(w, n, n + j);
      BitAbove(High(w), n, j);
    } else if i == 3 {
      BitAbove(w, n, n + (n + j));
      BitAbove(High(w), n, n + j);
      BitAbove(High(High(w)), n, j);
    }
  }

  /** The bits of the reflected polynomial, byte by byte. */
  predicate Term(i: nat, j: nat) {
    match i
    case 0 => j in {3, 4, 5, 6}
    case 1 => j in {0, 1, 3, 4, 5}
    case 2 => j in {1, 2, 4, 5, 6, 7}
    case _ => j in {1, 7}
  }

  lemma PolynomialBytes(i: nat, j: nat)
    requires i < 4 && j < 8
    ensures LowBit(ByteAt(POLYNOMIAL, i), j) <==> Term(i, j)
  {
  }

  /** They are those of RFC 3720. */
  lemma PolynomialTerms(i: nat, j: nat)
    requires i < 4 && j < 8
    ensures Term(i, j) <==> 31 - (8 * i + j) in EXPONENTS
  {
  }

  lemma PolynomialBit(p: seq<nat>, i: nat, j: nat)
    requires p == EXPONENTS && i < 4 && j < 8
    ensures WORDS.Generates(p, 8 * i + j)
  {
    BitOfByte(POLYNOMIAL, i, j, BITS_PER_BYTE);
    PolynomialBytes(i, j);
    PolynomialTerms(i, j);
  }

  lemma WordsLawful(p: seq<nat>)
    requires p == EXPONENTS
    ensures Lawful(WORDS, p)
  {
    forall a, b
      ensures WORDS.Adds(a, b)
    {
      WordAdds(a, b);
    }
    forall w
      ensures WORDS.Ends(w)
    {
      WordEnds(w);
    }
    forall k: nat | k < 32
      ensures WORDS.Generates(p, k)
    {
      PolynomialBit(p, k / 8, k % 8);
    }
  }

  // ---------------------------------------------------------------- one byte

  lemma {:induction false} StepsAreShifts(n: nat, c: Word)
    ensures WORDS.Steps(n, c) == BITS.Shifts(n, c)
  {
    if n != 0 {
      StepsAreShifts(n - 1, c);
    }
  }

  function Raised(h: Word): Word {
    h << 8
  }

  lemma SplitLow(c: Word)
    ensures c == Xor(Low(c), Raised(High(c)))
  {
  }

  function FourBits(c: Word): Word {
    BitStep(BitStep(BitStep(BitStep(c))))
  }

  lemma RaisedComesDown(c: Word)
    ensures FourBits(FourBits(Raised(High(c)))) == High(c)
  {
  }

  lemma ShiftsFour(n: nat, c: Word)
    ensures BITS.Shifts(n + 4, c) == BITS.Shifts(n, FourBits(c))
  {
    ShiftsInside(BITS, n + 3, c);
    ShiftsInside(BITS, n + 2, BitStep(c));
    ShiftsInside(BITS, n + 1, BitStep(BitStep(c)));
    ShiftsInside(BITS, n, BitStep(BitStep(BitStep(c))));
  }

  lemma ShiftsEight(n: nat, c: Word)
    requires n == BITS_PER_BYTE
    ensures BITS.Shifts(n, c) == FourBits(FourBits(c))
  {
    ShiftsFour(n - 4, c);
    ShiftsFour(n - 8, FourBits(c));
  }

  /** The step over a byte by table is eight steps over bits. */
  lemma ShiftIsSteps(n: nat, c: Word)
    requires n == BITS_PER_BYTE
    ensures Shift(c) == WORDS.Steps(n, c)
  {
    StepsAreShifts(n, c);
    SplitLow(c);
    BitsLinear();
    ShiftsDistribute(BITS, n, Low(c), Raised(High(c)));
    ShiftsEight(n, Raised(High(c)));
    RaisedComesDown(c);
  }

  lemma NothingAboveByte(b: Byte)
    ensures High(Widened(b)) == 0
  {
  }

  /** A byte in the low bits of a word has the highest powers. */
  lemma ByteInWord(p: seq<nat>, b: Byte, n: nat)
    requires Lawful(WORDS, p) && n == BITS_PER_BYTE
    ensures PolyOfWord(Widened(b)) == Up(PolyOfByte(b), 24)
  {
    NothingAboveByte(b);
    forall i: nat
      ensures i in PolyOfWord(Widened(b)) <==> i in Up(PolyOfByte(b), 24)
    {
      if i < 24 {
        BitAbove(Widened(b), n, 23 - i);
        BitZero(WORDS, p, 23 - i);
      }
    }
  }

  lemma StepDividesByte(p: seq<nat>, c: Word, b: Byte, n: nat) returns (q: Poly)
    requires Lawful(WORDS, p) && n == BITS_PER_BYTE
    ensures Divided(p, Plus(Up(PolyOfWord(c), n), Up(PolyOfByte(b), 32)), q, PolyOfWord(CRC.Step(c, b)))
  {
    var sum := Xor(c, Widened(b));
    q := StepsDivide(WORDS, p, sum, n);
    ShiftIsSteps(n, sum);
    PolyXor(WORDS, p, c, Widened(b), 32);
    ByteInWord(p, b, n);
    UpPlus(PolyOfWord(c), Up(PolyOfByte(b), 24), n);
    UpUp(PolyOfByte(b), 24, n);
  }

  // ---------------------------------------------------------------- the whole message

  lemma DividendGrows(c: Poly, m: Poly, b: Poly, k: nat, n: nat)
    ensures Plus(Up(c, k + n), Up(Plus(Up(m, n), b), 32)) == Plus(Up(Plus(Up(c, k), Up(m, 32)), n), Up(b, 32))
  {
    UpPlus(Up(c, k), Up(m, 32), n);
    UpUp(c, k, n);
    UpUp(m, 32, n);
    UpUp(m, n, 32);
    UpPlus(Up(m, n), b, 32);
    PlusAssociates(Up(c, k + n), Up(m, 32 + n), Up(b, 32));
  }

  lemma DividendNext(seed: Word, bytes: seq<Byte>, n: nat)
    requires bytes != [] && n == BITS_PER_BYTE
    ensures var front, b := bytes[..|bytes| - 1], bytes[|bytes| - 1];
            Dividend(seed, bytes) == Plus(Up(Dividend(seed, front), n), Up(PolyOfByte(b), 32))
  {
    var front, b := bytes[..|bytes| - 1], bytes[|bytes| - 1];
    DividendGrows(PolyOfWord(seed), Message(front), PolyOfByte(b), 8 * |front|, n);
  }

  lemma {:induction false} CrcDivides(p: seq<nat>, seed: Word, bytes: seq<Byte>, n: nat) returns (q: Poly)
    requires Lawful(WORDS, p) && n == BITS_PER_BYTE
    ensures Divided(p, Dividend(seed, bytes), q, PolyOfWord(Crc(seed, bytes)))
    decreases |bytes|
  {
    if bytes == [] {
      q := {};
      DividedSmall(p, PolyOfWord(seed));
      assert Dividend(seed, bytes) == PolyOfWord(seed);
    } else {
      var front, b := bytes[..|bytes| - 1], bytes[|bytes| - 1];
      var before := CrcDivides(p, seed, front, n);
      var more := StepDividesByte(p, Crc(seed, front), b, n);
      q := Plus(Up(before, n), more);
      DividendNext(seed, bytes, n);
      DividedNext(p, Dividend(seed, front), before, PolyOfWord(Crc(seed, front)), n, Up(PolyOfByte(b), 32), more,
                  PolyOfWord(Crc(seed, bytes)));
    }
  }

  /** One more byte of the dividend. */
  lemma DividedNext(p: seq<nat>, d: Poly, q: Poly, r: Poly, k: nat, b: Poly, q': Poly, r': Poly)
    requires Divided(p, d, q, r) && Divided(p, Plus(Up(r, k), b), q', r')
    ensures Divided(p, Plus(Up(d, k), b), Plus(Up(q, k), q'), r')
  {
    var t := Times(q, p);
    TimesUp(q, k, p);
    TimesPlus(Up(q, k), q', p);
    UpPlus(t, r, k);
    PlusAssociates(Up(t, k), Up(r, k), b);
    PlusAssociates(Up(t, k), Times(q', p), r');
  }

  // ---------------------------------------------------------------- words are determined by their polynomials

  lemma SameHalves(a: Word, b: Word)
    requires Half(a) == Half(b) && (Odd(a) <==> Odd(b))
    ensures a == b
  {
  }

  lemma {:induction false} SameBits(a: Word, b: Word, n: nat)
    requires WORDS.Halves(a, n) == WORDS.Halves(b, n)
    requires forall k: nat :: k < n ==> (WORDS.Bit(a, k) <==> WORDS.Bit(b, k))
    ensures a == b
    decreases n
  {
    if n != 0 {
      BitHalves(WORDS, a, n - 1, 0);
      BitHalves(WORDS, b, n - 1, 0);
      assert WORDS.Bit(a, n - 1) <==> WORDS.Bit(b, n - 1);
      SameHalves(WORDS.Halves(a, n - 1), WORDS.Halves(b, n - 1));
      SameBits(a, b, n - 1);
    }
  }

  lemma SamePoly(p: seq<nat>, a: Word, b: Word)
    requires Lawful(WORDS, p) && PolyOfWord(a) == PolyOfWord(b)
    ensures a == b
  {
    forall k: nat | k < 32
      ensures WORDS.Bit(a, k) <==> WORDS.Bit(b, k)
    {
      assert 31 - k in PolyOfWord(a) <==> 31 - k in PolyOfWord(b);
    }
    AllHalved(a, BITS_PER_BYTE);
    AllHalved(b, BITS_PER_BYTE);
    SameBits(a, b, 32);
  }

  lemma AllHalved(w: Word, n: nat)
    requires n == BITS_PER_BYTE
    ensures WORDS.Halves(w, 32) == 0
  {
    HalvesAdd(w, n, n);
    HalvesAdd(w, n + n, n);
    HalvesAdd(w, n + n + n, n);
    HalveEight(w, n);
    HalveEight(High(w), n);
    HalveEight(High(High(w)), n);
    HalveEight(High(High(High(w))), n);
    FourBytes(w);
  }

  lemma {:induction false} HalvesAdd(w: Word, m: nat, n: nat)
    ensures WORDS.Halves(w, m + n) == WORDS.Halves(WORDS.Halves(w, m), n)
    decreases n
  {
    if n != 0 {
      HalvesAdd(w, m, n - 1);
    }
  }

  /** The checksum of a message is the one word that is the remainder of its division by the polynomial of RFC 3720. */
  lemma ChecksumIsRemainder(seed: Word, bytes: seq<Byte>, w: Word)
    ensures w == Crc(seed, bytes) <==> Remainder(EXPONENTS, Dividend(seed, bytes), PolyOfWord(w))
  {
    var p := EXPONENTS;
    WordsLawful(p);
    var q := CrcDivides(p, seed, bytes, BITS_PER_BYTE);
    if Remainder(p, Dividend(seed, bytes), PolyOfWord(w)) {
      var q' :| Divided(p, Dividend(seed, bytes), q', PolyOfWord(w));
      RemainderUnique(p, Dividend(seed, bytes), q, PolyOfWord(Crc(seed, bytes)), q', PolyOfWord(w));
      SamePoly(p, w, Crc(seed, bytes));
    }
  }
}
