/** Decimal text of unsigned integers, eight digits at a time. */
module IntegerText {
  import opened Machine
  import opened Decimal

  const TWO45: nat := 0x2000_0000_0000

  const DIV_10000: nat := 0xd1b71759

  // ---------------------------------------------------------------- division by multiplication

  /** The high half of a product of sixteen-bit lanes. */
  function MulHigh(a: nat, b: nat): nat {
    a * b / TWO16
  }

  lemma DivideBy10000(value: nat)
    requires value < 100000000
    ensures value * DIV_10000 / TWO45 == value / 10000
  {
  }

  lemma LaneThousands(n: nat)
    requires n < 10000
    ensures MulHigh(MulHigh(4 * n, 8389), 128) == n / 1000
  {
  }

  lemma LaneHundreds(n: nat)
    requires n < 10000
    ensures MulHigh(MulHigh(4 * n, 5243), 2048) == n / 100
  {
  }

  lemma LaneTens(n: nat)
    requires n < 10000
    ensures MulHigh(MulHigh(4 * n, 13108), 8192) == n / 10
  {
  }

  lemma LaneUnits(n: nat)
    requires n < 10000
    ensures MulHigh(MulHigh(4 * n, 32768), 32768) == n
  {
    assert 4 * n * 32768 == 2 * n * TWO16;
    assert MulHigh(4 * n, 32768) == 2 * n;
    assert 2 * n * 32768 == n * TWO16;
  }

  // ---------------------------------------------------------------- eight digits at once

  /** The leading one, two, three and four digits of a number of four digits. */
  function Leading(n: nat): (nat, nat, nat, nat) {
    (MulHigh(MulHigh(4 * n, 8389), 128), MulHigh(MulHigh(4 * n, 5243), 2048),
     MulHigh(MulHigh(4 * n, 13108), 8192), MulHigh(MulHigh(4 * n, 32768), 32768))
  }

  /** A lane less ten times the lane before it, in sixteen bits. */
  function Lane(leading: nat, before: nat): nat {
    (leading - before * 10 % TWO16) % TWO16
  }

  function Lanes(leading: (nat, nat, nat, nat)): (nat, nat, nat, nat) {
    (leading.0 % TWO16, Lane(leading.1, leading.0), Lane(leading.2, leading.1), Lane(leading.3, leading.2))
  }

  function FourDigits(n: nat): (nat, nat, nat, nat) {
    Lanes(Leading(n))
  }

  lemma LaneIs(leading: nat, before: nat)
    requires before == leading / 10 && leading < 10000
    ensures Lane(leading, before) == leading % 10
  {
  }

  lemma LeadingAre(n: nat)
    requires n < 10000
    ensures Leading(n) == (n / 1000, n / 100, n / 10, n)
  {
    LaneThousands(n);
    LaneHundreds(n);
    LaneTens(n);
    LaneUnits(n);
  }

  lemma Hundreds(n: nat)
    ensures n / 10 / 10 == n / 100
  {
  }

  lemma Thousands(n: nat)
    ensures n / 100 / 10 == n / 1000
  {
  }

  lemma FourDigitsAre(n: nat)
    requires n < 10000
    ensures FourDigits(n) == (n / 1000, n / 100 % 10, n / 10 % 10, n % 10)
  {
    LeadingAre(n);
    Hundreds(n);
    Thousands(n);
    LanesAre(n / 1000, n / 100, n / 10, n);
  }

  lemma LanesAre(a: nat, ab: nat, abc: nat, n: nat)
    requires n < 10000 && abc == n / 10 && ab == abc / 10 && a == ab / 10
    ensures Lanes((a, ab, abc, n)) == (a, ab % 10, abc % 10, n % 10)
  {
    LaneIs(ab, a);
    LaneIs(abc, ab);
    LaneIs(n, abc);
  }

  /** Four digits appended. */
  function Append4(s: seq<char>, d: (nat, nat, nat, nat)): seq<char>
    requires d.0 <= 9 && d.1 <= 9 && d.2 <= 9 && d.3 <= 9
  {
    s + [Digit(d.0), Digit(d.1), Digit(d.2), Digit(d.3)]
  }

  lemma ValueSnoc4(s: seq<char>, a: char, b: char, c: char, d: char)
    ensures Value(s + [a, b, c, d]) ==
            10000 * Value(s) + 1000 * DigitValue(a) + 100 * DigitValue(b) + 10 * DigitValue(c) + DigitValue(d)
  {
    ValueSnoc(s, a);
    ValueSnoc(s + [a], b);
    ValueSnoc(s + [a] + [b], c);
    ValueSnoc(s + [a] + [b] + [c], d);
    assert s + [a, b, c, d] == s + [a] + [b] + [c] + [d];
  }

  lemma DigitsSum(n: nat)
    requires n < 10000
    ensures 1000 * (n / 1000) + 100 * (n / 100 % 10) + 10 * (n / 10 % 10) + n % 10 == n
  {
    Hundreds(n);
    Thousands(n);
    TenSplit(n);
    TenSplit(n / 10);
    TenSplit(n / 100);
  }

  lemma TenSplit(n: nat)
    ensures n == 10 * (n / 10) + n % 10
  {
  }

  /** The text of eight digits, leading zeros included. */
  method Convert8Digits(value: nat) returns (text: seq<char>)
    requires value < 100000000
    ensures |text| == 8 && AllDigits(text) && Value(text) == value
  {
    DivideBy10000(value);
    var abcd := value * DIV_10000 / TWO45;
    var efgh := value - abcd * 10000;
    FourDigitsAre(abcd);
    FourDigitsAre(efgh);
    DigitsSum(abcd);
    DigitsSum(efgh);
    var high, low := FourDigits(abcd), FourDigits(efgh);
    text := Append4([], high);
    ValueSnoc4([], text[0], text[1], text[2], text[3]);
    assert text == [] + [text[0], text[1], text[2], text[3]];
    ValueSnoc4(text, Digit(low.0), Digit(low.1), Digit(low.2), Digit(low.3));
    text := Append4(text, low);
  }

  // ---------------------------------------------------------------- whole numbers

  /** The decimal numeral of `value`: no leading zeros. */
  ghost predicate Numeral(text: seq<char>, value: nat) {
    && text != [] && AllDigits(text) && Value(text) == value
    && (text[0] == '0' ==> |text| == 1)
  }

  /** The digit table, two characters for every number below a hundred, in its rows of twenty. */
  const DIGITS_LUT: seq<string> := [
    "00010203040506070809",
    "10111213141516171819",
    "20212223242526272829",
    "30313233343536373839",
    "40414243444546474849",
    "50515253545556575859",
    "60616263646566676869",
    "70717273747576777879",
    "80818283848586878889",
    "90919293949596979899"
  ]

  /** Row `h` holds the numbers from `10 * h` on. */
  function Row(h: nat): string
    requires h < 10
  {
    [Digit(h), Digit(0), Digit(h), Digit(1), Digit(h), Digit(2), Digit(h), Digit(3), Digit(h), Digit(4),
     Digit(h), Digit(5), Digit(h), Digit(6), Digit(h), Digit(7), Digit(h), Digit(8), Digit(h), Digit(9)]
  }

  lemma LutRow(h: nat)
    requires h < 10
    ensures |DIGITS_LUT| == 10 && DIGITS_LUT[h] == Row(h)
  {
  }

  lemma RowCell(h: nat, l: nat)
    requires h < 10 && l < 10
    ensures Row(h)[2 * l] == Digit(h) && Row(h)[2 * l + 1] == Digit(l)
  {
  }

  lemma LutPlace(x: nat)
    requires x < 100
    ensures 2 * x / 20 == x / 10 < 10 && 2 * x % 20 == 2 * (x % 10)
  {
  }

  /** The two characters of a number below a hundred, at twice the number in the table. */
  method Lut(x: nat) returns (high: char, low: char)
    requires x < 100
    ensures IsDigit(high) && DigitValue(high) == x / 10 && IsDigit(low) && DigitValue(low) == x % 10
  {
    LutPlace(x);
    LutRow(x / 10);
    RowCell(x / 10, x % 10);
    var row := DIGITS_LUT[2 * x / 20];
    high, low := row[2 * x % 20], row[2 * x % 20 + 1];
  }

  /** A text with no leading zero yet, of digits of value `value`. */
  ghost predicate Started(text: seq<char>, value: nat) {
    AllDigits(text) && Value(text) == value && (text == [] || text[0] != '0')
  }

  /** Add a digit, unless it would be a leading zero. */
  method Put(text: seq<char>, c: char, wanted: bool, ghost value: nat) returns (r: seq<char>)
    requires Started(text, value) && IsDigit(c)
    requires wanted <==> text != [] || c != '0'
    ensures Started(r, 10 * value + DigitValue(c)) && (r == [] <==> text == [] && c == '0')
  {
    if wanted {
      ValueSnoc(text, c);
      r := text + [c];
    } else {
      r := text;
    }
  }

  lemma HundredSplit(n: nat)
    ensures n == 100 * (n / 100) + n % 100
    ensures n % 100 == 10 * (n % 100 / 10) + n % 100 % 10
    ensures n / 100 == 10 * (n / 100 / 10) + n / 100 % 10
  {
  }

  /** Up to four digits. */
  method Below10000(value: nat) returns (text: seq<char>)
    requires value < 10000
    ensures Numeral(text, value)
  {
    var d1, d2 := value / 100, value % 100;
    HundredSplit(value);
    var a, b := Lut(d1);
    var c, d := Lut(d2);
    text := Put([], a, value >= 1000, 0);
    text := Put(text, b, value >= 100, d1 / 10);
    text := Put(text, c, value >= 10, d1);
    ValueSnoc(text, d);
    text := text + [d];
  }

  /** The last four of up to eight digits, zeros included. */
  method Put4(text: seq<char>, c: nat, ghost value: nat) returns (r: seq<char>)
    requires Started(text, value) && text != [] && c < 10000
    ensures Started(r, 10000 * value + c) && |r| == |text| + 4
  {
    var d3, d4 := c / 100, c % 100;
    HundredSplit(c);
    var e, f := Lut(d3);
    var g, h := Lut(d4);
    ValueSnoc4(text, e, f, g, h);
    r := text + [e, f, g, h];
  }

  /** Five to eight digits. */
  method Below100000000(value: nat) returns (text: seq<char>)
    requires 10000 <= value < 100000000
    ensures Numeral(text, value)
  {
    var b, c := value / 10000, value % 10000;
    var d1, d2 := b / 100, b % 100;
    HundredSplit(b);
    var e, f := Lut(d1);
    var g, h := Lut(d2);
    text := Put([], e, value >= 10000000, 0);
    text := Put(text, f, value >= 1000000, d1 / 10);
    text := Put(text, g, value >= 100000, d1);
    text := Put(text, h, true, b / 10);
    text := Put4(text, c, b);
  }

  /** Eight digits appended. */
  method Put8(text: seq<char>, v: nat, ghost value: nat) returns (r: seq<char>)
    requires Started(text, value) && text != [] && v < 100000000
    ensures Started(r, 100000000 * value + v) && |r| == |text| + 8
  {
    var b := Convert8Digits(v);
    ValueConcat8(text, b);
    r := text + b;
  }

  lemma ValueConcat8(s: seq<char>, b: seq<char>)
    requires |b| == 8
    ensures Value(s + b) == 100000000 * Value(s) + Value(b)
  {
    var x, y := b[..4], b[4..];
    assert b == x + y && s + b == (s + x) + y;
    assert x == [b[0], b[1], b[2], b[3]] && [] + x == x && y == [b[4], b[5], b[6], b[7]];
    ValueSnoc4(s, b[0], b[1], b[2], b[3]);
    ValueSnoc4([], b[0], b[1], b[2], b[3]);
    ValueSnoc4(s + x, b[4], b[5], b[6], b[7]);
    ValueSnoc4(x, b[4], b[5], b[6], b[7]);
  }

  /** A number of one or two digits. */
  method PutSmall(a: nat) returns (text: seq<char>)
    requires 0 < a < 100
    ensures Started(text, a) && text != []
  {
    if a >= 10 {
      var h, l := Lut(a);
      ValueSnoc([], h);
      ValueSnoc([h], l);
      text := [] + [h] + [l];
    } else {
      ValueSnoc([], Digit(a));
      text := [] + [Digit(a)];
    }
  }

  /** The text of a 32-bit number is its decimal numeral. */
  method U32ToA(value: nat) returns (text: seq<char>)
    requires value < TWO32
    ensures Numeral(text, value)
  {
    if value < 10000 {
      text := Below10000(value);
    } else if value < 100000000 {
      text := Below100000000(value);
    } else {
      var a := value / 100000000;
      text := PutSmall(a);
      text := Put8(text, value % 100000000, a);
    }
  }

  /** The leading zeros among sixteen digits, of which the last is never counted. */
  method CountZeros(text: seq<char>) returns (digit: nat)
    requires |text| == 16
    ensures digit <= 15 && (forall k :: 0 <= k < digit ==> text[k] == '0') && (digit < 15 ==> text[digit] != '0')
  {
    digit := 0;
    while digit < 15 && text[digit] == '0'
      invariant digit <= 15 && forall k :: 0 <= k < digit ==> text[k] == '0'
    {
      digit := digit + 1;
    }
  }

  /** A number with a digit among the first eight has at most seven leading zeros. */
  lemma FewZeros(a0: seq<char>, a1: seq<char>, digit: nat)
    requires |a0| == 8 && 0 < Value(a0) && digit <= |a0 + a1|
    requires forall k :: 0 <= k < digit ==> (a0 + a1)[k] == '0'
    ensures digit < 8
  {
    assert forall k :: 0 <= k < 8 ==> a0[k] == (a0 + a1)[k];
    if 8 <= digit {
      ZeroPrefix(a0);
    }
  }

  /** Shifts of up to eight digits are done; there are no others. */
  method ShiftDigits(text: seq<char>, digit: nat) returns (r: seq<char>)
    requires digit <= |text|
    ensures r == if digit <= 8 then text[digit..] else text
  {
    r := if digit <= 8 then text[digit..] else text;
  }

  lemma {:induction false} ZerosAreNothing(s: seq<char>, n: nat)
    requires n <= |s| && forall k :: 0 <= k < n ==> s[k] == '0'
    ensures Value(s[..n]) == 0 && Value(s) == Value(s[n..])
  {
    ZeroPrefix(s[..n]);
    ValueWithoutPrefix(s[..n], s[n..]);
    assert s == s[..n] + s[n..];
  }

  lemma {:induction false} ZeroPrefix(s: seq<char>)
    requires forall k :: 0 <= k < |s| ==> s[k] == '0'
    ensures Value(s) == 0
  {
    if s != [] {
      ZeroPrefix(s[..|s| - 1]);
    }
  }

  lemma {:induction false} ValueWithoutPrefix(zeros: seq<char>, s: seq<char>)
    requires Value(zeros) == 0
    ensures Value(zeros + s) == Value(s)
    decreases |s|
  {
    if s == [] {
      assert zeros + s == zeros;
    } else {
      assert (zeros + s)[..|zeros + s| - 1] == zeros + s[..|s| - 1];
      ValueWithoutPrefix(zeros, s[..|s| - 1]);
    }
  }

  /** Nine to sixteen digits: all sixteen are made and the leading zeros shifted out. */
  method Below10000000000000000(value: nat) returns (text: seq<char>)
    requires 100000000 <= value < 10000000000000000
    ensures Numeral(text, value)
  {
    var a0 := Convert8Digits(value / 100000000);
    var a1 := Convert8Digits(value % 100000000);
    var all := a0 + a1;
    ValueConcat8(a0, a1);
    var digit := CountZeros(all);
    FewZeros(a0, a1, digit);
    ZerosAreNothing(all, digit);
    text := ShiftDigits(all, digit);
  }

  /** A number of one to four digits. */
  method PutUpTo4(a: nat) returns (text: seq<char>)
    requires 0 < a < 10000
    ensures Started(text, a) && text != []
  {
    if a < 100 {
      text := PutSmall(a);
    } else {
      HundredSplit(a);
      text := PutSmall(a / 100);
      var h, l := Lut(a % 100);
      ValueSnoc(text, h);
      ValueSnoc(text + [h], l);
      text := text + [h] + [l];
    }
  }

  /** The text of a 64-bit number is its decimal numeral. */
  method U64ToA(value: nat) returns (text: seq<char>)
    requires value < TWO64
    ensures Numeral(text, value)
  {
    if value < 10000 {
      text := Below10000(value);
    } else if value < 100000000 {
      text := Below100000000(value);
    } else if value < 10000000000000000 {
      text := Below10000000000000000(value);
    } else {
      var a := value / 10000000000000000;
      var rest := value % 10000000000000000;
      text := PutUpTo4(a);
      text := Put8(text, rest / 100000000, a);
      text := Put8(text, rest % 100000000, 100000000 * a + rest / 100000000);
    }
  }
}
