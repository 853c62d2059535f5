/**
 The digit generator of Grisu2. A number `f` with `one` units to the integer is printed with as few
 digits as keep the printed value within `delta` below it.
 */
module DigitGen {
  import opened Machine
  import opened Decimal

  const TWO60: nat := 0x1000_0000_0000_0000

  // ---------------------------------------------------------------- what is promised

  /** The digits' value times 10^`kappa` is at most `f` and no more than `delta` below it. */
  ghost predicate Close(f: nat, delta: nat, one: nat, value: int, kappa: int) {
    if 0 <= kappa then f - delta <= value * (Pow10(kappa) * one) <= f
    else (f - delta) * Pow10(-kappa) <= value * one <= f * Pow10(-kappa)
  }

  ghost predicate Misses(top: int, width: int, unit: nat) {
    forall m: nat :: !(top - width < m * unit <= top)
  }

  /** No multiple of a power of ten above 10^`kappa` is that close, so no shorter text would do. */
  ghost predicate Shortest(f: nat, delta: nat, one: nat, kappa: int) {
    if 0 <= kappa then Misses(f, delta, Pow10(kappa + 1) * one)
    else Misses(f * Pow10(-kappa - 1), delta * Pow10(-kappa - 1), one)
  }

  function Distance(a: int, b: int): nat {
    if a <= b then b - a else a - b
  }

  /** How far the distance from `f` down to the digits' value is from `gap`. */
  ghost function Off(f: nat, one: nat, gap: nat, value: int, kappa: int): nat {
    if 0 <= kappa then Distance(gap, f - value * (Pow10(kappa) * one))
    else Distance(gap, f * Pow10(-kappa) - value * one)
  }

  /** Of all values of that precision that are close, none comes nearer to what rounding aims at. */
  ghost predicate BestRounded(f: nat, delta: nat, one: nat, gap: nat, value: int, kappa: int) {
    forall m: nat :: Close(f, delta, one, m, kappa) ==> Off(f, one, gap, value, kappa) <= Off(f, one, gap, m, kappa)
  }

  // ---------------------------------------------------------------- arithmetic

  lemma MissedMultiple(top: int, width: int, unit: nat, value: int, rest: int, m: nat)
    requires top == value * unit + rest && width <= rest < unit
    ensures !(top - width < m * unit <= top)
  {
    if m <= value {
      assert m * unit <= value * unit;
    } else {
      assert (value + 1) * unit <= m * unit;
    }
  }

  lemma MissedMultiples(top: int, width: int, unit: nat, value: int, rest: int)
    requires top == value * unit + rest && width <= rest < unit
    ensures Misses(top, width, unit)
  {
    forall m: nat
      ensures !(top - width < m * unit <= top)
    {
      MissedMultiple(top, width, unit, value, rest, m);
    }
  }

  /** Splitting one more digit off the integral part. */
  lemma NextIntegralDigit(v: int, p1: nat, p2: nat, power: nat, one: nat, d: nat, q: nat)
    requires 0 < power && d == p1 / power && q == p1 % power
    ensures v * (10 * power * one) + p1 * one + p2 == (10 * v + d) * (power * one) + q * one + p2
    ensures p1 * one + p2 == d * (power * one) + (q * one + p2)
    ensures p1 < 10 * power ==> d <= 9
  {
  }

  lemma TenTimes(x: int, v: int, one: int, d: int, p: int, q: int)
    requires x == v * one + p && 10 * p == d * one + q
    ensures 10 * x == (10 * v + d) * one + q
  {
  }

  lemma Scaled(f: nat, delta: nat, power: nat)
    requires delta <= f
    ensures (f - delta) * power == f * power - delta * power
  {
  }

  // ---------------------------------------------------------------- the state of the two loops

  /** Digits of value `v` are out, `p1` and `p2` are what is left of the integral and fractional parts. */
  ghost predicate Integral(f: nat, delta: nat, one: nat, v: int, p1: nat, p2: nat, kappa: nat) {
    && f == v * (Pow10(kappa) * one) + p1 * one + p2
    && p1 < Pow10(kappa) && p2 < one
    && delta < p1 * one + p2
  }

  /** The integral part is out, and `j` digits of the fraction. */
  ghost predicate Fractional(f: nat, delta: nat, one: nat, v: int, p2: nat, width: nat, j: nat) {
    && f * Pow10(j) == v * one + p2
    && p2 < one
    && width == delta * Pow10(j)
    && width <= p2
  }

  /** Nothing is out yet, or digits of value `v` without a leading zero. */
  ghost predicate Out(buffer: seq<char>, v: int, p1: nat, kappa: nat) {
    && AllDigits(buffer) && Value(buffer) == v
    && (if buffer == [] then v == 0 && 0 < kappa && Pow10(kappa - 1) <= p1 else buffer[0] != '0')
  }

  function Emit(buffer: seq<char>, d: nat): seq<char>
    requires d <= 9
  {
    if d != 0 || buffer != [] then buffer + [Digit(d)] else buffer
  }

  lemma EmitValue(buffer: seq<char>, d: nat)
    requires d <= 9 && AllDigits(buffer)
    ensures AllDigits(Emit(buffer, d)) && Value(Emit(buffer, d)) == 10 * Value(buffer) + d
    ensures buffer != [] && buffer[0] != '0' ==> Emit(buffer, d)[0] != '0'
    ensures buffer == [] && d != 0 ==> Emit(buffer, d) == [Digit(d)] && Emit(buffer, d)[0] != '0'
    ensures Emit(buffer, d) != [] ==> DigitValue(Emit(buffer, d)[|Emit(buffer, d)| - 1]) == d
  {
  }

  // ---------------------------------------------------------------- rounding

  /** The text with its last digit lowered by `r`. */
  ghost predicate Lowered(buffer: seq<char>, out: seq<char>, r: nat) {
    && |out| == |buffer| > 0
    && out[..|out| - 1] == buffer[..|buffer| - 1]
    && DigitValue(out[|out| - 1]) == DigitValue(buffer[|buffer| - 1]) - r
  }

  lemma LoweredValue(buffer: seq<char>, out: seq<char>, r: nat)
    requires Lowered(buffer, out, r) && AllDigits(buffer) && r <= DigitValue(buffer[|buffer| - 1])
    ensures AllDigits(out) && Value(out) == Value(buffer) - r
    ensures buffer[0] != '0' && (1 < |buffer| || r < DigitValue(buffer[|buffer| - 1])) ==> out[0] != '0'
  {
  }

  /** Of all rests that `delta` allows, the one after `r` steps is nearest to `gap`. */
  ghost predicate Nearest(start: nat, unit: nat, delta: nat, gap: nat, r: nat) {
    forall k: nat :: start + k * unit <= delta ==> Distance(gap, start + r * unit) <= Distance(gap, start + k * unit)
  }

  ghost predicate Rounded(buffer: seq<char>, out: seq<char>, delta: nat, start: nat, unit: nat, gap: nat, r: nat) {
    Lowered(buffer, out, r) && start + r * unit <= delta && Nearest(start, unit, delta, gap, r)
  }

  /** Lower the last digit as far as that comes nearer to `gap`, but never by more than `delta` allows.
      `gap` is arbitrary. */
  method GrisuRound(buffer: seq<char>, delta: nat, start: nat, unit: nat, gap: nat) returns (out: seq<char>)
    requires AllDigits(buffer) && buffer != [] && start <= delta && 0 < unit
    requires delta <= start + DigitValue(buffer[|buffer| - 1]) * unit
    ensures exists r: nat :: r <= DigitValue(buffer[|buffer| - 1]) && Rounded(buffer, out, delta, start, unit, gap, r)
  {
    out := buffer;
    ghost var r: nat := 0;
    var rest := start;
    while rest < gap && delta - rest >= unit && (rest + unit < gap || gap - rest > rest + unit - gap)
      invariant rest == start + r * unit <= delta
      invariant r <= DigitValue(buffer[|buffer| - 1]) && Lowered(buffer, out, r)
      invariant forall k: nat :: k < r ==> Distance(gap, rest) <= Distance(gap, start + k * unit)
      decreases delta - rest
    {
      RoundStep(start, unit, delta, r, DigitValue(buffer[|buffer| - 1]));
      var last := DigitValue(out[|out| - 1]);
      out := out[..|out| - 1] + [Digit(last - 1)];
      rest := rest + unit;
      r := r + 1;
    }
    NoFurther(start, unit, delta, gap, r);
    assert Rounded(buffer, out, delta, start, unit, gap, r);
  }

  /** Beyond the step the loop refuses, no rest is nearer. */
  lemma NoFurther(start: nat, unit: nat, delta: nat, gap: nat, r: nat)
    requires var rest := start + r * unit;
             rest <= delta && !(rest < gap && delta - rest >= unit
                 && (rest + unit < gap || gap - rest > rest + unit - gap))
    ensures forall k: nat :: r <= k && start + k * unit <= delta ==>
              Distance(gap, start + r * unit) <= Distance(gap, start + k * unit)
  {
    forall k: nat | r <= k && start + k * unit <= delta
      ensures Distance(gap, start + r * unit) <= Distance(gap, start + k * unit)
    {
      MoreSteps(r, k, unit);
      FurtherOff(start + r * unit, k * unit - r * unit, unit, delta, gap);
    }
  }

  lemma MoreSteps(r: nat, k: nat, unit: nat)
    requires r <= k
    ensures k == r || r * unit + unit <= k * unit
  {
    if r < k {
      TimesMonotone(r + 1, k, unit);
    }
  }

  lemma FurtherOff(rest: nat, more: nat, unit: nat, delta: nat, gap: nat)
    requires rest + more <= delta && (more == 0 || unit <= more)
    requires !(rest < gap && delta - rest >= unit && (rest + unit < gap || gap - rest > rest + unit - gap))
    ensures Distance(gap, rest) <= Distance(gap, rest + more)
  {
  }

  lemma RoundStep(start: nat, unit: nat, delta: nat, r: nat, last: nat)
    requires start + r * unit + unit <= delta <= start + last * unit && r <= last && 0 < unit
    ensures r < last && start + (r + 1) * unit == start + r * unit + unit
  {
  }

  // ---------------------------------------------------------------- one more digit

  lemma IntegralRest(p1: nat, p2: nat, power: nat, one: nat)
    requires p1 < power && p2 < one
    ensures p1 * one + p2 < power * one
  {
    assert (p1 + 1) * one <= power * one;
  }

  lemma IntegralNext(f: nat, delta: nat, one: nat, v: int, p1: nat, p2: nat, kappa: nat, d: nat, q: nat)
    requires Integral(f, delta, one, v, p1, p2, kappa) && 0 < kappa
    requires d == p1 / Pow10(kappa - 1) && q == p1 % Pow10(kappa - 1)
    ensures d <= 9 && q < Pow10(kappa - 1)
    ensures f == (10 * v + d) * (Pow10(kappa - 1) * one) + (q * one + p2)
    ensures delta < q * one + p2 + d * (Pow10(kappa - 1) * one)
    ensures delta < q * one + p2 ==> Integral(f, delta, one, 10 * v + d, q, p2, kappa - 1)
    ensures Misses(f, delta, Pow10(kappa) * one)
    ensures Pow10(kappa - 1) <= p1 ==> 0 < d
  {
    var power := Pow10(kappa - 1);
    NextIntegralDigit(v, p1, p2, power, one, d, q);
    IntegralRest(p1, p2, Pow10(kappa), one);
    MissedMultiples(f, delta, Pow10(kappa) * one, v, p1 * one + p2);
  }

  lemma MorePower(x: nat, j: nat)
    ensures x * Pow10(j + 1) == 10 * (x * Pow10(j))
  {
  }

  lemma TimesMonotone(a: nat, b: nat, c: nat)
    ensures a <= b ==> a * c <= b * c
  {
  }

  lemma FractionDigit(p2: nat, one: nat, d: nat, q: nat)
    requires p2 < one && d == 10 * p2 / one && q == 10 * p2 % one
    ensures d <= 9 && q < one && 10 * p2 == d * one + q
  {
  }

  lemma FractionalNext(f: nat, delta: nat, one: nat, v: int, p2: nat, width: nat, j: nat, d: nat, q: nat)
    requires Fractional(f, delta, one, v, p2, width, j) && d == 10 * p2 / one && q == 10 * p2 % one
    ensures d <= 9 && q < one
    ensures f * Pow10(j + 1) == (10 * v + d) * one + q
    ensures 10 * width <= q + d * one
    ensures 10 * width == delta * Pow10(j + 1)
    ensures 10 * width <= q ==> Fractional(f, delta, one, 10 * v + d, q, 10 * width, j + 1)
    ensures Misses(f * Pow10(j), delta * Pow10(j), one)
  {
    FractionDigit(p2, one, d, q);
    TenTimes(f * Pow10(j), v, one, d, p2, q);
    MorePower(f, j);
    MorePower(delta, j);
    MissedMultiples(f * Pow10(j), delta * Pow10(j), one, v, p2);
  }

  /** Rounding keeps the value close. */
  lemma RoundedClose(top: int, width: nat, unit: nat, value: int, rest: nat, r: nat)
    requires top == value * unit + rest && rest + r * unit <= width
    ensures top - width <= (value - r) * unit <= top
  {
  }

  // ---------------------------------------------------------------- the generator

  function CountDecimalDigit32(n: nat): (r: nat)
    requires n < TWO32
    ensures 1 <= r <= 10 && n < Pow10(r) && (0 < n ==> Pow10(r - 1) <= n)
  {
    Pow10Table(9);
    if n < 10 then 1
    else if n < 100 then 2
    else if n < 1000 then 3
    else if n < 10000 then 4
    else if n < 100000 then 5
    else if n < 1000000 then 6
    else if n < 10000000 then 7
    else if n < 100000000 then 8
    else if n < 1000000000 then 9
    else 10
  }

  lemma RoundBelow(r: nat, last: nat, unit: nat, rest: nat, width: nat)
    requires rest + r * unit <= width < rest + last * unit
    ensures r < last
  {
  }

  /** No multiple of `unit` that is at most `top` and within `width` of it has a distance nearer to `gap`. */
  ghost predicate NearestMultiple(top: int, width: nat, unit: nat, gap: nat, value: int) {
    forall m: nat :: top - width <= m * unit <= top ==>
      Distance(gap, top - value * unit) <= Distance(gap, top - m * unit)
  }

  /** The multiples within reach are those some steps below the digits that are out. */
  lemma StepsBelow(top: int, unit: nat, value: int, rest: nat, m: nat)
    requires top == value * unit + rest && rest < unit && m * unit <= top
    ensures m <= value && top - m * unit == rest + (value - m) * unit
  {
    Multiples(value + 1, m, unit);
    assert (value - m) * unit == value * unit - m * unit;
  }

  lemma Multiples(a: int, b: int, unit: nat)
    ensures a <= b ==> a * unit <= b * unit
  {
  }

  lemma RoundedNearest(top: int, width: nat, unit: nat, gap: nat, value: int, rest: nat, r: nat)
    requires top == value * unit + rest && rest < unit && Nearest(rest, unit, width, gap, r)
    ensures NearestMultiple(top, width, unit, gap, value - r)
  {
    assert top - (value - r) * unit == rest + r * unit;
    forall m: nat | top - width <= m * unit <= top
      ensures Distance(gap, top - (value - r) * unit) <= Distance(gap, top - m * unit)
    {
      StepsBelow(top, unit, value, rest, m);
      var k: nat := value - m;
      assert rest + k * unit <= width;
    }
  }

  /** Round the last digit; the value stays at most `top` and within `width` of it, and is the best there is. */
  method Finish(buffer: seq<char>, ghost top: int, width: nat, rest: nat, unit: nat, gap: nat) returns (out: seq<char>)
    requires AllDigits(buffer) && buffer != [] && buffer[0] != '0' && 0 < unit
    requires top == Value(buffer) * unit + rest && rest < unit
    requires rest <= width <= rest + DigitValue(buffer[|buffer| - 1]) * unit
    requires 1 < |buffer| || width < rest + DigitValue(buffer[|buffer| - 1]) * unit
    ensures AllDigits(out) && out != [] && out[0] != '0'
    ensures top - width <= Value(out) * unit <= top && NearestMultiple(top, width, unit, gap, Value(out))
  {
    out := GrisuRound(buffer, width, rest, unit, gap);
    ghost var r: nat :| r <= DigitValue(buffer[|buffer| - 1]) && Rounded(buffer, out, width, rest, unit, gap, r);
    ghost var last := DigitValue(buffer[|buffer| - 1]);
    if width < rest + last * unit {
      RoundBelow(r, last, unit, rest, width);
    }
    LoweredValue(buffer, out, r);
    RoundedClose(top, width, unit, Value(buffer), rest, r);
    RoundedNearest(top, width, unit, gap, Value(buffer), rest, r);
  }

  /** One digit of the integral part. */
  method IntegralDigit(ghost f: nat, ghost delta: nat, ghost one: nat, buffer: seq<char>, p1: nat, ghost p2: nat,
        kappa: nat)
      returns (next: seq<char>, q: nat)
    requires 0 < kappa <= 10 && Out(buffer, Value(buffer), p1, kappa)
    requires Integral(f, delta, one, Value(buffer), p1, p2, kappa)
    ensures AllDigits(next) && next != [] && next[0] != '0'
    ensures f == Value(next) * (Pow10(kappa - 1) * one) + (q * one + p2)
    ensures q * one + p2 < Pow10(kappa - 1) * one
    ensures delta < q * one + p2 + DigitValue(next[|next| - 1]) * (Pow10(kappa - 1) * one)
    ensures delta < q * one + p2 ==> Integral(f, delta, one, Value(next), q, p2, kappa - 1)
    ensures Misses(f, delta, Pow10(kappa) * one)
  {
    Pow10Table(kappa - 1);
    var d := p1 / POW10[kappa - 1];
    q := p1 % POW10[kappa - 1];
    IntegralNext(f, delta, one, Value(buffer), p1, p2, kappa, d, q);
    IntegralRest(q, p2, Pow10(kappa - 1), one);
    EmitValue(buffer, d);
    next := Emit(buffer, d);
  }

  /** The unit of the last digit is no more than the number itself. */
  lemma UnitFits(f: nat, one: nat, p1: nat, p2: nat, kappa: nat, digits: nat)
    requires kappa < digits && Pow10(digits - 1) <= p1 && p1 * one + p2 <= f
    ensures Pow10(kappa) * one <= f
  {
    Pow10Monotone(kappa, digits - 1);
    TimesMonotone(Pow10(kappa), p1, one);
  }

  /** Digits of the integral part, until the rest is within `delta` or the part is exhausted. */
  method IntegralDigits(f: nat, delta: nat, one: nat, start: nat, p2: nat, digits: nat, gap: int -> nat)
      returns (done: bool, buffer: seq<char>, kappa: nat)
    requires 0 < one && 0 < digits <= 10 && Pow10(digits - 1) <= start && f < TWO64
    requires Integral(f, delta, one, 0, start, p2, digits)
    ensures AllDigits(buffer) && buffer != [] && buffer[0] != '0'
    ensures done ==> Close(f, delta, one, Value(buffer), kappa) && Shortest(f, delta, one, kappa)
    ensures done ==> BestRounded(f, delta, one, gap(kappa), Value(buffer), kappa)
    ensures !done ==> Fractional(f, delta, one, Value(buffer), p2, delta, 0)
  {
    var p1: nat := start;
    kappa, buffer := digits, [];
    while 0 < kappa
      invariant kappa <= digits && Out(buffer, Value(buffer), p1, kappa)
      invariant Integral(f, delta, one, Value(buffer), p1, p2, kappa)
    {
      buffer, p1 := IntegralDigit(f, delta, one, buffer, p1, p2, kappa);
      kappa := kappa - 1;
      var rest := p1 * one + p2;
      if rest <= delta {
        Pow10Table(kappa);
        UnitFits(f, one, start, p2, kappa, digits);
        assert rest < TWO64 && POW10[kappa] * one < TWO64;
        buffer := Finish(buffer, f, delta, rest, POW10[kappa] * one, gap(kappa));
        return true, buffer, kappa;
      }
    }
    done := false;
  }

  method SplitDigit(p2: nat, one: nat) returns (d: nat, q: nat)
    requires p2 < one
    ensures d == 10 * p2 / one && q == 10 * p2 % one && d <= 9
  {
    d, q := 10 * p2 / one, 10 * p2 % one;
    FractionDigit(p2, one, d, q);
  }

  /** One digit of the fraction. */
  method FractionalDigit(ghost f: nat, ghost delta: nat, one: nat, buffer: seq<char>, p2: nat, ghost width: nat,
        ghost j: nat)
      returns (next: seq<char>, q: nat)
    requires AllDigits(buffer) && buffer != [] && buffer[0] != '0'
    requires Fractional(f, delta, one, Value(buffer), p2, width, j)
    ensures AllDigits(next) && 1 < |next| && next[0] != '0'
    ensures f * Pow10(j + 1) == Value(next) * one + q && q < one
    ensures 10 * width == delta * Pow10(j + 1)
    ensures 10 * width <= q + DigitValue(next[|next| - 1]) * one
    ensures 10 * width <= q ==> Fractional(f, delta, one, Value(next), q, 10 * width, j + 1)
    ensures Misses(f * Pow10(j), delta * Pow10(j), one)
  {
    var d: nat;
    d, q := SplitDigit(p2, one);
    FractionalNext(f, delta, one, Value(buffer), p2, width, j, d, q);
    EmitValue(buffer, d);
    next := Emit(buffer, d);
  }

  /** Digits of the fraction, until the rest is less than `delta`. */
  method FractionalDigits(ghost f: nat, ghost delta: nat, one: nat, start: seq<char>, p: nat, width: nat,
        gap: int -> nat)
      returns (buffer: seq<char>, kappa: int)
    requires 0 < delta <= f && 0 < one <= TWO60 && AllDigits(start) && start != [] && start[0] != '0'
    requires Fractional(f, delta, one, Value(start), p, width, 0)
    ensures AllDigits(buffer) && buffer != [] && buffer[0] != '0'
    ensures Close(f, delta, one, Value(buffer), kappa) && Shortest(f, delta, one, kappa)
    ensures BestRounded(f, delta, one, gap(kappa), Value(buffer), kappa)
  {
    var p2: nat, w: nat := p, width;
    kappa, buffer := 0, start;
    while true
      invariant kappa <= 0 && 0 < w && AllDigits(buffer) && buffer != [] && buffer[0] != '0'
      invariant Fractional(f, delta, one, Value(buffer), p2, w, -kappa)
      decreases one - w
    {
      assert 10 * p2 < TWO64 && 10 * w < TWO64;
      buffer, p2 := FractionalDigit(f, delta, one, buffer, p2, w, -kappa);
      w := 10 * w;
      kappa := kappa - 1;
      if p2 < w {
        buffer := Finish(buffer, f * Pow10(-kappa), w, p2, one, gap(kappa));
        Scaled(f, delta, Pow10(-kappa));
        return;
      }
    }
  }

  /** The shortest text within `delta` below `f`, and the best of its length, whatever the rounding aims at. */
  method Generate(f: nat, one: nat, delta: nat, k: int, gap: int -> nat) returns (buffer: seq<char>, exponent: int)
    requires TWO32 <= one <= TWO60 && one <= f < TWO64 && 0 < delta < f
    ensures AllDigits(buffer) && buffer != [] && buffer[0] != '0'
    ensures Close(f, delta, one, Value(buffer), exponent - k)
    ensures Shortest(f, delta, one, exponent - k)
    ensures BestRounded(f, delta, one, gap(exponent - k), Value(buffer), exponent - k)
  {
    var p1, p2 := f / one, f % one;
    IntegralPart(f, one, p1, p2);
    var digits := CountDecimalDigit32(p1);
    var done, kappa;
    done, buffer, kappa := IntegralDigits(f, delta, one, p1, p2, digits, gap);
    exponent := kappa;
    if !done {
      buffer, exponent := FractionalDigits(f, delta, one, buffer, p2, delta, gap);
    }
    exponent := k + exponent;
  }

  lemma IntegralPart(f: nat, one: nat, p1: nat, p2: nat)
    requires TWO32 <= one <= f < TWO64 && p1 == f / one && p2 == f % one
    ensures f == p1 * one + p2 && 0 < p1 < TWO32 && p2 < one
  {
  }

  /** The distance from `f` down to the number to be printed, in the unit of the last digit's power. */
  function Aim(w: nat, kappa: int): nat {
    if 0 <= kappa then w else w * Pow10(-kappa)
  }

  /** How far digits are from the number `f - w`, in that unit. */
  ghost function Apart(f: nat, one: nat, w: nat, value: int, kappa: int): nat {
    if 0 <= kappa then Distance(f - w, value * (Pow10(kappa) * one))
    else Distance((f - w) * Pow10(-kappa), value * one)
  }

  /** Rounding that aims at `w` gives the text nearest to `f - w` of all that are close and as long. */
  lemma NearestToAim(f: nat, delta: nat, one: nat, w: nat, value: int, kappa: int)
    ensures BestRounded(f, delta, one, Aim(w, kappa), value, kappa) <==>
            forall m: nat :: Close(f, delta, one, m, kappa) ==>
              Apart(f, one, w, value, kappa) <= Apart(f, one, w, m, kappa)
  {
    AimApart(f, one, w, value, kappa);
    forall m: nat
      ensures Off(f, one, Aim(w, kappa), m, kappa) == Apart(f, one, w, m, kappa)
    {
      AimApart(f, one, w, m, kappa);
    }
  }

  lemma AimApart(f: nat, one: nat, w: nat, value: int, kappa: int)
    ensures Off(f, one, Aim(w, kappa), value, kappa) == Apart(f, one, w, value, kappa)
  {
    if kappa < 0 {
      assert (f - w) * Pow10(-kappa) == f * Pow10(-kappa) - w * Pow10(-kappa);
    }
  }
}
