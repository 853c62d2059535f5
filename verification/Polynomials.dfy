/**
 Polynomials over the field of two elements, as the sets of exponents whose coefficient is one, and the remainder of
 division by the polynomial of section 12.1 of RFC 3720.
 */
module Polynomials {

  type Poly = set<nat>

  /** The polynomial of CRC32C: its exponents, the highest first. */
  const EXPONENTS: seq<nat> := [32, 28, 27, 26, 25, 23, 22, 20, 19, 18, 14, 13, 11, 10, 9, 8, 6, 0]

  ghost function Plus(a: Poly, b: Poly): Poly {
    (a - b) + (b - a)
  }

  /** The product with `x` to the power `k`. */
  ghost function Up(a: Poly, k: nat): (r: Poly)
    ensures forall x: nat :: x in r <==> k <= x && x - k in a
  {
    set i | i in a :: i + k
  }

  /** The product with the polynomial that has these exponents. */
  ghost function Times(q: Poly, exponents: seq<nat>): Poly {
    if exponents == [] then {} else Plus(Up(q, exponents[0]), Times(q, exponents[1..]))
  }

  ghost predicate Falling(exponents: seq<nat>) {
    forall i, j :: 0 <= i < j < |exponents| ==> exponents[j] < exponents[i]
  }

  /** A polynomial of degree 32. */
  ghost predicate Divisor(p: seq<nat>) {
    Falling(p) && p != [] && p[0] == 32
  }

  /** `d` divided by `p` gives the quotient `q` and the remainder `r`. */
  ghost predicate Divided(p: seq<nat>, d: Poly, q: Poly, r: Poly) {
    d == Plus(Times(q, p), r) && forall x :: x in r ==> x < 32
  }

  ghost predicate Remainder(p: seq<nat>, d: Poly, r: Poly) {
    exists q :: Divided(p, d, q, r)
  }

  // ---------------------------------------------------------------- the ring laws used here

  lemma PlusAssociates(a: Poly, b: Poly, c: Poly)
    ensures Plus(Plus(a, b), c) == Plus(a, Plus(b, c))
  {
  }

  lemma PlusSwap(a: Poly, b: Poly, c: Poly, d: Poly)
    ensures Plus(Plus(a, b), Plus(c, d)) == Plus(Plus(a, c), Plus(b, d))
  {
  }

  lemma UpPlus(a: Poly, b: Poly, k: nat)
    ensures Up(Plus(a, b), k) == Plus(Up(a, k), Up(b, k))
  {
  }

  lemma UpUp(a: Poly, j: nat, k: nat)
    ensures Up(Up(a, j), k) == Up(a, j + k)
  {
  }

  lemma {:induction false} TimesPlus(p: Poly, q: Poly, exponents: seq<nat>)
    ensures Times(Plus(p, q), exponents) == Plus(Times(p, exponents), Times(q, exponents))
  {
    if exponents != [] {
      UpPlus(p, q, exponents[0]);
      TimesPlus(p, q, exponents[1..]);
      PlusSwap(Up(p, exponents[0]), Up(q, exponents[0]), Times(p, exponents[1..]), Times(q, exponents[1..]));
    }
  }

  lemma {:induction false} TimesUp(q: Poly, k: nat, exponents: seq<nat>)
    ensures Times(Up(q, k), exponents) == Up(Times(q, exponents), k)
    decreases |exponents|
  {
    if exponents == [] {
      assert Up({}, k) == {};
    } else {
      var e, rest := exponents[0], exponents[1..];
      TimesUp(q, k, rest);
      UpUp(q, k, e);
      UpUp(q, e, k);
      UpPlus(Up(q, e), Times(q, rest), k);
    }
  }

  lemma {:induction false} TimesOne(exponents: seq<nat>)
    requires Falling(exponents)
    ensures Times({0}, exponents) == set e | e in exponents
  {
    if exponents != [] {
      TimesOne(exponents[1..]);
      assert Up({0}, exponents[0]) == {exponents[0]};
      assert exponents == [exponents[0]] + exponents[1..];
    }
  }

  // ---------------------------------------------------------------- the remainder is determined

  lemma {:induction false} TimesBelow(q: Poly, exponents: seq<nat>, top: nat, x: nat)
    requires forall i :: i in q ==> i <= top
    requires forall k :: 0 <= k < |exponents| ==> exponents[k] < 32
    requires x in Times(q, exponents)
    ensures x < top + 32
    decreases |exponents|
  {
    if x in Times(q, exponents[1..]) {
      TimesBelow(q, exponents[1..], top, x);
    }
  }

  lemma {:induction false} HasTop(q: Poly) returns (top: nat)
    requires q != {}
    ensures top in q && forall i :: i in q ==> i <= top
    decreases |q|
  {
    var some :| some in q;
    var others := q - {some};
    top := some;
    if others != {} {
      var other := HasTop(others);
      top := if some < other then other else some;
    }
    forall i | i in q
      ensures i <= top
    {
      assert i == some || i in others;
    }
  }

  /** A multiple of the polynomial that is not zero has a term of degree 32 or more. */
  lemma MultipleHasTop(p: seq<nat>, q: Poly) returns (x: nat)
    requires Divisor(p) && q != {}
    ensures x in Times(q, p) && 32 <= x
  {
    var top := HasTop(q);
    x := top + 32;
    assert x in Up(q, p[0]);
    if x in Times(q, p[1..]) {
      TimesBelow(q, p[1..], top, x);
    }
  }

  lemma RemainderUnique(p: seq<nat>, d: Poly, q: Poly, r: Poly, q': Poly, r': Poly)
    requires Divisor(p) && Divided(p, d, q, r) && Divided(p, d, q', r')
    ensures q == q' && r == r'
  {
    var both := Plus(q, q');
    TimesPlus(q, q', p);
    assert Times(both, p) == Plus(r, r');
    if both != {} {
      var x := MultipleHasTop(p, both);
    }
    assert q == q';
  }

  // ---------------------------------------------------------------- dividing step by step

  /** Multiplying the dividend multiplies the quotient, and the remainder is divided once more. */
  lemma DividedUp(p: seq<nat>, d: Poly, q: Poly, r: Poly, k: nat, q': Poly, r': Poly)
    requires Divided(p, d, q, r) && Divided(p, Up(r, k), q', r')
    ensures Divided(p, Up(d, k), Plus(Up(q, k), q'), r')
  {
    TimesUp(q, k, p);
    TimesPlus(Up(q, k), q', p);
    UpPlus(Times(q, p), r, k);
    PlusAssociates(Up(Times(q, p), k), Times(q', p), r');
  }

  lemma DividedSmall(p: seq<nat>, r: Poly)
    requires forall x :: x in r ==> x < 32
    ensures Divided(p, r, {}, r)
  {
    TimesNothing(p);
  }

  lemma {:induction false} TimesNothing(exponents: seq<nat>)
    ensures Times({}, exponents) == {}
  {
    if exponents != [] {
      TimesNothing(exponents[1..]);
    }
  }
}
