/**
 Words as polynomials, for any kind of word: bit 0 is the coefficient of the highest power. Taking half of a word, and
 adding the generator if the word was odd, multiplies by `x` and divides by the polynomial.
 */
module WordPolynomials {
  import opened Polynomials

  datatype Bits<!T> = Bits(xor: (T, T) -> T, half: T -> T, odd: T -> bool, zero: T, generator: T)
  {
    predicate Bit(w: T, k: nat)
      decreases k
    {
      if k == 0 then odd(w) else Bit(half(w), k - 1)
    }

    function Halves(w: T, n: nat): T {
      if n == 0 then w else half(Halves(w, n - 1))
    }

    function Step(c: T): T {
      xor(half(c), if odd(c) then generator else zero)
    }

    function Steps(n: nat, c: T): T {
      if n == 0 then c else Step(Steps(n - 1, c))
    }

    ghost predicate Adds(a: T, b: T) {
      half(xor(a, b)) == xor(half(a), half(b)) && (odd(xor(a, b)) <==> (odd(a) != odd(b)))
    }

    /** The coefficient of power `i` among the lowest `n` bits. */
    ghost predicate Coefficient(w: T, n: nat, i: nat) {
      i < n && Bit(w, n - 1 - i)
    }

    ghost function PolyOf(w: T, n: nat): (r: Poly)
      ensures forall i: nat :: i in r <==> Coefficient(w, n, i)
    {
      set i: nat | i < n && Coefficient(w, n, i)
    }

    ghost predicate Ends(w: T) {
      !Bit(w, 32)
    }

    ghost predicate Generates(p: seq<nat>, k: nat) {
      Bit(generator, k) <==> 31 - k in p
    }
  }

  /** Words of 32 bits, and the generator is the polynomial without its highest term. */
  ghost predicate Lawful<T(!new)>(g: Bits<T>, p: seq<nat>) {
    && Divisor(p)
    && (forall a, b :: g.Adds(a, b))
    && g.half(g.zero) == g.zero && !g.odd(g.zero)
    && (forall w :: g.Ends(w))
    && (forall k: nat :: k < 32 ==> g.Generates(p, k))
  }

  lemma {:induction false} BitXor<T(!new)>(g: Bits<T>, p: seq<nat>, a: T, b: T, k: nat)
    requires Lawful(g, p)
    ensures g.Bit(g.xor(a, b), k) <==> (g.Bit(a, k) != g.Bit(b, k))
    decreases k
  {
    assert g.Adds(a, b);
    if k != 0 {
      BitXor(g, p, g.half(a), g.half(b), k - 1);
    }
  }

  lemma {:induction false} BitZero<T(!new)>(g: Bits<T>, p: seq<nat>, k: nat)
    requires Lawful(g, p)
    ensures !g.Bit(g.zero, k)
    decreases k
  {
    if k != 0 {
      BitZero(g, p, k - 1);
    }
  }

  lemma {:induction false} BitHalves<T>(g: Bits<T>, w: T, n: nat, k: nat)
    ensures g.Bit(w, n + k) <==> g.Bit(g.Halves(w, n), k)
    decreases n
  {
    if n != 0 {
      BitHalves(g, w, n - 1, k + 1);
    }
  }

  lemma PolyXor<T(!new)>(g: Bits<T>, p: seq<nat>, a: T, b: T, n: nat)
    requires Lawful(g, p)
    ensures g.PolyOf(g.xor(a, b), n) == Plus(g.PolyOf(a, n), g.PolyOf(b, n))
  {
    forall i: nat
      ensures i in g.PolyOf(g.xor(a, b), n) <==> i in Plus(g.PolyOf(a, n), g.PolyOf(b, n))
    {
      if i < n {
        BitXor(g, p, a, b, n - 1 - i);
      }
    }
  }

  lemma PolyZero<T(!new)>(g: Bits<T>, p: seq<nat>, n: nat)
    requires Lawful(g, p)
    ensures g.PolyOf(g.zero, n) == {}
  {
    forall i: nat
      ensures i !in g.PolyOf(g.zero, n)
    {
      if i < n {
        BitZero(g, p, n - 1 - i);
      }
    }
  }

  /** The terms of the polynomial below the highest. */
  lemma PolyGenerator<T(!new)>(g: Bits<T>, p: seq<nat>)
    requires Lawful(g, p)
    ensures g.PolyOf(g.generator, 32) == (set e | e in p) - {32}
  {
    forall i: nat
      ensures i in g.PolyOf(g.generator, 32) <==> i in (set e | e in p) - {32}
    {
      if i < 32 {
        assert g.Generates(p, 31 - i);
      }
    }
  }

  lemma PolyHalf<T(!new)>(g: Bits<T>, p: seq<nat>, c: T)
    requires Lawful(g, p)
    ensures g.PolyOf(g.half(c), 32) == Up(g.PolyOf(c, 32), 1) - {32}
    ensures 32 in Up(g.PolyOf(c, 32), 1) <==> g.odd(c)
  {
    assert g.Bit(c, 0) == g.odd(c);
    forall i: nat
      ensures i in g.PolyOf(g.half(c), 32) <==> i in Up(g.PolyOf(c, 32), 1) - {32}
    {
      if i < 32 {
        assert g.Bit(c, 32 - i) == g.Bit(g.half(c), 31 - i);
        assert g.Ends(c);
      }
    }
  }

  /** One step multiplies by `x` and takes the polynomial off if the product is of degree 32. */
  lemma StepDivides<T(!new)>(g: Bits<T>, p: seq<nat>, c: T) returns (q: Poly)
    requires Lawful(g, p)
    ensures Divided(p, Up(g.PolyOf(c, 32), 1), q, g.PolyOf(g.Step(c), 32))
  {
    PolyHalf(g, p, c);
    if g.odd(c) {
      q := {0};
      PolyXor(g, p, g.half(c), g.generator, 32);
      PolyGenerator(g, p);
      TimesOne(p);
    } else {
      q := {};
      PolyXor(g, p, g.half(c), g.zero, 32);
      PolyZero(g, p, 32);
      TimesNothing(p);
    }
  }

  lemma {:induction false} StepsDivide<T(!new)>(g: Bits<T>, p: seq<nat>, c: T, n: nat) returns (q: Poly)
    requires Lawful(g, p)
    ensures Divided(p, Up(g.PolyOf(c, 32), n), q, g.PolyOf(g.Steps(n, c), 32))
  {
    if n == 0 {
      q := {};
      DividedSmall(p, g.PolyOf(c, 32));
      assert Up(g.PolyOf(c, 32), 0) == g.PolyOf(c, 32);
    } else {
      var front := StepsDivide(g, p, c, n - 1);
      var more := StepDivides(g, p, g.Steps(n - 1, c));
      q := Plus(Up(front, 1), more);
      DividedUp(p, Up(g.PolyOf(c, 32), n - 1), front, g.PolyOf(g.Steps(n - 1, c), 32), 1, more,
                g.PolyOf(g.Steps(n, c), 32));
      UpUp(g.PolyOf(c, 32), n - 1, 1);
    }
  }
}
