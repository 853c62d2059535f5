/**
 Why a remainder can be taken over eight bytes at a time, for any linear step over one byte.
 */
module Slicing {

  /** Words are added by `xor`, `shift` is the step over a zero byte, and `inject(k, b)` is byte `b`
      at position `k` of a word of four bytes. */
  datatype Algebra<!T, !B> = Algebra(xor: (T, T) -> T, shift: T -> T, inject: (nat, B) -> T)
  {
    ghost predicate Associates(a: T, b: T, c: T) {
      xor(xor(a, b), c) == xor(a, xor(b, c))
    }

    ghost predicate Commutes(a: T, b: T) {
      xor(a, b) == xor(b, a)
    }

    ghost predicate Distributes(a: T, b: T) {
      shift(xor(a, b)) == xor(shift(a), shift(b))
    }

    ghost predicate Lowers(k: nat, b: B) {
      shift(inject(k + 1, b)) == inject(k, b)
    }

    function Shifts(n: nat, c: T): T {
      if n == 0 then c else shift(Shifts(n - 1, c))
    }

    function Step(c: T, b: B): T {
      shift(xor(c, inject(0, b)))
    }

    function Word(b0: B, b1: B, b2: B, b3: B): T {
      xor(xor(xor(inject(0, b0), inject(1, b1)), inject(2, b2)), inject(3, b3))
    }

    /** Table `k` says what a byte becomes when `k` more bytes have followed it. */
    function Table(k: nat, b: B): T {
      Shifts(k + 1, inject(0, b))
    }
  }

  ghost predicate Additive<T(!new), B(!new)>(g: Algebra<T, B>) {
    (forall a, b, c :: g.Associates(a, b, c)) && (forall a, b :: g.Commutes(a, b))
  }

  lemma Swap<T(!new), B(!new)>(g: Algebra<T, B>, a: T, b: T, c: T, d: T)
    requires Additive(g)
    ensures g.xor(g.xor(a, b), g.xor(c, d)) == g.xor(g.xor(a, c), g.xor(b, d))
  {
    assert g.Associates(a, b, g.xor(c, d)) && g.Associates(b, c, d) && g.Commutes(b, c);
    assert g.Associates(c, b, d) && g.Associates(a, c, g.xor(b, d));
  }

  ghost predicate Linear<T(!new), B(!new)>(g: Algebra<T, B>) {
    && Additive(g)
    && (forall a, b :: g.Distributes(a, b))
    && (forall k: nat, b :: k < 3 ==> g.Lowers(k, b))
  }

  lemma {:induction false} ShiftsDistribute<T(!new), B(!new)>(g: Algebra<T, B>, n: nat, a: T, b: T)
    requires Linear(g)
    ensures g.Shifts(n, g.xor(a, b)) == g.xor(g.Shifts(n, a), g.Shifts(n, b))
  {
    if 0 < n {
      ShiftsDistribute(g, n - 1, a, b);
      assert g.Distributes(g.Shifts(n - 1, a), g.Shifts(n - 1, b));
    }
  }

  lemma {:induction false} ShiftsInside<T(!new), B(!new)>(g: Algebra<T, B>, n: nat, c: T)
    ensures g.Shifts(n + 1, c) == g.Shifts(n, g.shift(c))
  {
    if 0 < n {
      ShiftsInside(g, n - 1, c);
    }
  }

  lemma {:induction false} ShiftsAdd<T(!new), B(!new)>(g: Algebra<T, B>, m: nat, n: nat, c: T)
    ensures g.Shifts(m, g.Shifts(n, c)) == g.Shifts(m + n, c)
  {
    if 0 < m {
      ShiftsAdd(g, m - 1, n, c);
    }
  }

  /** A byte at position `k` takes `k` shifts to come down. */
  lemma {:induction false} ShiftsLower<T(!new), B(!new)>(g: Algebra<T, B>, n: nat, k: nat, b: B)
    requires Linear(g) && k <= n && k <= 3
    ensures g.Shifts(n, g.inject(k, b)) == g.Shifts(n - k, g.inject(0, b))
  {
    if 0 < k {
      ShiftsInside(g, n - 1, g.inject(k, b));
      assert g.Lowers(k - 1, b);
      ShiftsLower(g, n - 1, k - 1, b);
    }
  }

  /** The bytes of a word contribute each through a table of its own. */
  lemma WordShifts<T(!new), B(!new)>(g: Algebra<T, B>, n: nat, b0: B, b1: B, b2: B, b3: B)
    requires Linear(g) && 4 <= n
    ensures g.Shifts(n, g.Word(b0, b1, b2, b3)) ==
            g.xor(g.xor(g.xor(g.Table(n - 1, b0), g.Table(n - 2, b1)), g.Table(n - 3, b2)), g.Table(n - 4, b3))
  {
    var i0, i1, i2, i3 := g.inject(0, b0), g.inject(1, b1), g.inject(2, b2), g.inject(3, b3);
    ShiftsDistribute(g, n, g.xor(g.xor(i0, i1), i2), i3);
    ShiftsDistribute(g, n, g.xor(i0, i1), i2);
    ShiftsDistribute(g, n, i0, i1);
    ShiftsLower(g, n, 1, b1);
    ShiftsLower(g, n, 2, b2);
    ShiftsLower(g, n, 3, b3);
  }

  /** Adding a byte after a shift is adding it one position higher before. */
  lemma StepAfter<T(!new), B(!new)>(g: Algebra<T, B>, c: T, k: nat, b: B)
    requires Linear(g) && k < 3
    ensures g.xor(g.shift(c), g.inject(k, b)) == g.shift(g.xor(c, g.inject(k + 1, b)))
  {
    assert g.Distributes(c, g.inject(k + 1, b)) && g.Lowers(k, b);
  }

  lemma Regroup<T(!new), B(!new)>(g: Algebra<T, B>, c: T, i0: T, i1: T, i2: T, i3: T)
    requires Linear(g)
    ensures g.xor(c, g.xor(g.xor(g.xor(i0, i1), i2), i3)) == g.xor(g.xor(g.xor(g.xor(c, i0), i1), i2), i3)
  {
    assert g.Associates(c, g.xor(g.xor(i0, i1), i2), i3);
    assert g.Associates(c, g.xor(i0, i1), i2);
    assert g.Associates(c, i0, i1);
  }

  /** Four steps are four shifts of the sum with a whole word. */
  lemma FourSteps<T(!new), B(!new)>(g: Algebra<T, B>, c: T, b0: B, b1: B, b2: B, b3: B)
    requires Linear(g)
    ensures g.Step(g.Step(g.Step(g.Step(c, b0), b1), b2), b3) == g.Shifts(4, g.xor(c, g.Word(b0, b1, b2, b3)))
  {
    var i0, i1, i2, i3 := g.inject(0, b0), g.inject(1, b1), g.inject(2, b2), g.inject(3, b3);
    Regroup(g, c, i0, i1, i2, i3);
    var c1 := g.xor(c, i0);
    var c2 := g.xor(c1, i1);
    var c3 := g.xor(c2, i2);
    var c4 := g.xor(c3, i3);
    StepAfter(g, c1, 0, b1);
    StepAfter(g, g.shift(c2), 0, b2);
    StepAfter(g, c2, 1, b2);
    StepAfter(g, g.shift(g.shift(c3)), 0, b3);
    StepAfter(g, g.shift(c3), 1, b3);
    StepAfter(g, c3, 2, b3);
    assert g.Shifts(4, c4) == g.shift(g.shift(g.shift(g.shift(c4)))) by {
      assert g.Shifts(1, c4) == g.shift(c4);
      assert g.Shifts(2, c4) == g.shift(g.Shifts(1, c4));
      assert g.Shifts(3, c4) == g.shift(g.Shifts(2, c4));
    }
  }

  /** There are eight tables. */
  const LAST_TABLE: nat := 7

  /** Eight steps through the tables from the last down: `e` are the bytes of the sum with the first word. */
  lemma EightSteps<T(!new), B(!new)>(g: Algebra<T, B>, c: T, b0: B, b1: B, b2: B, b3: B,
                                     e0: B, e1: B, e2: B, e3: B, f0: B, f1: B, f2: B, f3: B)
    requires Linear(g) && g.xor(c, g.Word(b0, b1, b2, b3)) == g.Word(e0, e1, e2, e3)
    ensures g.Step(g.Step(g.Step(g.Step(g.Step(g.Step(g.Step(g.Step(c, b0), b1), b2), b3), f0), f1), f2), f3) ==
            g.xor(g.xor(g.xor(
              g.xor(g.xor(g.xor(g.Table(LAST_TABLE, e0), g.Table(LAST_TABLE - 1, e1)), g.Table(LAST_TABLE - 2, e2)),
                    g.Table(LAST_TABLE - 3, e3)),
              g.xor(g.Table(LAST_TABLE - 4, f0), g.Table(LAST_TABLE - 5, f1))),
              g.Table(LAST_TABLE - 6, f2)), g.Table(LAST_TABLE - 7, f3))
  {
    var x, w := g.Word(e0, e1, e2, e3), g.Word(f0, f1, f2, f3);
    FourSteps(g, c, b0, b1, b2, b3);
    FourSteps(g, g.Shifts(4, x), f0, f1, f2, f3);
    ShiftsDistribute(g, 4, g.Shifts(4, x), w);
    ShiftsAdd(g, 4, 4, x);
    WordShifts(g, 8, e0, e1, e2, e3);
    WordShifts(g, 4, f0, f1, f2, f3);
    var t3, t2, t1, t0 := g.Table(3, f0), g.Table(2, f1), g.Table(1, f2), g.Table(0, f3);
    var high := g.Shifts(8, x);
    assert g.Associates(high, g.xor(g.xor(t3, t2), t1), t0);
    assert g.Associates(high, g.xor(t3, t2), t1);
  }
}
