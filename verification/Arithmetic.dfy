/** Division and remainder. */
module Arithmetic {

  lemma DivideShifted(x: int, k: int, d: nat)
    requires 0 < d
    ensures (x + k * d) / d == x / d + k
  {
    var q, r := x / d, x % d;
    assert x + k * d == (q + k) * d + r;
    DivideUnique(x + k * d, d, q + k, r);
  }

  lemma DivideUnique(x: int, d: nat, q: int, r: int)
    requires 0 < d && x == q * d + r && 0 <= r < d
    ensures x / d == q && x % d == r
  {
    var e := x / d - q;
    assert x == (x / d) * d + x % d;
    assert e * d == r - x % d;
    MultipleTooBig(e, d);
  }

  lemma MultipleTooBig(e: int, d: nat)
    requires 0 < d
    ensures e == 0 || e * d <= 0 - d || d <= e * d
  {
  }

  lemma RemainderShifted(x: int, k: int, d: nat)
    requires 0 < d
    ensures (x + k * d) % d == x % d
  {
    DivideShifted(x, k, d);
  }

  lemma QuotientAtLeast(x: nat, d: nat, k: nat)
    requires 0 < d
    ensures k <= x / d <==> k * d <= x
  {
    var q := x / d;
    assert x == q * d + x % d;
    if k <= q {
      assert (q - k) * d >= 0;
    } else {
      MultipleTooBig(k - q, d);
      assert (k - q) * d == k * d - q * d;
    }
  }
}
