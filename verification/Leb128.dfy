/** Unsigned LEB128: section 7.6 of the DWARF version 4 standard. */
module Leb128 {
  import opened Machine

  /** Seven bits to a byte, the low ones first, and a mark on every byte but the last. */
  function Leb(n: nat): (r: seq<Byte>)
    ensures r != []
  {
    if n < 128 then [n as Byte] else [(128 + n % 128) as Byte] + Leb(n / 128)
  }

  /** What a run of such bytes stands for. */
  function Worth(bytes: seq<Byte>): nat {
    if bytes == [] then 0 else bytes[0] as int % 128 + 128 * Worth(bytes[1..])
  }

  /** A mark on every byte but the last, and no leading zeroes. */
  ghost predicate Shortest(bytes: seq<Byte>) {
    && bytes != []
    && (forall i :: 0 <= i < |bytes| ==> (bytes[i] < 128 <==> i == |bytes| - 1))
    && (|bytes| == 1 || bytes[|bytes| - 1] != 0)
  }

  /** The encoding is the one shortest run of bytes that stands for the number. */
  lemma {:induction false} LebExactly(n: nat, bytes: seq<Byte>)
    ensures bytes == Leb(n) <==> Shortest(bytes) && Worth(bytes) == n
    decreases |bytes|
  {
    LebShortest(n);
    if Shortest(bytes) && Worth(bytes) == n {
      ShortestIsLeb(bytes, n);
    }
  }

  lemma {:induction false} LebShortest(n: nat)
    ensures Shortest(Leb(n)) && Worth(Leb(n)) == n && (n > 0 ==> Leb(n)[|Leb(n)| - 1] != 0)
  {
    if n >= 128 {
      LebShortest(n / 128);
      assert Leb(n)[1..] == Leb(n / 128);
      assert Worth(Leb(n)) == n % 128 + 128 * (n / 128);
    }
  }

  lemma ShortestRest(bytes: seq<Byte>, rest: seq<Byte>)
    requires Shortest(bytes) && |bytes| > 1 && rest == bytes[1..]
    ensures Shortest(rest) && rest[|rest| - 1] != 0 && bytes[0] >= 128
  {
    assert forall i :: 0 <= i < |rest| ==> rest[i] == bytes[i + 1];
  }

  lemma LebOf(b: Byte, worth: nat, rest: seq<Byte>, n: nat)
    requires 128 <= b && worth > 0 && rest == Leb(worth) && n == b as int % 128 + 128 * worth
    ensures Leb(n) == [b] + rest
  {
    assert n / 128 == worth && n % 128 == b as int - 128;
  }

  lemma {:induction false} ShortestIsLeb(bytes: seq<Byte>, worth: nat)
    requires Shortest(bytes) && worth == Worth(bytes)
    ensures bytes == Leb(worth) && (bytes[|bytes| - 1] != 0 ==> worth > 0)
  {
    var rest := bytes[1..];
    if |bytes| > 1 {
      ShortestRest(bytes, rest);
      var more := Worth(rest);
      ShortestIsLeb(rest, more);
      LebOf(bytes[0], more, rest, worth);
    } else {
      assert Worth(rest) == 0;
    }
  }

  /** Three of the examples in the standard. */
  lemma StandardExamples()
    ensures Leb(127) == [127] && Leb(128) == [128, 1] && Leb(12857) == [57 + 128, 100]
  {
  }

  /** `bytes` stand in `buffer` at `pos`. */
  ghost predicate At(buffer: seq<Byte>, pos: nat, bytes: seq<Byte>) {
    pos + |bytes| <= |buffer| && buffer[pos..pos + |bytes|] == bytes
  }

  lemma AtEnd(buffer: seq<Byte>, bytes: seq<Byte>)
    ensures At(buffer + bytes, |buffer|, bytes)
  {
  }

  lemma AtSplit(buffer: seq<Byte>, pos: nat, a: seq<Byte>, b: seq<Byte>)
    requires At(buffer, pos, a + b)
    ensures At(buffer, pos, a) && At(buffer, pos + |a|, b)
  {
    var s := buffer[pos..pos + |a + b|];
    assert s[..|a|] == a && s[|a|..] == b;
    assert buffer[pos..pos + |a|] == s[..|a|];
    assert buffer[pos + |a|..pos + |a| + |b|] == s[|a|..];
  }

  lemma AtFirst(buffer: seq<Byte>, pos: nat, b: Byte, rest: seq<Byte>)
    requires At(buffer, pos, [b] + rest)
    ensures buffer[pos] == b && At(buffer, pos + 1, rest)
  {
  }

  /** The first byte tells whether more follow and holds the lowest seven bits. */
  lemma LebFirst(buffer: seq<Byte>, pos: nat, v: nat)
    requires At(buffer, pos, Leb(v))
    ensures pos < |buffer| && (buffer[pos] >= 128 <==> v >= 128) && buffer[pos] as int % 128 == v % 128
    ensures |Leb(v)| == if v < 128 then 1 else 1 + |Leb(v / 128)|
    ensures 128 <= v ==> At(buffer, pos + 1, Leb(v / 128))
  {
    AtFirst(buffer, pos, Leb(v)[0], Leb(v)[1..]);
  }

  method Size(value: nat) returns (size: nat)
    ensures size == |Leb(value)|
  {
    var v: nat := value / 128;
    size := 1;
    while v != 0
      invariant size + (if v == 0 then 0 else |Leb(v)|) == |Leb(value)|
      decreases v
    {
      v := v / 128;
      size := size + 1;
    }
  }

  method Write(value: nat) returns (bytes: seq<Byte>)
    ensures bytes == Leb(value)
  {
    var v: nat := value;
    bytes := [];
    while v >= 128
      invariant bytes + Leb(v) == Leb(value)
      decreases v
    {
      ghost var rest := Leb(v / 128);
      bytes := bytes + [(128 + v % 128) as Byte];
      v := v / 128;
    }
    bytes := bytes + [v as Byte];
  }

  lemma Place(value: nat, done: nat, scale: nat, v: nat)
    requires value == done + scale * v
    ensures value == (done + scale * (v % 128)) + (128 * scale) * (v / 128)
  {
  }

  /** `value` is what has been read of `written`; `v` is left, shifted up by `scale`. */
  ghost predicate Partly(written: nat, value: nat, scale: nat, v: nat) {
    written == value + scale * v
  }

  method Accumulate(b: Byte, value: nat, scale: nat, ghost written: nat, ghost v: nat) returns (value': nat,
        scale': nat)
    requires Partly(written, value, scale, v) && b as int % 128 == v % 128
    ensures Partly(written, value', scale', v / 128)
    ensures v < 128 ==> value' == written
  {
    Place(written, value, scale, v);
    value' := value + scale * (b as int % 128);
    scale' := 128 * scale;
  }

  /** Reading what was written gives the value and its length. */
  method Read(buffer: seq<Byte>, pos: nat, ghost written: nat) returns (value: nat, size: nat)
    requires At(buffer, pos, Leb(written))
    ensures value == written && size == |Leb(written)|
  {
    value, size := 0, 0;
    var scale: nat, more := 1, true;
    ghost var v: nat := written;
    while more
      invariant more ==> At(buffer, pos + size, Leb(v)) && Partly(written, value, scale, v)
      invariant |Leb(written)| == size + if more then |Leb(v)| else 0
      invariant !more ==> value == written
      decreases more, v
    {
      LebFirst(buffer, pos + size, v);
      more := buffer[pos + size] >= 128;
      value, scale := Accumulate(buffer[pos + size], value, scale, written, v);
      size := size + 1;
      v := v / 128;
    }
  }

  method Skip(buffer: seq<Byte>, pos: nat, ghost written: nat) returns (size: nat)
    requires At(buffer, pos, Leb(written))
    ensures size == |Leb(written)|
  {
    size := 0;
    var more := true;
    ghost var v: nat := written;
    while more
      invariant more ==> At(buffer, pos + size, Leb(v))
      invariant |Leb(written)| == size + if more then |Leb(v)| else 0
      decreases more, v
    {
      LebFirst(buffer, pos + size, v);
      more := buffer[pos + size] >= 128;
      size := size + 1;
      v := v / 128;
    }
  }
}
