/**
 `LZ4_compress_generic`, no dictionary, output not limited.

 The hash function is a parameter: the table may suggest any earlier position, and only the
 four-byte comparison decides whether the suggestion is used.
 */
module Lz4Compress {
  import opened Machine
  import opened Lz4Format
  import opened Lz4Copy
  import opened Sequences

  const MINLENGTH := MFLIMIT + 1
  const LIMIT_64K := 65536 + (MFLIMIT - 1)
  const SKIP_TRIGGER := 64  // 1 << LZ4_skipTrigger

  /** The four bytes that are read and compared as one word. */
  function Four(src: seq<Byte>, p: nat): seq<Byte>
    requires p + 4 <= |src|
  {
    src[p..p + 4]
  }

  ghost predicate SameBytes(src: seq<Byte>, a: nat, b: nat, n: nat) {
    a + n <= |src| && b + n <= |src| && forall i, j :: a <= i < a + n && j == i - a + b ==> src[i] == src[j]
  }

  ghost predicate Differs(src: seq<Byte>, a: nat, b: nat, i: nat) {
    a + i < |src| && b + i < |src| && src[a + i] != src[b + i]
  }

  /** Where the `n` bytes at `a` and those at `b` differ. */
  ghost function Differences(src: seq<Byte>, a: nat, b: nat, n: nat): set<nat> {
    set i: nat | i < n && Differs(src, a, b, i)
  }

  lemma NoDifferences(src: seq<Byte>, a: nat, b: nat, n: nat)
    requires a + n <= |src| && b + n <= |src|
    ensures SameBytes(src, a, b, n) <==> Differences(src, a, b, n) == {}
  {
    if Differences(src, a, b, n) == {} {
      forall i, j | a <= i < a + n && j == i - a + b
        ensures src[i] == src[j]
      {
        assert i - a !in Differences(src, a, b, n);
      }
    }
  }

  lemma FourSame(src: seq<Byte>, a: nat, b: nat)
    requires a + 4 <= |src| && b + 4 <= |src| && Four(src, a) == Four(src, b)
    ensures SameBytes(src, a, b, 4)
  {
    assert forall i :: 0 <= i < 4 ==> Four(src, a)[i] == src[a + i] && Four(src, b)[i] == src[b + i];
  }

  function Hash(hash: seq<Byte> -> nat, size: nat, src: seq<Byte>, p: nat): (h: nat)
    requires 0 < size && p + 4 <= |src|
    ensures h < size
  {
    hash(Four(src, p)) % size
  }

  /** A 16-bit table keeps the low sixteen bits of a position. */
  function Stored(byU16: bool, p: nat): nat {
    if byU16 then p % 65536 else p
  }

  ghost predicate Below(table: array<nat>, limit: int)
    reads table
  {
    forall h :: 0 <= h < table.Length ==> table[h] < limit
  }

  // ---------------------------------------------------------------- finding and measuring matches

  /** How far a search moves ahead after probe `k`: one byte, and one more after every sixty-four probes. */
  function Stride(k: nat): (n: nat)
    ensures n >= 1
  {
    if k <= 64 then 1 else 1 + Stride(k - 64)
  }

  lemma {:induction false} StrideIs(k: nat)
    ensures Stride(k + 1) == (SKIP_TRIGGER + k) / SKIP_TRIGGER
  {
    if k >= SKIP_TRIGGER {
      StrideIs(k - SKIP_TRIGGER);
    }
  }

  /** The position of probe `k`. */
  function ProbeAt(start: nat, k: nat): (p: nat)
    ensures start <= p
  {
    if k == 0 then start else ProbeAt(start, k - 1) + Stride(k - 1)
  }

  /** A suggestion is used if it is near enough and its four bytes are those at `p`. */
  predicate Usable(src: seq<Byte>, byU16: bool, ref: nat, p: nat) {
    ref + 4 <= |src| && p + 4 <= |src| && (byU16 || ref + MAX_DISTANCE >= p) && Four(src, ref) == Four(src, p)
  }

  /** The position a table suggests for `p`. */
  ghost function Candidate(src: seq<Byte>, table: seq<nat>, hash: seq<Byte> -> nat, p: nat): nat
    requires table != [] && p + 4 <= |src|
  {
    table[Hash(hash, |table|, src, p)]
  }

  /** A search from `start`, with the table as it finds it. */
  datatype Search = Search(src: seq<Byte>, table: seq<nat>, byU16: bool, hash: seq<Byte> -> nat, start: nat) {
    /** The table after the first `k` positions have been entered. */
    ghost function Entered(k: nat): (r: seq<nat>)
      ensures |r| == |table|
    {
      if k == 0 || table == [] then table
      else
        var p := ProbeAt(start, k - 1);
        if p + 4 <= |src| then Entered(k - 1)[Hash(hash, |table|, src, p) := Stored(byU16, p)] else Entered(k - 1)
    }

    /** What comes of it from probe `k` on: the first usable suggestion, unless the input ends before. */
    ghost function Outcome(k: nat): Outcome
      decreases |src| - ProbeAt(start, k)
    {
      var p := ProbeAt(start, k);
      if table == [] || ProbeAt(start, k + 1) + MFLIMIT > |src| then Nothing(k)
      else
        var ref := Candidate(src, Entered(k), hash, p);
        if Usable(src, byU16, ref, p) then Match(k, p, ref) else Outcome(k + 1)
    }
  }

  /** A search gives up, or finds that four bytes at `ip` are those at `ref`, after so many probes. */
  datatype Outcome = Nothing(probes: nat) | Match(probes: nat, ip: nat, ref: nat)

  /** Look up a hash and enter the position in its place. */
  method Enter(table: array<nat>, byU16: bool, h: nat, p: nat) returns (ref: nat)
    requires h < table.Length && Below(table, p)
    modifies table
    ensures ref == old(table[h]) < p && Below(table, p + 1)
    ensures table[..] == old(table[..])[h := Stored(byU16, p)]
  {
    ref := table[h];
    table[h] := Stored(byU16, p);
  }

  lemma UsableSame(src: seq<Byte>, byU16: bool, ref: nat, p: nat)
    requires Usable(src, byU16, ref, p) && ref < p + 1 && (byU16 ==> p <= MAX_DISTANCE)
    ensures p - ref <= MAX_DISTANCE && SameBytes(src, p, ref, 4)
  {
    FourSame(src, p, ref);
  }

  /** One probe of a search. */
  method Probe(src: seq<Byte>, table: array<nat>, byU16: bool, h: nat, ip: nat, ghost search: Search, ghost k: nat)
    returns (hit: bool, ref: nat)
    requires ip + MFLIMIT <= |src| && (byU16 ==> |src| < LIMIT_64K) && h < table.Length && Below(table, ip)
    requires search.src == src && search.byU16 == byU16 && ip == ProbeAt(search.start, k)
    requires h == Hash(search.hash, table.Length, src, ip) && table[..] == search.Entered(k)
    requires ProbeAt(search.start, k + 1) + MFLIMIT <= |src|
    modifies table
    ensures ref < ip && Below(table, ip + 1) && table[..] == search.Entered(k + 1)
    ensures hit ==> ip - ref <= MAX_DISTANCE && SameBytes(src, ip, ref, 4)
    ensures search.Outcome(k) == if hit then Match(k, ip, ref) else search.Outcome(k + 1)
  {
    ref := Enter(table, byU16, h, ip);
    assert ref == Candidate(src, search.Entered(k), search.hash, ip);
    hit := (byU16 || ref + MAX_DISTANCE >= ip) && Four(src, ref) == Four(src, ip);
    if hit {
      UsableSame(src, byU16, ref, ip);
    }
  }

  /** The step from one probe to the next. */
  method MoveAhead(ip: nat, step: nat, searchMatchNb: nat, ghost start: nat, ghost k: nat)
    returns (forwardIp: nat, nextStep: nat, nextNb: nat)
    requires ip == ProbeAt(start, k) && step == Stride(k) && searchMatchNb == SKIP_TRIGGER + k
    ensures ip < forwardIp == ProbeAt(start, k + 1) && nextStep == Stride(k + 1) && nextNb == SKIP_TRIGGER + k + 1
  {
    forwardIp := ip + step;
    nextStep := searchMatchNb / SKIP_TRIGGER;
    nextNb := searchMatchNb + 1;
    StrideIs(k);
  }

  /** The search loop: it skips ahead ever faster while nothing matches, and enters the positions it looks at. */
  method FindMatch(src: seq<Byte>, table: array<nat>, byU16: bool, hash: seq<Byte> -> nat, start: nat, startHash: nat,
                   ghost search: Search)
    returns (found: bool, ip: nat, ref: nat, forwardH: nat, ghost k: nat)
    requires 1 <= start <= |src| - MFLIMIT + 1 && 0 < table.Length && startHash == Hash(hash, table.Length, src, start)
    requires byU16 ==> |src| < LIMIT_64K
    requires Below(table, start) && search == Search(src, table[..], byU16, hash, start)
    modifies table
    ensures found ==>
      && start <= ip && ip + MFLIMIT < |src| && ref < ip && ip - ref <= MAX_DISTANCE
      && SameBytes(src, ip, ref, 4) && Below(table, ip + 1)
    ensures found ==> search.Outcome(0) == Match(k, ip, ref) && table[..] == search.Entered(k + 1)
    ensures !found ==> search.Outcome(0) == Nothing(k) && table[..] == search.Entered(k)
  {
    var forwardIp, step, searchMatchNb := start, 1, SKIP_TRIGGER;
    forwardH := startHash;
    found, ip, ref, k := false, start, 0, 0;
    while true
      invariant step == Stride(k) && searchMatchNb == SKIP_TRIGGER + k
      invariant start <= forwardIp == ProbeAt(start, k) <= |src| - MFLIMIT + 1
      invariant forwardH == Hash(hash, table.Length, src, forwardIp) && Below(table, forwardIp)
      invariant table[..] == search.Entered(k) && search.Outcome(0) == search.Outcome(k)
      decreases |src| - forwardIp
    {
      var h := forwardH;
      ip := forwardIp;
      forwardIp, step, searchMatchNb := MoveAhead(ip, step, searchMatchNb, start, k);
      if forwardIp > |src| - MFLIMIT {
        return;
      }
      forwardH := Hash(hash, table.Length, src, forwardIp);
      found, ref := Probe(src, table, byU16, h, ip, search, k);
      if found {
        return;
      }
      k := k + 1;
    }
  }

  /** One if a match could begin one byte earlier, behind the anchor. */
  ghost function Slack(src: seq<Byte>, anchor: nat, ip: nat, ref: nat): nat {
    if anchor < ip <= |src| && 0 < ref <= |src| && src[ip - 1] == src[ref - 1] then 1 else 0
  }

  /** One if a match that ends at `end` could go on, short of the last literals. */
  ghost function Spare(src: seq<Byte>, end: nat, ref: nat): nat {
    if end < |src| - LASTLITERALS && ref < end && src[end] == src[ref] then 1 else 0
  }

  /** The catch-up loop: a match is extended backwards over bytes not yet emitted. */
  method CatchUp(src: seq<Byte>, anchor: nat, start: nat, startRef: nat) returns (ip: nat, ref: nat)
    requires anchor <= start && startRef < start && start + 4 <= |src|
    requires SameBytes(src, start, startRef, 4)
    ensures anchor <= ip <= start && ref <= startRef && ip - ref == start - startRef
    ensures SameBytes(src, ip, ref, start + 4 - ip)
    ensures Slack(src, anchor, ip, ref) == 0
  {
    ip, ref := start, startRef;
    while ip > anchor && ref > 0 && src[ip - 1] == src[ref - 1]
      invariant anchor <= ip <= start && ref <= startRef && ip - ref == start - startRef
      invariant SameBytes(src, ip, ref, start + 4 - ip)
    {
      ip, ref := ip - 1, ref - 1;
    }
  }

  lemma SameBytesExtend(src: seq<Byte>, p: nat, q: nat, n: nat, k: nat)
    requires SameBytes(src, p, q, n) && SameBytes(src, p + n, q + n, k)
    ensures SameBytes(src, p, q, n + k)
  {
  }

  /** How many leading bytes of two eight-byte words agree. */
  method CommonBytes(src: seq<Byte>, a: nat, b: nat) returns (n: nat)
    requires a + 8 <= |src| && b + 8 <= |src|
    ensures n <= 8 && SameBytes(src, a, b, n)
    ensures n < 8 ==> src[a + n] != src[b + n]
  {
    n := 0;
    while n < 8 && src[a + n] == src[b + n]
      invariant n <= 8 && SameBytes(src, a, b, n)
    {
      n := n + 1;
    }
  }

  /** The last seven bytes of a count: four, two, one. */
  method CountTail(src: seq<Byte>, p: nat, q: nat, limit: nat) returns (n: nat)
    requires q < p <= limit <= |src| && limit - p <= 7
    ensures p + n <= limit && SameBytes(src, p, q, n)
    ensures p + n == limit || src[p + n] != src[q + n]
  {
    n := 0;
    if p < limit - 3 && Four(src, q) == Four(src, p) {
      FourSame(src, p, q);
      n := 4;
    }
    if p + n < limit - 1 && src[q + n] == src[p + n] && src[q + n + 1] == src[p + n + 1] {
      n := n + 2;
    }
    if p + n < limit && src[q + n] == src[p + n] {
      n := n + 1;
    }
  }

  /** `LZ4_count`: the length of the common prefix, in steps of eight, then four, two and one. */
  method Count(src: seq<Byte>, p: nat, q: nat, limit: nat) returns (n: nat)
    requires q < p <= limit <= |src|
    ensures p + n <= limit && SameBytes(src, p, q, n)
    ensures p + n == limit || src[p + n] != src[q + n]
  {
    n := 0;
    while p + n < limit - 7
      invariant p + n <= limit && SameBytes(src, p, q, n)
      decreases limit - n
    {
      var common := CommonBytes(src, p + n, q + n);
      SameBytesExtend(src, p, q, n, common);
      n := n + common;
      if common < 8 {
        return;
      }
    }
    var tail := CountTail(src, p + n, q + n, limit);
    SameBytesExtend(src, p, q, n, tail);
    n := n + tail;
  }

  // ---------------------------------------------------------------- writing the block

  /** Length bytes one at a time. */
  method EmitLength(dest: array<Byte>, start: nat, n: nat) returns (op: nat)
    requires start + |LengthBytes(n)| <= dest.Length
    modifies dest
    ensures op == start + |LengthBytes(n)|
    ensures dest[..op] == old(dest[..start]) + LengthBytes(n)
  {
    op := start;
    var length := n;
    while length >= 255
      invariant start <= op <= dest.Length && op + |LengthBytes(length)| == start + |LengthBytes(n)|
      invariant dest[..op] + LengthBytes(length) == old(dest[..start]) + LengthBytes(n)
    {
      dest[op] := 255;
      ghost var before := dest[..op];
      op, length := op + 1, length - 255;
      assert dest[..op] + LengthBytes(length) == before + LengthBytes(length + 255);
    }
    dest[op] := length;
    op := op + 1;
  }

  /** Length bytes two at a time while there are two full ones. */
  method EmitFullPairs(dest: array<Byte>, start: nat, n: nat) returns (op: nat, length: nat)
    requires start + |LengthBytes(n)| <= dest.Length
    modifies dest
    ensures length < 510 && start <= op && op + |LengthBytes(length)| == start + |LengthBytes(n)|
    ensures dest[..op] + LengthBytes(length) == old(dest[..start]) + LengthBytes(n)
  {
    op, length := start, n;
    while length >= 510
      invariant start <= op <= dest.Length && op + |LengthBytes(length)| == start + |LengthBytes(n)|
      invariant dest[..op] + LengthBytes(length) == old(dest[..start]) + LengthBytes(n)
    {
      assert LengthBytes(length) == [255, 255] + LengthBytes(length - 510);
      dest[op] := 255;
      dest[op + 1] := 255;
      ghost var before := dest[..op];
      op, length := op + 2, length - 510;
      assert dest[..op] + LengthBytes(length) == before + LengthBytes(length + 510);
    }
  }

  /** Length bytes two at a time, as the match length is written. */
  method EmitLengthPairs(dest: array<Byte>, start: nat, n: nat) returns (op: nat)
    requires start + |LengthBytes(n)| <= dest.Length
    modifies dest
    ensures op == start + |LengthBytes(n)|
    ensures dest[..op] == old(dest[..start]) + LengthBytes(n)
  {
    var length;
    op, length := EmitFullPairs(dest, start, n);
    ghost var before, rest := dest[..op], LengthBytes(length);
    if length >= 255 {
      length := length - 255;
      dest[op] := 255;
      op := op + 1;
    }
    dest[op] := length;
    op := op + 1;
    assert dest[..op] == before + rest;
  }

  /** The token of `n` literals and what of their number does not fit in it. */
  method EmitToken(dest: array<Byte>, start: nat, n: nat) returns (op: nat)
    requires start + 1 + |Extension(n)| <= dest.Length
    modifies dest
    ensures op == start + 1 + |Extension(n)|
    ensures dest[..op] == old(dest[..start]) + ([Token(n, 0)] + Extension(n))
  {
    op := start + 1;
    if n >= RUN_MASK {
      dest[start] := RUN_MASK * 16;
      op := EmitLength(dest, op, n - RUN_MASK);
    } else {
      dest[start] := n * 16;
    }
  }

  /** Token, literal length and literals; the match part of the token is still zero. */
  method EmitLiterals(dest: array<Byte>, start: nat, src: seq<Byte>, anchor: nat, ip: nat) returns (op: nat)
    requires anchor <= ip && ip + 8 <= |src|
    requires start + |EncodeLiterals(0, Slice(src, anchor, ip))| + 8 <= dest.Length
    modifies dest
    ensures op == start + |EncodeLiterals(0, Slice(src, anchor, ip))|
    ensures dest[..op] == old(dest[..start]) + EncodeLiterals(Token(ip - anchor, 0), Slice(src, anchor, ip))
  {
    var n := ip - anchor;
    op := EmitToken(dest, start, n);
    WildCopyFrom(dest, op, src, anchor, n);
    op := op + n;
    Associate(old(dest[..start]), [Token(n, 0)] + Extension(n), Slice(src, anchor, ip));
  }

  /** Offset and match length, completing the token written at `token`. */
  method EmitMatch(dest: array<Byte>, token: nat, start: nat, offset: nat, code: nat) returns (op: nat)
    requires offset <= MAX_DISTANCE && start + |EncodeMatch(offset, code)| <= dest.Length
    requires token < start && dest[token] + RUN_MASK < 256
    modifies dest
    ensures op == start + |EncodeMatch(offset, code)|
    ensures old(dest[token]) + Nibble(code) < 256
    ensures dest[..op] == old(dest[..start])[token := old(dest[token]) + Nibble(code)] + EncodeMatch(offset, code)
  {
    dest[start], dest[start + 1] := offset % 256, offset / 256;
    dest[token] := dest[token] + Nibble(code);
    ghost var head := old(dest[..start])[token := old(dest[token]) + Nibble(code)];
    op := start + 2;
    assert dest[..op] == head + [offset % 256, offset / 256];
    if code >= RUN_MASK {
      op := EmitLengthPairs(dest, op, code - RUN_MASK);
    }
    Associate(head, [offset % 256, offset / 256], Extension(code));
  }

  // ---------------------------------------------------------------- what has been written so far

  /** The sequences written so far stand for exactly the input up to `anchor`. */
  ghost predicate Written(src: seq<Byte>, anchor: nat, ss: Block, out: seq<Byte>) {
    && Valid(ss, |src|) && anchor <= |src|
    && ExpandSequences(ss, |src|) == src[..anchor]
    && EncodeSequences(ss) == out
  }

  /** How many matches could be longer. */
  ghost function Loose(src: seq<Byte>, ss: Block): nat {
    if ss.Empty? then 0
    else Loose(src, ss.front) + if TightAt(src, ss.newest, ExpandedSize(ss.front) + |ss.newest.literals|) then 0 else 1
  }

  /** The match at `at` ends where the copies differ or the last literals begin, and begins where they differ, at the
      start of the input or right behind the match before. */
  ghost predicate TightAt(src: seq<Byte>, s: Sequence, at: nat) {
    var end := at + s.matchLength;
    && 1 <= s.offset <= at <= end <= |src| - LASTLITERALS
    && (s.literals == [] || at == s.offset || src[at - 1] != src[at - s.offset - 1])
    && (end == |src| - LASTLITERALS || src[end] != src[end - s.offset])
  }

  /** A repeated stretch of the input can be appended as one more sequence. */
  lemma AppendSequence(src: seq<Byte>, anchor: nat, ss: Block, out: seq<Byte>, ip: nat, ref: nat, end: nat,
                       s: Sequence, out': seq<Byte>)
    requires Written(src, anchor, ss, out)
    requires anchor <= ip && ref < ip && ip - ref <= MAX_DISTANCE
    requires ip + MINMATCH <= end && SameBytes(src, ip, ref, end - ip)
    requires ip + MFLIMIT <= |src| && end + LASTLITERALS <= |src|
    requires s.literals == Slice(src, anchor, ip) && s.offset == ip - ref && s.matchLength == end - ip
    requires out' == out + EncodeSequence(s)
    ensures Written(src, end, More(ss, s), out')
  {
    MatchContinues(src, anchor, ip, ref, end, s);
    AppendExpanded(src, anchor, ss, out, ip, ref, end, s, out');
  }

  lemma AppendExpanded(src: seq<Byte>, anchor: nat, ss: Block, out: seq<Byte>, ip: nat, ref: nat, end: nat,
                       s: Sequence, out': seq<Byte>)
    requires Written(src, anchor, ss, out)
    requires anchor <= ip && ref < ip && ip - ref <= MAX_DISTANCE && ip + MINMATCH <= end
    requires ip + MFLIMIT <= |src| && end + LASTLITERALS <= |src|
    requires s.literals == Slice(src, anchor, ip) && s.offset == ip - ref && s.matchLength == end - ip
    requires Continues(src, anchor, s, end)
    requires out' == out + EncodeSequence(s)
    ensures Written(src, end, More(ss, s), out')
  {
    AppendValid(src, anchor, ss, out, ip, ref, end, s);
    MoreMeans(ss, s, |src|);
  }

  /** Expanding one more sequence leads from the input up to `anchor` to the input up to `end`. */
  ghost predicate Continues(src: seq<Byte>, anchor: nat, s: Sequence, end: nat) {
    && anchor <= end <= |src| && 1 <= s.offset <= anchor + |s.literals|
    && CopyMatch(src[..anchor] + s.literals, s.offset, s.matchLength) == src[..end]
  }

  lemma MatchContinues(src: seq<Byte>, anchor: nat, ip: nat, ref: nat, end: nat, s: Sequence)
    requires anchor <= ip && ref < ip <= end && SameBytes(src, ip, ref, end - ip)
    requires s.literals == Slice(src, anchor, ip) && s.offset == ip - ref && s.matchLength == end - ip
    ensures Continues(src, anchor, s, end)
  {
    InputRepeats(src, anchor, ip, ref, end);
  }

  /** One more sequence, in bytes and in what it stands for. */
  lemma MoreMeans(ss: Block, s: Sequence, total: nat)
    requires Valid(More(ss, s), total)
    ensures EncodeSequences(More(ss, s)) == EncodeSequences(ss) + EncodeSequence(s)
    ensures ExpandSequences(More(ss, s), total)
            == CopyMatch(ExpandSequences(ss, total) + s.literals, s.offset, s.matchLength)
  {
  }

  lemma AppendValid(src: seq<Byte>, anchor: nat, ss: Block, out: seq<Byte>, ip: nat, ref: nat, end: nat, s: Sequence)
    requires Written(src, anchor, ss, out)
    requires anchor <= ip && ref < ip && ip - ref <= MAX_DISTANCE && ip + MINMATCH <= end
    requires ip + MFLIMIT <= |src| && end + LASTLITERALS <= |src|
    requires s.literals == Slice(src, anchor, ip) && s.offset == ip - ref && s.matchLength == end - ip
    ensures Valid(More(ss, s), |src|)
  {
    assert ExpandedSize(ss) == anchor;
  }

  lemma InputRepeats(src: seq<Byte>, anchor: nat, ip: nat, ref: nat, end: nat)
    requires anchor <= ip <= end <= |src| && ref < ip && SameBytes(src, ip, ref, end - ip)
    ensures CopyMatch(src[..anchor] + Slice(src, anchor, ip), ip - ref, end - ip) == src[..end]
  {
    assert src[..anchor] + Slice(src, anchor, ip) == src[..ip];
    assert Repeats(src[..end], ip, end, ip - ref);
    CopyMatchUnique(src[..ip], ip - ref, end - ip, src[..end]);
  }

  lemma RoomForLiterals(size: nat, anchor: nat, op: nat, n: nat)
    requires 255 * op <= 256 * anchor && anchor + n + MFLIMIT <= size
    ensures op + 1 + |Extension(n)| + n + 8 <= size + size / 255 + 16
    ensures 255 * (op + 1 + |Extension(n)| + n) <= 256 * (anchor + n) + 495
  {
    ExtensionBound(n);
  }

  lemma RoomForMatch(size: nat, ip: nat, op: nat, code: nat)
    requires 255 * op <= 256 * ip + 495 && ip + MINMATCH + code + LASTLITERALS <= size
    ensures op + 2 + |Extension(code)| <= size + size / 255 + 16
  {
    ExtensionBound(code);
  }

  /** The open half of a sequence; right after another match it is a bare zero token. */
  method EmitHead(src: seq<Byte>, dest: array<Byte>, start: nat, anchor: nat, at: nat, chained: bool) returns (op: nat)
    requires anchor <= at && at + 8 <= |src| && (chained ==> anchor == at)
    requires start + |EncodeLiterals(0, Slice(src, anchor, at))| + 8 <= dest.Length
    modifies dest
    ensures op == start + |EncodeLiterals(0, Slice(src, anchor, at))|
    ensures dest[..op] == old(dest[..start]) + EncodeLiterals(Token(at - anchor, 0), Slice(src, anchor, at))
  {
    if chained {
      assert Slice(src, anchor, at) == [];
      dest[start] := 0;
      op := start + 1;
    } else {
      op := EmitLiterals(dest, start, src, anchor, at);
    }
  }

  /** Adding the match length to the token in place gives the token of the whole sequence. */
  lemma TokenCompleted(out: seq<Byte>, literals: seq<Byte>, offset: nat, code: nat)
    requires 1 <= offset <= MAX_DISTANCE
    ensures var begun := out + EncodeLiterals(Token(|literals|, 0), literals);
            begun[|out| := Token(|literals|, 0) + Nibble(code)] + EncodeMatch(offset, code)
            == out + EncodeSequence(Sequence(literals, offset, MINMATCH + code))
  {
    var head := EncodeLiterals(Token(|literals|, code), literals);
    var begun := out + EncodeLiterals(Token(|literals|, 0), literals);
    assert begun[|out| := Token(|literals|, 0) + Nibble(code)] == out + head;
    Associate(out, head, EncodeMatch(offset, code));
  }

  /** Behind the token and the literals of a sequence, its back reference. */
  method EmitTail(dest: array<Byte>, start: nat, at: nat, offset: nat, code: nat, ghost out: seq<Byte>,
                  ghost literals: seq<Byte>, ghost s: Sequence) returns (op: nat)
    requires s == Sequence(literals, offset, MINMATCH + code)
    requires 1 <= offset <= MAX_DISTANCE && start == |out| < at && at + |EncodeMatch(offset, code)| <= dest.Length
    requires dest[..at] == out + EncodeLiterals(Token(|literals|, 0), literals)
    modifies dest
    ensures at <= op <= dest.Length
    ensures dest[..op] == out + EncodeSequence(s)
  {
    assert dest[start] == Token(|literals|, 0) by {
      assert dest[start] == dest[..at][start];
    }
    op := EmitMatch(dest, start, at, offset, code);
    TokenCompleted(out, literals, offset, code);
  }

  lemma RoomForSequence(src: seq<Byte>, room: nat, start: nat, anchor: nat, at: nat, offset: nat, code: nat,
        literals: seq<Byte>)
    requires room >= |src| + |src| / 255 + 16 && 255 * start <= 256 * anchor
    requires anchor <= at && 1 <= offset <= MAX_DISTANCE && |literals| == at - anchor
    requires at + MFLIMIT <= |src| && at + MINMATCH + code + LASTLITERALS <= |src|
    ensures start + |EncodeLiterals(0, literals)| + 8 <= room
    ensures start + |EncodeLiterals(0, literals)| + |EncodeMatch(offset, code)| <= room
  {
    RoomForLiterals(|src|, anchor, start, at - anchor);
    RoomForMatch(|src|, at, start + |EncodeLiterals(0, literals)|, code);
  }

  /** The bytes of one sequence: the literals since `anchor` and a match of `4 + code` bytes. */
  method EmitBytes(src: seq<Byte>, dest: array<Byte>, start: nat, anchor: nat, at: nat, offset: nat, chained: bool,
                   code: nat, ghost ss: Block) returns (op: nat, ghost s: Sequence)
    requires dest.Length >= CompressBound(|src|) && |src| <= MAX_INPUT_SIZE
    requires anchor <= at && (chained ==> anchor == at) && 1 <= offset <= MAX_DISTANCE
    requires at + MFLIMIT <= |src| && at + MINMATCH + code + LASTLITERALS <= |src| && start <= dest.Length
    requires Written(src, anchor, ss, dest[..start])
    modifies dest
    ensures start <= op <= dest.Length
    ensures s == Sequence(Slice(src, anchor, at), offset, MINMATCH + code)
    ensures dest[..op] == old(dest[..start]) + EncodeSequence(s)
  {
    ghost var out, literals := dest[..start], Slice(src, anchor, at);
    s := Sequence(literals, offset, MINMATCH + code);
    WrittenSize(src, anchor, ss, out);
    RoomForSequence(src, dest.Length, start, anchor, at, offset, code, literals);
    op := EmitHead(src, dest, start, anchor, at, chained);
    op := EmitTail(dest, start, op, offset, code, out, literals, s);
  }

  /** The match length beyond the first four bytes: at least what is known, and never to be extended. */
  method MeasureMatch(src: seq<Byte>, at: nat, ref: nat, ghost known: nat) returns (code: nat)
    requires ref < at && MINMATCH <= known && SameBytes(src, at, ref, known) && at + known + LASTLITERALS <= |src|
    ensures known <= MINMATCH + code && at + MINMATCH + code + LASTLITERALS <= |src|
    ensures Differences(src, at, ref, MINMATCH + code) == {}
    ensures Spare(src, at + MINMATCH + code, ref + MINMATCH + code) == 0
  {
    code := Count(src, at + MINMATCH, ref + MINMATCH, |src| - LASTLITERALS);
    NoDifferences(src, at, ref, MINMATCH + code);
  }

  lemma WrittenSize(src: seq<Byte>, anchor: nat, ss: Block, out: seq<Byte>)
    requires Written(src, anchor, ss, out)
    ensures ExpandedSize(ss) == anchor && 255 * |out| <= 256 * anchor
  {
    SequencesBound(ss, |src|);
  }

  lemma AppendTight(src: seq<Byte>, anchor: nat, ss: Block, at: nat, ref: nat, code: nat, s: Sequence)
    requires ExpandedSize(ss) == anchor && Loose(src, ss) == 0
    requires anchor <= at && at + MINMATCH + code + LASTLITERALS <= |src| && ref < at
    requires |s.literals| == at - anchor && s.offset == at - ref && s.matchLength == MINMATCH + code
    requires Slack(src, anchor, at, ref) == 0
    requires Spare(src, at + MINMATCH + code, ref + MINMATCH + code) == 0
    ensures Loose(src, More(ss, s)) == 0
  {
    assert TightAt(src, s, at);
  }

  /** The block with one more sequence, whose match cannot be longer. */
  lemma AppendLongest(src: seq<Byte>, anchor: nat, ss: Block, out: seq<Byte>, at: nat, ref: nat, code: nat, s: Sequence,
                      out': seq<Byte>)
    requires Written(src, anchor, ss, out) && Loose(src, ss) == 0
    requires anchor <= at && ref < at && at - ref <= MAX_DISTANCE && at + MFLIMIT <= |src|
    requires at + MINMATCH + code + LASTLITERALS <= |src| && Differences(src, at, ref, MINMATCH + code) == {}
    requires s == Sequence(Slice(src, anchor, at), at - ref, MINMATCH + code) && out' == out + EncodeSequence(s)
    requires Slack(src, anchor, at, ref) == 0 && Spare(src, at + MINMATCH + code, ref + MINMATCH + code) == 0
    ensures Written(src, at + MINMATCH + code, More(ss, s), out') && Loose(src, More(ss, s)) == 0
  {
    WrittenSize(src, anchor, ss, out);
    NoDifferences(src, at, ref, MINMATCH + code);
    AppendTight(src, anchor, ss, at, ref, code, s);
    AppendSequence(src, anchor, ss, out, at, ref, at + MINMATCH + code, s, out');
  }

  /** The bytes of a sequence whose match is the longest that `at` and `ref` share. */
  method EmitLongest(src: seq<Byte>, dest: array<Byte>, start: nat, anchor: nat, at: nat, ref: nat, chained: bool,
                     ghost known: nat, ghost ss: Block) returns (op: nat, code: nat, ghost s: Sequence)
    requires dest.Length >= CompressBound(|src|) && |src| <= MAX_INPUT_SIZE
    requires start <= dest.Length && Written(src, anchor, ss, dest[..start])
    requires anchor <= at && ref < at && at - ref <= MAX_DISTANCE && at + MFLIMIT <= |src|
    requires MINMATCH <= known && SameBytes(src, at, ref, known) && at + known + LASTLITERALS <= |src|
    requires chained ==> anchor == at
    modifies dest
    ensures known <= MINMATCH + code && at + MINMATCH + code + LASTLITERALS <= |src| && op <= dest.Length
    ensures Differences(src, at, ref, MINMATCH + code) == {}
    ensures Spare(src, at + MINMATCH + code, ref + MINMATCH + code) == 0
    ensures s == Sequence(Slice(src, anchor, at), at - ref, MINMATCH + code)
    ensures dest[..op] == old(dest[..start]) + EncodeSequence(s)
  {
    code := MeasureMatch(src, at, ref, known);
    op, s := EmitBytes(src, dest, start, anchor, at, at - ref, chained, code, ss);
  }

  /** One turn of the compressor: a sequence whose match is the longest that `at` and `ref` share.
      `known` bytes of it have been compared already. */
  method EmitSequence(src: seq<Byte>, dest: array<Byte>, start: nat, anchor: nat, at: nat, ref: nat, chained: bool,
                      ghost known: nat, ghost ss: Block) returns (op: nat, ip: nat, ghost s: Sequence)
    requires dest.Length >= CompressBound(|src|) && |src| <= MAX_INPUT_SIZE
    requires start <= dest.Length && Written(src, anchor, ss, dest[..start])
    requires anchor <= at && ref < at && at - ref <= MAX_DISTANCE && at + MFLIMIT <= |src|
    requires MINMATCH <= known && SameBytes(src, at, ref, known) && at + known + LASTLITERALS <= |src|
    requires chained ==> anchor == at
    requires Loose(src, ss) == 0 && Slack(src, anchor, at, ref) == 0
    modifies dest
    ensures at + known <= ip && ip + LASTLITERALS <= |src| && op <= dest.Length
    ensures Written(src, ip, More(ss, s), dest[..op]) && Loose(src, More(ss, s)) == 0
    ensures s.literals == Slice(src, anchor, at) && s.offset == at - ref
  {
    ghost var out := dest[..start];
    var code;
    op, code, s := EmitLongest(src, dest, start, anchor, at, ref, chained, known, ss);
    ip := at + MINMATCH + code;
    AppendLongest(src, anchor, ss, out, at, ref, code, s, dest[..op]);
  }

  // ---------------------------------------------------------------- the compressor

  /** What is seen right behind a match that ends at `ip`, and the table after that. */
  ghost predicate Seen(src: seq<Byte>, before: seq<nat>, byU16: bool, hash: seq<Byte> -> nat, ip: nat, chained: bool,
                       ref: nat, after: seq<nat>) {
    && before != [] && 2 <= ip && ip + 4 <= |src|
    && var filled := before[Hash(hash, |before|, src, ip - 2) := Stored(byU16, ip - 2)];
       && ref == Candidate(src, filled, hash, ip)
       && (chained <==> ref + MAX_DISTANCE >= ip && Usable(src, byU16, ref, ip))
       && after == filled[Hash(hash, |before|, src, ip) := Stored(byU16, ip)]
  }

  /** The test right after a match: does the next position match as it stands? */
  method NextMatch(src: seq<Byte>, table: array<nat>, byU16: bool, hash: seq<Byte> -> nat, ip: nat)
    returns (chained: bool, ref: nat)
    requires 4 <= ip && ip + MFLIMIT <= |src| && 0 < table.Length
    requires byU16 ==> |src| < LIMIT_64K
    requires Below(table, ip)
    modifies table
    ensures Below(table, ip + 1)
    ensures chained ==> ref < ip && ip - ref <= MAX_DISTANCE && SameBytes(src, ip, ref, 4)
    ensures Seen(src, old(table[..]), byU16, hash, ip, chained, ref, table[..])
  {
    table[Hash(hash, table.Length, src, ip - 2)] := Stored(byU16, ip - 2);
    ref := Enter(table, byU16, Hash(hash, table.Length, src, ip), ip);
    chained := ref + MAX_DISTANCE >= ip && Four(src, ref) == Four(src, ip);
    if chained {
      FourSame(src, ip, ref);
    }
  }

  /** The last literals, copied exactly. */
  method EmitLastBytes(src: seq<Byte>, dest: array<Byte>, start: nat, anchor: nat) returns (op: nat)
    requires anchor <= |src| && start + |EncodeLast(Slice(src, anchor, |src|))| <= dest.Length
    modifies dest
    ensures op == start + |EncodeLast(Slice(src, anchor, |src|))|
    ensures dest[..op] == old(dest[..start]) + EncodeLast(Slice(src, anchor, |src|))
  {
    var n := |src| - anchor;
    op := EmitToken(dest, start, n);
    CopyFrom(dest, op, src, anchor, n);
    op := op + n;
    Associate(old(dest[..start]), [Token(n, 0)] + Extension(n), Slice(src, anchor, |src|));
  }

  method EmitLast(src: seq<Byte>, dest: array<Byte>, start: nat, anchor: nat, ghost ss: Block) returns (op: nat)
    requires dest.Length >= CompressBound(|src|) && |src| <= MAX_INPUT_SIZE
    requires start <= dest.Length && Written(src, anchor, ss, dest[..start])
    modifies dest
    ensures op <= CompressBound(|src|)
    ensures dest[..op] == Encode(ss, Slice(src, anchor, |src|))
  {
    assert start + |EncodeLast(Slice(src, anchor, |src|))| <= CompressBound(|src|) by {
      assert src[..anchor] + Slice(src, anchor, |src|) == src;
      BlockBound(ss, Slice(src, anchor, |src|), |src|);
    }
    op := EmitLastBytes(src, dest, start, anchor);
  }

  /** Where an input differs from its first byte. */
  ghost function Strays(src: seq<Byte>): set<nat> {
    set i: nat | i < |src| && src[i] != src[0]
  }

  /** The input is one byte over and over, and long enough for a match. */
  ghost predicate OneByte(src: seq<Byte>) {
    MINLENGTH < |src| && Strays(src) == {}
  }

  lemma OneByteAt(src: seq<Byte>, i: nat)
    requires Strays(src) == {} && i < |src|
    ensures src[i] == src[0]
  {
    assert i !in Strays(src);
  }

  /** Such an input takes one sequence: its first byte, and a match that copies it up to the last literals. */
  ghost predicate OneSequence(src: seq<Byte>, ss: Block, anchor: nat) {
    && 0 < anchor == |src| - LASTLITERALS
    && ss == More(Empty, Sequence([src[0]], 1, anchor - 1))
  }

  /** In such an input the first probe succeeds. */
  lemma OneByteFirst(search: Search)
    requires OneByte(search.src) && search.table != [] && search.start == 1
    requires Candidate(search.src, search.table, search.hash, 1) == 0
    ensures search.Outcome(0) == Match(0, 1, 0)
  {
    OneByteAt(search.src, 1);
    OneByteAt(search.src, 2);
    OneByteAt(search.src, 3);
    OneByteAt(search.src, 4);
    assert Four(search.src, 0) == Four(search.src, 1);
    assert ProbeAt(1, 1) == 2;
  }

  /** The sequence for such an input. */
  lemma OneByteSequence(src: seq<Byte>, s: Sequence)
    requires OneByte(src) && Loose(src, More(Empty, s)) == 0
    requires s.literals == Slice(src, 0, 1) && s.offset == 1
    ensures s == Sequence([src[0]], 1, |src| - LASTLITERALS - 1)
  {
    assert TightAt(src, s, 1);
    OneByteAt(src, 1 + s.matchLength);
    OneByteAt(src, s.matchLength);
    assert Slice(src, 0, 1) == [src[0]];
  }

  /** The next match behind the anchor, extended backwards over bytes not yet emitted. */
  method LocateMatch(src: seq<Byte>, table: array<nat>, byU16: bool, hash: seq<Byte> -> nat, anchor: nat,
                     ghost search: Search)
    returns (found: bool, ip: nat, ref: nat, ghost at: nat, ghost probes: nat)
    requires anchor <= |src| - MFLIMIT && 0 < table.Length && (byU16 ==> |src| < LIMIT_64K) && Below(table, anchor + 1)
    requires search == Search(src, table[..], byU16, hash, anchor + 1)
    modifies table
    ensures found ==>
      && anchor <= ip <= at && ref < ip && ip - ref <= MAX_DISTANCE && at + MFLIMIT <= |src|
      && SameBytes(src, ip, ref, at + MINMATCH - ip) && Slack(src, anchor, ip, ref) == 0 && Below(table, at + 1)
    ensures found ==> search.Outcome(0) == Match(probes, at, at + ref - ip) && table[..] == search.Entered(probes + 1)
    ensures !found ==> search.Outcome(0) == Nothing(probes) && table[..] == search.Entered(probes)
  {
    var from, h := 0, Hash(hash, table.Length, src, anchor + 1);
    found, ip, from, h, probes := FindMatch(src, table, byU16, hash, anchor + 1, h, search);
    at, ref := ip, from;
    if found {
      ip, ref := CatchUp(src, anchor, ip, from);
    }
  }

  /** The next match: the one that has been seen to follow the last, or else the one a search finds. */
  method ChooseMatch(src: seq<Byte>, table: array<nat>, byU16: bool, hash: seq<Byte> -> nat, anchor: nat, chained: bool,
                     nextRef: nat, ghost search: Search)
    returns (found: bool, ip: nat, ref: nat, ghost at: nat, ghost probes: nat)
    requires anchor <= |src| - MFLIMIT && 0 < table.Length && (byU16 ==> |src| < LIMIT_64K) && Below(table, anchor + 1)
    requires chained ==> nextRef < anchor && anchor - nextRef <= MAX_DISTANCE && SameBytes(src, anchor, nextRef, 4)
    requires search == Search(src, table[..], byU16, hash, anchor + 1)
    modifies table
    ensures found ==>
      && anchor <= ip <= at && ref < ip && ip - ref <= MAX_DISTANCE && at + MFLIMIT <= |src|
      && SameBytes(src, ip, ref, at + MINMATCH - ip) && Slack(src, anchor, ip, ref) == 0 && Below(table, at + 1)
    ensures chained ==> found && ip == anchor && ref == nextRef && table[..] == old(table[..])
    ensures !chained && found ==>
      search.Outcome(0) == Match(probes, at, at + ref - ip) && table[..] == search.Entered(probes + 1)
    ensures !found ==> !chained && search.Outcome(0) == Nothing(probes) && table[..] == search.Entered(probes)
    ensures OneByte(src) && !chained && anchor == 0 && Candidate(src, search.table, hash, 1) == 0 ==>
      found && ip == 1 && ref == 0
  {
    found, ip, ref, at, probes := true, anchor, nextRef, anchor, 0;
    if !chained {
      found, ip, ref, at, probes := LocateMatch(src, table, byU16, hash, anchor, search);
      if OneByte(src) && anchor == 0 && Candidate(src, search.table, hash, 1) == 0 {
        OneByteFirst(search);
      }
    }
  }

  /** What is known of the next position, if a match may still begin there. */
  ghost predicate Ready(src: seq<Byte>, table: array<nat>, anchor: nat, chained: bool, ref: nat)
    reads table
  {
    anchor + MFLIMIT <= |src| ==>
      && Below(table, anchor + 1)
      && (chained ==> ref < anchor && anchor - ref <= MAX_DISTANCE && SameBytes(src, anchor, ref, 4))
  }

  /** A sequence for the match, and the look at what follows it. */
  method EmitAndLook(src: seq<Byte>, dest: array<Byte>, table: array<nat>, byU16: bool, hash: seq<Byte> -> nat,
                     start: nat, anchor: nat, at: nat, from: nat, chained: bool, ghost known: nat, ghost ss: Block)
    returns (op: nat, ip: nat, nextChained: bool, nextRef: nat, ghost s: Sequence)
    requires dest.Length >= CompressBound(|src|) && |src| <= MAX_INPUT_SIZE && (byU16 ==> |src| < LIMIT_64K)
    requires start <= dest.Length && Written(src, anchor, ss, dest[..start]) && Loose(src, ss) == 0
    requires anchor <= at && from < at && at - from <= MAX_DISTANCE && at + MFLIMIT <= |src|
    requires MINMATCH <= known && SameBytes(src, at, from, known) && at + known + LASTLITERALS <= |src|
    requires (chained ==> anchor == at) && Slack(src, anchor, at, from) == 0
    requires 0 < table.Length && Below(table, at + known)
    modifies dest, table
    ensures at + known <= ip && ip + LASTLITERALS <= |src| && op <= dest.Length
    ensures Written(src, ip, More(ss, s), dest[..op]) && Loose(src, More(ss, s)) == 0
    ensures s.literals == Slice(src, anchor, at) && s.offset == at - from
    ensures Ready(src, table, ip, nextChained, nextRef)
    ensures ip + MFLIMIT <= |src| ==> Seen(src, old(table[..]), byU16, hash, ip, nextChained, nextRef, table[..])
  {
    op, ip, s := EmitSequence(src, dest, start, anchor, at, from, chained, known, ss);
    nextChained, nextRef := false, 0;
    if ip + MFLIMIT <= |src| {
      nextChained, nextRef := NextMatch(src, table, byU16, hash, ip);
    }
  }

  /** One turn of the main loop: the next sequence and the look at what follows it, or the search that found none. */
  method NextSequence(src: seq<Byte>, dest: array<Byte>, table: array<nat>, byU16: bool, hash: seq<Byte> -> nat,
                      start: nat, anchor: nat, chained: bool, ref: nat, ghost ss: Block, ghost search: Search)
    returns (found: bool, op: nat, ip: nat, nextChained: bool, nextRef: nat, ghost s: Sequence, ghost probes: nat)
    requires |src| <= MAX_INPUT_SIZE && (byU16 ==> |src| < LIMIT_64K)
    requires dest.Length >= CompressBound(|src|) && 0 < table.Length
    requires start <= dest.Length && Written(src, anchor, ss, dest[..start]) && Loose(src, ss) == 0
    requires anchor + MFLIMIT <= |src| && Ready(src, table, anchor, chained, ref)
    requires search == Search(src, table[..], byU16, hash, anchor + 1)
    modifies dest, table
    ensures found ==>
      && anchor + MINMATCH <= ip && ip + LASTLITERALS <= |src| && op <= dest.Length
      && Ready(src, table, ip, nextChained, nextRef)
      && Written(src, ip, More(ss, s), dest[..op]) && Loose(src, More(ss, s)) == 0
    ensures !found ==>
      && !chained && op == start && dest[..] == old(dest[..])
      && search.Outcome(0) == Nothing(probes) && table[..] == search.Entered(probes)
    ensures OneByte(src) && !chained && anchor == 0 && ss == Empty && Candidate(src, search.table, hash, 1) == 0 ==>
      found && OneSequence(src, More(Empty, s), ip)
  {
    var from;
    ghost var at;
    op, s, nextChained, nextRef := start, Sequence([], 0, 0), false, 0;
    found, ip, from, at, probes := ChooseMatch(src, table, byU16, hash, anchor, chained, ref, search);
    if found {
      op, ip, nextChained, nextRef, s :=
        EmitAndLook(src, dest, table, byU16, hash, op, anchor, ip, from, chained, at + MINMATCH - ip, ss);
      if OneByte(src) && s.literals == Slice(src, 0, 1) && s.offset == 1 && ss == Empty {
        OneByteSequence(src, s);
      }
    }
  }

  /** The main loop. The sequences it writes stand for the input up to the anchor it returns. It stops because no match
      could begin behind the anchor any more, or because a search from there has found none. */
  method EmitSequences(src: seq<Byte>, dest: array<Byte>, table: array<nat>, byU16: bool, hash: seq<Byte> -> nat)
    returns (op: nat, anchor: nat, ghost ss: Block, ghost search: Search, ghost probes: nat)
    requires MINLENGTH <= |src| <= MAX_INPUT_SIZE && (byU16 ==> |src| < LIMIT_64K)
    requires dest.Length >= CompressBound(|src|)
    requires 0 < table.Length && Below(table, 1)
    modifies dest, table
    ensures op <= dest.Length && Written(src, anchor, ss, dest[..op]) && Loose(src, ss) == 0
    ensures anchor > |src| - MFLIMIT
            || (search == Search(src, search.table, byU16, hash, anchor + 1) && search.Outcome(0) == Nothing(probes)
                && table[..] == search.Entered(probes))
    ensures OneByte(src) ==> OneSequence(src, ss, anchor)
  {
    op, anchor, ss, probes := 0, 0, Empty, 0;
    table[Hash(hash, table.Length, src, 0)] := 0;
    search := Search(src, table[..], byU16, hash, 1);
    var ref: nat, chained, found := 0, false, true;
    while found && anchor + MFLIMIT <= |src|
      invariant op <= dest.Length && Written(src, anchor, ss, dest[..op]) && Loose(src, ss) == 0
      invariant found ==> Ready(src, table, anchor, chained, ref)
      invariant !found ==> search == Search(src, search.table, byU16, hash, anchor + 1)
                           && search.Outcome(0) == Nothing(probes) && table[..] == search.Entered(probes)
      invariant OneByte(src) ==>
                  if ss == Empty then found && anchor == 0 && !chained && Candidate(src, table[..], hash, 1) == 0
                  else OneSequence(src, ss, anchor)
      decreases |src| - anchor, found
    {
      var ip;
      ghost var s;
      search := Search(src, table[..], byU16, hash, anchor + 1);
      found, op, ip, chained, ref, s, probes :=
        NextSequence(src, dest, table, byU16, hash, op, anchor, chained, ref, ss, search);
      if found {
        ss, anchor := More(ss, s), ip;
      }
    }
  }

  /** `LZ4_compress_generic`: zero for an input it refuses, otherwise a valid block for the input. */
  method Compress(src: seq<Byte>, dest: array<Byte>, table: array<nat>, byU16: bool, hash: seq<Byte> -> nat)
    returns (n: nat, ghost ss: Block, ghost last: seq<Byte>)
    requires dest.Length >= CompressBound(|src|)
    requires 0 < table.Length && Below(table, 1)  // the caller clears the table
    modifies dest, table
    ensures n <= CompressBound(|src|)
    ensures if |src| > 0x7E000000 || (byU16 && |src| >= 65547) then n == 0
            else Valid(ss, |src|) && Expand(ss, last, |src|) == src && n > 0 && dest[..n] == Encode(ss, last)
    ensures Loose(src, ss) == 0 && (|src| < MINLENGTH ==> ss == Empty)
    ensures OneByte(src) && n > 0 ==> OneSequence(src, ss, |src| - |last|)
  {
    n, ss, last := 0, Empty, [];
    if |src| > MAX_INPUT_SIZE || (byU16 && |src| >= LIMIT_64K) {
      return;
    }
    var op, anchor := 0, 0;
    if |src| >= MINLENGTH {
      ghost var search, probes;
      op, anchor, ss, search, probes := EmitSequences(src, dest, table, byU16, hash);
    }
    last := Slice(src, anchor, |src|);
    LastCompletes(src, anchor, ss, dest[..op], last);
    n := EmitLast(src, dest, op, anchor, ss);
  }

  /** With the last literals the block stands for the whole input. */
  lemma LastCompletes(src: seq<Byte>, anchor: nat, ss: Block, out: seq<Byte>, last: seq<Byte>)
    requires Written(src, anchor, ss, out) && last == Slice(src, anchor, |src|)
    ensures Valid(ss, |src|) && Expand(ss, last, |src|) == src && Encode(ss, last) != []
  {
    assert src[..anchor] + last == src;
  }
}
