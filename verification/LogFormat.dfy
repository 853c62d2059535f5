/** The write-ahead log: transactions as runs of records. */
module LogFormat {
  import opened Sequences

  datatype Stmt = Stmt(dsn: nat, flags: nat, data: seq<nat>)

  datatype Tx = Tx(lsn: nat, stmts: seq<Stmt>)

  /** A transaction of several statements is announced by a record that holds their number. */
  datatype Record = Begin(lsn: nat, count: nat) | Put(lsn: nat, stmt: Stmt)

  /** Bytes in a record header. */
  const HEADER: nat := 21

  function Puts(lsn: nat, stmts: seq<Stmt>): (r: seq<Record>)
    ensures |r| == |stmts|
  {
    if stmts == [] then [] else Puts(lsn, stmts[..|stmts| - 1]) + [Put(lsn, stmts[|stmts| - 1])]
  }

  lemma PutsNext(lsn: nat, stmts: seq<Stmt>, i: nat)
    requires i < |stmts|
    ensures Puts(lsn, stmts[..i + 1]) == Puts(lsn, stmts[..i]) + [Put(lsn, stmts[i])]
  {
    assert stmts[..i + 1][..i] == stmts[..i];
  }

  lemma {:induction false} PutsAt(lsn: nat, stmts: seq<Stmt>, j: nat)
    requires j < |stmts|
    ensures Puts(lsn, stmts)[j] == Put(lsn, stmts[j])
  {
    if j < |stmts| - 1 {
      PutsAt(lsn, stmts[..|stmts| - 1], j);
    }
  }

  function TxRecords(tx: Tx): seq<Record> {
    if |tx.stmts| == 1 then Puts(tx.lsn, tx.stmts) else [Begin(tx.lsn, |tx.stmts|)] + Puts(tx.lsn, tx.stmts)
  }

  /** The complete log of a list of transactions. */
  function Encode(txs: seq<Tx>): seq<Record> {
    if txs == [] then [] else Encode(txs[..|txs| - 1]) + TxRecords(txs[|txs| - 1])
  }

  /** Where transaction `i` starts in the log. */
  function StartOf(txs: seq<Tx>, i: nat): nat
    requires i <= |txs|
  {
    |Encode(txs[..i])|
  }

  function RecordBytes(r: Record): nat {
    match r
    case Begin(_, _) => HEADER
    case Put(_, stmt) => HEADER + |stmt.data|
  }

  /** The bytes of the log from record `at` on. */
  function BytesFrom(log: seq<Record>, at: nat): nat
    requires at <= |log|
    decreases |log| - at
  {
    if at == |log| then 0 else RecordBytes(log[at]) + BytesFrom(log, at + 1)
  }

  /** The data bytes of the statements from `i` on. */
  function DataFrom(stmts: seq<Stmt>, i: nat): nat
    requires i <= |stmts|
    decreases |stmts| - i
  {
    if i == |stmts| then 0 else |stmts[i].data| + DataFrom(stmts, i + 1)
  }

  lemma {:induction false} PutBytes(head: seq<Record>, lsn: nat, stmts: seq<Stmt>, i: nat)
    requires i <= |stmts|
    ensures BytesFrom(head + Puts(lsn, stmts), |head| + i) == 21 * (|stmts| - i) + DataFrom(stmts, i)
    decreases |stmts| - i
  {
    if i < |stmts| {
      PutsAt(lsn, stmts, i);
      PutBytes(head, lsn, stmts, i + 1);
    }
  }

  /** A lone statement costs one header; other transactions cost one for each statement and one to announce them. */
  lemma TransactionBytes(tx: Tx)
    ensures BytesFrom(TxRecords(tx), 0) == DataFrom(tx.stmts, 0)
                                           + if |tx.stmts| == 1 then 21 else 21 * (|tx.stmts| + 1)
  {
    var puts := Puts(tx.lsn, tx.stmts);
    if |tx.stmts| == 1 {
      PutBytes([], tx.lsn, tx.stmts, 0);
      assert [] + puts == puts;
    } else {
      PutBytes([Begin(tx.lsn, |tx.stmts|)], tx.lsn, tx.stmts, 0);
    }
  }

  // ---------------------------------------------------------------- where records are

  lemma StartNext(txs: seq<Tx>, i: nat)
    requires i < |txs|
    ensures StartOf(txs, i + 1) == StartOf(txs, i) + |TxRecords(txs[i])|
    ensures Encode(txs[..i + 1]) == Encode(txs[..i]) + TxRecords(txs[i])
  {
    assert txs[..i + 1][..i] == txs[..i];
  }

  lemma {:induction false} EncodeConcat(a: seq<Tx>, b: seq<Tx>)
    ensures Encode(a + b) == Encode(a) + Encode(b)
    decreases |b|
  {
    if b == [] {
      assert a + b == a;
    } else {
      var c, t := b[..|b| - 1], b[|b| - 1];
      assert b == c + [t] && a + b == (a + c) + [t];
      EncodeSnoc(a + c, t);
      EncodeSnoc(c, t);
      EncodeConcat(a, c);
      Associate(Encode(a), Encode(c), TxRecords(t));
    }
  }

  lemma EncodeSnoc(txs: seq<Tx>, t: Tx)
    ensures Encode(txs + [t]) == Encode(txs) + TxRecords(t)
  {
  }

  lemma StartEnd(txs: seq<Tx>)
    ensures StartOf(txs, |txs|) == |Encode(txs)|
  {
    assert txs[..|txs|] == txs;
  }

  /** Record `j` of transaction `i` in the log of all transactions. */
  lemma RecordAt(txs: seq<Tx>, i: nat, j: nat)
    requires i < |txs| && j < |TxRecords(txs[i])|
    ensures StartOf(txs, i) + j < |Encode(txs)| && Encode(txs)[StartOf(txs, i) + j] == TxRecords(txs[i])[j]
  {
    assert txs == txs[..i + 1] + txs[i + 1..];
    EncodeConcat(txs[..i + 1], txs[i + 1..]);
    StartNext(txs, i);
    InMiddle(Encode(txs[..i]), TxRecords(txs[i]), Encode(txs[i + 1..]), j);
  }

  lemma InMiddle(a: seq<Record>, b: seq<Record>, c: seq<Record>, j: nat)
    requires j < |b|
    ensures (a + b + c)[|a| + j] == b[j]
  {
  }
}
