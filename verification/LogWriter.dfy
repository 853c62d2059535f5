/**
 The log writer: headers and bodies of many statements go out in one vectored write. A vector entry
 refers to a header slot; the slot's content is taken when the vector is flushed.
 */
module LogWriter {
  import opened LogFormat
  import opened Sequences

  /** What a write puts in the file. */
  datatype Chunk = Head(record: Record) | Body(data: seq<nat>)

  function ChunksOf(r: Record): seq<Chunk> {
    match r
    case Begin(_, _) => [Head(r)]
    case Put(_, stmt) => [Head(r), Body(stmt.data)]
  }

  function Chunks(records: seq<Record>): seq<Chunk> {
    if records == [] then [] else Chunks(records[..|records| - 1]) + ChunksOf(records[|records| - 1])
  }

  lemma ChunksSnoc(records: seq<Record>, r: Record)
    ensures Chunks(records + [r]) == Chunks(records) + ChunksOf(r)
  {
  }

  /** Entries of the vector, and slots of header records. */
  const IOV_MAX: nat := 1021
  const SLOTS: nat := 510

  datatype Entry = SlotRef(slot: nat) | Data(data: seq<nat>)

  /** What flushing the vector writes. */
  function Gathered(iov: seq<Entry>, slots: seq<Record>): seq<Chunk>
    requires forall k :: 0 <= k < |iov| && iov[k].SlotRef? ==> iov[k].slot < |slots|
  {
    seq(|iov|, k requires 0 <= k < |iov| => if iov[k].SlotRef? then Head(slots[iov[k].slot]) else Body(iov[k].data))
  }

  /** Entries refer to slots below `used` only. */
  ghost predicate Below(iov: seq<Entry>, used: nat) {
    forall k :: 0 <= k < |iov| && iov[k].SlotRef? ==> iov[k].slot < used
  }

  class Log {
    var file: seq<Chunk>
    var iov: seq<Entry>
    const slots: array<Record>

    constructor ()
      ensures file == [] && iov == [] && slots.Length == SLOTS && fresh(slots)
    {
      file, iov := [], [];
      slots := new Record[SLOTS](_ => Begin(0, 0));
    }

    method IovAdd(e: Entry)
      requires |iov| < IOV_MAX
      modifies this`iov
      ensures iov == old(iov) + [e]
    {
      iov := iov + [e];
    }

    method Flush()
      requires Below(iov, slots.Length)
      modifies this`file, this`iov
      ensures file == old(file) + old(Gathered(iov, slots[..])) && iov == []
    {
      file := file + Gathered(iov, slots[..]);
      iov := [];
    }

    /** Fill a header slot and add the statement to the vector. */
    method WritePrepare(slot: nat, lsn: nat, stmt: Stmt)
      requires slot < slots.Length && Below(iov, slot) && |iov| + 2 <= IOV_MAX
      modifies this`iov, slots
      ensures Below(iov, slot + 1) && |iov| == old(|iov|) + 2
      ensures Gathered(iov, slots[..]) == old(Gathered(iov, slots[..])) + ChunksOf(Put(lsn, stmt))
    {
      slots[slot] := Put(lsn, stmt);
      IovAdd(SlotRef(slot));
      IovAdd(Data(stmt.data));
    }

    method WriteStmt(tx: Tx)
      requires |tx.stmts| == 1 && iov == [] && slots.Length == SLOTS
      modifies this`file, this`iov, slots
      ensures iov == [] && file == old(file) + Chunks(TxRecords(tx))
    {
      WritePrepare(0, tx.lsn, tx.stmts[0]);
      Flush();
      ChunksSnoc([], Put(tx.lsn, tx.stmts[0]));
      PutsAt(tx.lsn, tx.stmts, 0);
      assert TxRecords(tx) == [] + [Put(tx.lsn, tx.stmts[0])];
    }

    /** Add one statement of an announced transaction, after a flush if there is no room. */
    method WriteNext(lvp: nat, lsn: nat, stmt: Stmt, ghost start: seq<Chunk>,
          ghost written: seq<Record>) returns (next: nat)
      requires slots.Length == SLOTS && Fits(|iov|, lvp) && Below(iov, lvp)
      requires file + Gathered(iov, slots[..]) == start + Chunks(written)
      modifies this`file, this`iov, slots
      ensures Fits(|iov|, next) && Below(iov, next)
      ensures file + Gathered(iov, slots[..]) == start + Chunks(written + [Put(lsn, stmt)])
    {
      next := lvp;
      if |iov| + 2 >= IOV_MAX {
        Flush();
        next := 0;
        assert file + [] == file;
      }
      ghost var pending := Gathered(iov, slots[..]);
      WritePrepare(next, lsn, stmt);
      PutNext(start, file, pending, written, Put(lsn, stmt));
      next := next + 1;
    }

    /** Write an announced transaction, flushing whenever the vector has no room for a statement. */
    method WriteMultiStmt(tx: Tx)
      requires |tx.stmts| != 1 && iov == [] && slots.Length == SLOTS
      modifies this`file, this`iov, slots
      ensures iov == [] && file == old(file) + Chunks(TxRecords(tx))
    {
      slots[0] := Begin(tx.lsn, |tx.stmts|);
      IovAdd(SlotRef(0));
      var lvp: nat := 1;
      ghost var written := [Begin(tx.lsn, |tx.stmts|)];
      ChunksSnoc([], written[0]);
      for i := 0 to |tx.stmts|
        invariant slots.Length == SLOTS && Fits(|iov|, lvp) && Below(iov, lvp)
        invariant written == [Begin(tx.lsn, |tx.stmts|)] + Puts(tx.lsn, tx.stmts[..i])
        invariant file + Gathered(iov, slots[..]) == old(file) + Chunks(written)
      {
        lvp := WriteNext(lvp, tx.lsn, tx.stmts[i], old(file), written);
        PutsNext(tx.lsn, tx.stmts, i);
        written := written + [Put(tx.lsn, tx.stmts[i])];
      }
      if |iov| > 0 {
        Flush();
      }
      assert tx.stmts[..|tx.stmts|] == tx.stmts;
    }

    /** Write a transaction behind those in the log. */
    method Write(tx: Tx, ghost txs: seq<Tx>)
      requires iov == [] && slots.Length == SLOTS && file == Chunks(Encode(txs))
      modifies this`file, this`iov, slots
      ensures iov == [] && file == Chunks(Encode(txs + [tx]))
    {
      if |tx.stmts| == 1 {
        WriteStmt(tx);
      } else {
        WriteMultiStmt(tx);
      }
      EncodeSnoc(txs, tx);
      ChunksConcat(Encode(txs), TxRecords(tx));
    }
  }

  /** How full the vector is bounds the header slots in use: a slot is used again only after a flush. */
  ghost predicate Fits(entries: nat, slots: nat) {
    && entries < IOV_MAX
    && (entries == 2 * slots || entries == 2 * slots - 1)
  }

  lemma PutNext(start: seq<Chunk>, file: seq<Chunk>, pending: seq<Chunk>, written: seq<Record>, r: Record)
    requires file + pending == start + Chunks(written)
    ensures file + (pending + ChunksOf(r)) == start + Chunks(written + [r])
  {
    ChunksSnoc(written, r);
    Associate(file, pending, ChunksOf(r));
    Associate(start, Chunks(written), ChunksOf(r));
  }

  lemma {:induction false} ChunksConcat(a: seq<Record>, b: seq<Record>)
    ensures Chunks(a + b) == Chunks(a) + Chunks(b)
    decreases |b|
  {
    if b == [] {
      assert a + b == a;
    } else {
      var c, r := b[..|b| - 1], b[|b| - 1];
      assert b == c + [r] && a + b == (a + c) + [r];
      ChunksSnoc(a + c, r);
      ChunksSnoc(c, r);
      ChunksConcat(a, c);
      Associate(Chunks(a), Chunks(c), ChunksOf(r));
    }
  }
}
