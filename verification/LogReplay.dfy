/** Reading a log back and committing its transactions again, also when the log was cut short. */
module LogReplay {
  import opened LogFormat

  // ---------------------------------------------------------------- where transactions are in a log

  /** The first statement of a transaction that starts at `start`. */
  function FirstOf(start: nat, tx: Tx): nat {
    start + if |tx.stmts| == 1 then 0 else 1
  }

  function EndOf(start: nat, tx: Tx): nat {
    FirstOf(start, tx) + |tx.stmts|
  }

  /** As far as the log goes, it holds the records of a transaction at `start`. */
  ghost predicate LaidOut(log: seq<Record>, start: nat, tx: Tx) {
    && (start < |log| && |tx.stmts| != 1 ==> log[start] == Begin(tx.lsn, |tx.stmts|))
    && forall j :: 0 <= j < |tx.stmts| && FirstOf(start, tx) + j < |log| ==>
                     log[FirstOf(start, tx) + j] == Put(tx.lsn, tx.stmts[j])
  }

  /** A log, perhaps cut, of transactions that start at `starts`. */
  ghost predicate IsLog(log: seq<Record>, txs: seq<Tx>, starts: seq<nat>) {
    && |starts| == |txs| + 1 && starts[0] == 0 && |log| <= starts[|txs|]
    && (forall i, j :: 0 <= i < |txs| && j == i + 1 ==> starts[j] == EndOf(starts[i], txs[i]))
    && (forall i :: 0 <= i < |txs| ==> LaidOut(log, starts[i], txs[i]))
  }

  // ---------------------------------------------------------------- what a cut log still says

  /** The size in a record's header does not reach beyond the end of the log. An announcing record
      holds a number of statements there, which is compared all the same. */
  predicate SizeFits(log: seq<Record>, at: nat)
    requires at < |log|
  {
    match log[at]
    case Begin(_, count) => count <= BytesFrom(log, at)
    case Put(_, stmt) => |stmt.data| <= BytesFrom(log, at)
  }

  lemma PutFits(log: seq<Record>, at: nat)
    requires at < |log| && log[at].Put?
    ensures SizeFits(log, at)
  {
  }

  /** The log ends before `start`, or the record there passes the size check. */
  ghost predicate Announced(log: seq<Record>, start: nat) {
    |log| <= start || SizeFits(log, start)
  }

  /** Transaction `i` is replayed, if those before it are. */
  ghost predicate Replayed(log: seq<Record>, txs: seq<Tx>, starts: seq<nat>, i: nat)
    requires i < |txs| && |starts| == |txs| + 1
  {
    txs[i].stmts != [] && starts[i + 1] <= |log| && Announced(log, starts[i + 1])
  }

  /** How many transactions are replayed, given that the first `i` are. */
  ghost function ReplayedFrom(log: seq<Record>, txs: seq<Tx>, starts: seq<nat>, i: nat): (n: nat)
    requires i <= |txs| && |starts| == |txs| + 1
    ensures i <= n <= |txs|
    decreases |txs| - i
  {
    if i < |txs| && Replayed(log, txs, starts, i) then ReplayedFrom(log, txs, starts, i + 1) else i
  }

  ghost function ReplayedCount(log: seq<Record>, txs: seq<Tx>, starts: seq<nat>): (n: nat)
    requires |starts| == |txs| + 1
    ensures n <= |txs|
  {
    if Announced(log, 0) then ReplayedFrom(log, txs, starts, 0) else 0
  }

  /** A statement of the transaction at `start` is in the log. */
  ghost predicate Entered(log: seq<Record>, start: nat, tx: Tx) {
    tx.stmts != [] && FirstOf(start, tx) < |log|
  }

  /** Going on to a transaction that cannot be entered is no error: the log ends there, or the transaction
      is empty and what is behind it passes the size check. */
  ghost predicate EndsWell(log: seq<Record>, start: nat, tx: Tx) {
    start == |log| || (tx.stmts == [] && start < |log| && Announced(log, start + 1))
  }

  /** Replay reports success: nothing could be entered to begin with, or the log ends well behind the
      transactions that were replayed. */
  ghost predicate Succeeds(log: seq<Record>, txs: seq<Tx>, starts: seq<nat>)
    requires |starts| == |txs| + 1
  {
    var n := ReplayedCount(log, txs, starts);
    if n == 0 then !(Announced(log, 0) && Entered(log, 0, TxAt(txs, 0)))
    else EndsWell(log, starts[n], TxAt(txs, n))
  }

  /** Transaction `i`, or an empty one behind the last. */
  ghost function TxAt(txs: seq<Tx>, i: nat): Tx {
    if i < |txs| then txs[i] else Tx(0, [])
  }

  // ---------------------------------------------------------------- the iterator

  const NONE := -1

  class LogIterator {
    const log: seq<Record>
    var v: int
    var next: int
    var count: nat
    var pos: nat
    var error: bool

    ghost predicate Valid()
      reads this
    {
      NONE <= v < |log| && NONE <= next < |log| && (error ==> v == NONE && next == NONE)
    }

    constructor (log: seq<Record>)
      ensures Valid() && this.log == log && v == NONE && next == NONE && count == 0 && pos == 0 && !error
    {
      this.log := log;
      v, next, count, pos, error := NONE, NONE, 0, 0, false;
    }

    /** Take the record at `at`, or find the end of the log or of the transaction there. */
    method NextOf(at: nat) returns (rc: int)
      requires Valid() && at <= |log| && !error
      modifies this`v, this`next, this`count, this`pos, this`error
      ensures Valid() && rc in {-1, 0, 1}
      ensures error <==> if at == |log| then old(count) != old(pos) else !SizeFits(log, at)
      ensures error <==> rc == -1
      ensures !error && at == |log| ==> v == NONE && next == NONE && rc == 0
      ensures !error && at < |log| ==>
                if old(pos) < old(count) then v == at && pos == old(pos) + 1 && count == old(count) && rc == 1
                else v == NONE && next == at && rc == 0
    {
      if at == |log| {
        if count != pos {
          error, v, next := true, NONE, NONE;
          return -1;
        }
        v, next := NONE, NONE;
        return 0;
      }
      if !SizeFits(log, at) {
        error, v, next := true, NONE, NONE;
        return -1;
      }
      pos := pos + 1;
      if pos > count {
        v, pos, count, next := NONE, 0, 0, at;
        return 0;
      }
      v := at;
      return 1;
    }

    // ------------------------------------------------------------ where the iterator is

    /** On statement `j` of a transaction that starts at `start`. */
    ghost predicate AtStmt(start: nat, tx: Tx, j: nat)
      reads this
    {
      && Valid() && !error && j < |tx.stmts|
      && v == FirstOf(start, tx) + j && pos == j + 1 && count == |tx.stmts|
    }

    /** Between transactions: the next one starts at `start`, unless the log ends there. */
    ghost predicate Before(start: nat)
      reads this
    {
      && Valid() && !error && v == NONE
      && (if start == |log| then next == NONE else next == start)
    }

    /** Move on from statement `j`. */
    method Next(ghost start: nat, ghost tx: Tx, ghost j: nat)
      requires LaidOut(log, start, tx) && AtStmt(start, tx, j)
      modifies this`v, this`next, this`count, this`pos, this`error
      ensures Valid() && (v == NONE || AtStmt(start, tx, j + 1))
      ensures v != NONE <==> j + 1 < |tx.stmts| && FirstOf(start, tx) + j + 1 < |log|
      ensures j + 1 < |tx.stmts| && v == NONE ==> error
      ensures j + 1 == |tx.stmts| ==>
                && EndOf(start, tx) <= |log|
                && if Announced(log, EndOf(start, tx)) then Before(EndOf(start, tx)) else error
    {
      if v + 1 < |log| && j + 1 < |tx.stmts| {
        assert log[v + 1] == Put(tx.lsn, tx.stmts[j + 1]);
        PutFits(log, v + 1);
      }
      var rc := NextOf(v + 1);
    }

    /** Go on to the next transaction. */
    method Continue(ghost start: nat, ghost tx: Tx) returns (rc: int)
      requires Before(start) && LaidOut(log, start, tx)
      modifies this`v, this`next, this`count, this`pos, this`error
      ensures Valid() && (if rc == 1 then AtStmt(start, tx, 0) else v == NONE)
      ensures rc == 1 <==> Entered(log, start, tx)
      ensures rc == -1 <==> !Entered(log, start, tx) && !EndsWell(log, start, tx)
      ensures error <==> rc == -1
    {
      if next == NONE {
        return 0;
      }
      if tx.stmts != [] && FirstOf(start, tx) < |log| {
        assert log[FirstOf(start, tx) + 0] == Put(tx.lsn, tx.stmts[0]);
        PutFits(log, FirstOf(start, tx));
      }
      pos, count := 0, 0;
      match log[next]
      case Begin(_, n) =>
        count := n;
        rc := NextOf(next + 1);
      case Put(_, _) =>
        count := 1;
        rc := NextOf(next);
    }

    /** Start reading: go to the first transaction. */
    method Open(ghost tx: Tx)
      requires Valid() && !error && v == NONE && next == NONE && count == 0 && pos == 0 && LaidOut(log, 0, tx)
      modifies this`v, this`next, this`count, this`pos, this`error
      ensures Valid() && (v == NONE || AtStmt(0, tx, 0))
      ensures v != NONE <==> Announced(log, 0) && Entered(log, 0, tx)
    {
      if |log| == 0 {
        return;
      }
      var rc := NextOf(0);
      if rc == -1 {
        return;
      }
      if next != NONE {
        rc := Continue(0, tx);
      }
    }
  }

  /** Replay one transaction, whole or not at all. */
  method ReplayTx(it: LogIterator, ghost start: nat, ghost tx: Tx) returns (ok: bool, r: Tx)
    requires LaidOut(it.log, start, tx) && it.AtStmt(start, tx, 0)
    modifies it
    ensures ok <==> EndOf(start, tx) <= |it.log| && Announced(it.log, EndOf(start, tx))
    ensures ok ==> r == tx && it.Before(EndOf(start, tx))
    ensures !ok ==> it.error
  {
    assert it.log[FirstOf(start, tx) + 0] == Put(tx.lsn, tx.stmts[0]);
    var lsn := it.log[it.v].lsn;
    var stmts := [];
    ghost var j := 0;
    while it.v != NONE
      invariant it.Valid() && 0 <= j <= |tx.stmts| && stmts == tx.stmts[..j]
      invariant it.v != NONE ==> it.AtStmt(start, tx, j)
      invariant it.v == NONE && j < |tx.stmts| ==> it.error && |it.log| < EndOf(start, tx)
      invariant it.v == NONE && j == |tx.stmts| ==>
                  EndOf(start, tx) <= |it.log|
                  && if Announced(it.log, EndOf(start, tx)) then it.Before(EndOf(start, tx)) else it.error
      decreases it.v != NONE, |tx.stmts| - j
    {
      assert it.log[FirstOf(start, tx) + j] == Put(tx.lsn, tx.stmts[j]);
      stmts := stmts + [it.log[it.v].stmt];
      it.Next(start, tx, j);
      j := j + 1;
    }
    ok := !it.error;
    r := Tx(lsn, stmts);
  }

  /** Replaying a log commits the transactions that are whole in it, in order, up to the first that
      cannot be replayed. */
  method Replay(log: seq<Record>, ghost txs: seq<Tx>, ghost starts: seq<nat>) returns (ok: bool, committed: seq<Tx>)
    requires IsLog(log, txs, starts)
    ensures committed == txs[..ReplayedCount(log, txs, starts)]
    ensures ok <==> Succeeds(log, txs, starts)
  {
    var it := new LogIterator(log);
    ghost var m := 0;
    committed, ok := [], true;
    it.Open(TxAt(txs, 0));
    while it.v != NONE
      invariant 0 <= m <= |txs| && committed == txs[..m]
      invariant fresh(it) && it.log == log
      invariant it.v != NONE ==> m < |txs| && Announced(log, 0) && it.AtStmt(starts[m], txs[m], 0)
      invariant if it.v != NONE then ReplayedFrom(log, txs, starts, 0) == ReplayedFrom(log, txs, starts, m)
                else m == ReplayedCount(log, txs, starts)
      invariant it.v != NONE && m == 0 ==> Entered(log, 0, TxAt(txs, 0))
      invariant it.v == NONE ==> (ok <==> Succeeds(log, txs, starts))
      decreases it.v != NONE, |txs| - m
    {
      var tx;
      ok, tx := ReplayTx(it, starts[m], txs[m]);
      if !ok {
        return;
      }
      committed := committed + [tx];
      m := m + 1;
      var rc := it.Continue(starts[m], TxAt(txs, m));
      ok := rc != -1;
    }
  }

  // ---------------------------------------------------------------- complete logs and cut logs

  ghost function Starts(txs: seq<Tx>): (r: seq<nat>)
    ensures |r| == |txs| + 1
  {
    seq(|txs| + 1, i requires 0 <= i <= |txs| => StartOf(txs, i))
  }

  lemma TxLaidOut(log: seq<Record>, all: seq<Record>, start: nat, tx: Tx)
    requires |log| <= |all| && log == all[..|log|]
    requires start + |TxRecords(tx)| <= |all|
    requires forall j :: 0 <= j < |TxRecords(tx)| ==> all[start + j] == TxRecords(tx)[j]
    ensures LaidOut(log, start, tx)
  {
    if start < |log| && |tx.stmts| != 1 {
      assert all[start + 0] == TxRecords(tx)[0];
    }
    forall j | 0 <= j < |tx.stmts| && FirstOf(start, tx) + j < |log|
      ensures log[FirstOf(start, tx) + j] == Put(tx.lsn, tx.stmts[j])
    {
      PutsAt(tx.lsn, tx.stmts, j);
      var at := if |tx.stmts| == 1 then j else 1 + j;
      assert all[start + at] == TxRecords(tx)[at];
    }
  }

  lemma CutTx(txs: seq<Tx>, log: seq<Record>, i: nat)
    requires |log| <= |Encode(txs)| && log == Encode(txs)[..|log|] && i < |txs|
    ensures LaidOut(log, StartOf(txs, i), txs[i])
  {
    var all, start, records := Encode(txs), StartOf(txs, i), TxRecords(txs[i]);
    assert start + |records| <= |all| by {
      RecordAt(txs, i, |records| - 1);
    }
    forall j | 0 <= j < |records|
      ensures all[start + j] == records[j]
    {
      RecordAt(txs, i, j);
    }
    TxLaidOut(log, all, start, txs[i]);
  }

  lemma CutEnd(txs: seq<Tx>, i: nat)
    requires i < |txs|
    ensures StartOf(txs, i + 1) == EndOf(StartOf(txs, i), txs[i])
  {
    StartNext(txs, i);
  }

  /** The log of a list of transactions, cut at any record boundary. */
  lemma CutIsLog(txs: seq<Tx>, log: seq<Record>)
    requires |log| <= |Encode(txs)| && log == Encode(txs)[..|log|]
    ensures IsLog(log, txs, Starts(txs))
  {
    var starts := Starts(txs);
    StartEnd(txs);
    forall i, j | 0 <= i < |txs| && j == i + 1
      ensures starts[j] == EndOf(starts[i], txs[i])
    {
      CutEnd(txs, i);
    }
    forall i | 0 <= i < |txs|
      ensures LaidOut(log, starts[i], txs[i])
    {
      CutTx(txs, log, i);
    }
  }

  lemma {:induction false} BytesAtLeast(log: seq<Record>, at: nat, n: nat)
    requires at + n <= |log|
    ensures n * HEADER <= BytesFrom(log, at)
    decreases n
  {
    if 0 < n {
      BytesAtLeast(log, at + 1, n - 1);
    }
  }

  /** A transaction that is whole in the log passes the size check. */
  lemma WholeAnnounced(log: seq<Record>, start: nat, tx: Tx)
    requires LaidOut(log, start, tx) && EndOf(start, tx) <= |log|
    ensures Announced(log, start)
  {
    if |tx.stmts| == 1 {
      assert log[FirstOf(start, tx) + 0] == Put(tx.lsn, tx.stmts[0]);
      PutFits(log, start);
    } else {
      BytesAtLeast(log, start, 1 + |tx.stmts|);
    }
  }

  lemma {:induction false} StartsRise(log: seq<Record>, txs: seq<Tx>, starts: seq<nat>, i: nat, j: nat)
    requires IsLog(log, txs, starts) && i <= j <= |txs|
    ensures starts[i] <= starts[j] && (i < j ==> starts[i] < starts[j])
    decreases j - i
  {
    if i < j {
      StartsRise(log, txs, starts, i, j - 1);
    }
  }

  /** Transactions up to `k` are whole in the log, and the next one is not. */
  ghost predicate WholeUpTo(log: seq<Record>, txs: seq<Tx>, starts: seq<nat>, k: nat)
    requires |starts| == |txs| + 1
  {
    k <= |txs| && starts[k] <= |log| && (k < |txs| ==> |log| < starts[k + 1])
  }

  /** The first `e` transactions have statements, and the next one has none. */
  ghost predicate FilledUpTo(txs: seq<Tx>, e: nat) {
    e <= |txs| && (forall i :: 0 <= i < e ==> txs[i].stmts != []) && (e < |txs| ==> txs[e].stmts == [])
  }

  lemma {:induction false} HasWhole(log: seq<Record>, txs: seq<Tx>, starts: seq<nat>, i: nat) returns (k: nat)
    requires IsLog(log, txs, starts) && i <= |txs| && starts[i] <= |log|
    ensures WholeUpTo(log, txs, starts, k)
    decreases |txs| - i
  {
    if i < |txs| && starts[i + 1] <= |log| {
      k := HasWhole(log, txs, starts, i + 1);
    } else {
      k := i;
    }
  }

  lemma {:induction false} HasFilled(txs: seq<Tx>, i: nat) returns (e: nat)
    requires i <= |txs| && forall j :: 0 <= j < i ==> txs[j].stmts != []
    ensures FilledUpTo(txs, e)
    decreases |txs| - i
  {
    if i < |txs| && txs[i].stmts != [] {
      e := HasFilled(txs, i + 1);
    } else {
      e := i;
    }
  }

  function Min(a: nat, b: nat): nat {
    if a < b then a else b
  }

  /** What passes of `k` whole transactions: all, unless the announcement behind the last of them promises
      more statements than bytes are left; then that one is lost. */
  ghost function Kept(log: seq<Record>, starts: seq<nat>, k: nat): nat
    requires k < |starts| && starts[k] <= |log|
  {
    if k == 0 || |log| == starts[k] || SizeFits(log, starts[k]) then k else k - 1
  }

  lemma ReplayedJust(log: seq<Record>, txs: seq<Tx>, starts: seq<nat>, k: nat, e: nat, i: nat)
    requires IsLog(log, txs, starts) && WholeUpTo(log, txs, starts, k) && FilledUpTo(txs, e)
    requires i < |txs| && i <= Min(e, Kept(log, starts, k))
    ensures Replayed(log, txs, starts, i) <==> i < Min(e, Kept(log, starts, k))
  {
    if i < k {
      StartsRise(log, txs, starts, i + 1, k);
      if i + 1 < k {
        StartsRise(log, txs, starts, i + 2, k);
        WholeAnnounced(log, starts[i + 1], txs[i + 1]);
      }
    }
  }

  lemma {:induction false} ReplayedUpTo(log: seq<Record>, txs: seq<Tx>, starts: seq<nat>, k: nat, e: nat, i: nat)
    requires IsLog(log, txs, starts) && WholeUpTo(log, txs, starts, k) && FilledUpTo(txs, e)
    requires i <= Min(e, Kept(log, starts, k))
    ensures ReplayedFrom(log, txs, starts, i) == Min(e, Kept(log, starts, k))
    decreases |txs| - i
  {
    if i < |txs| {
      ReplayedJust(log, txs, starts, k, e, i);
      if i < Min(e, Kept(log, starts, k)) {
        ReplayedUpTo(log, txs, starts, k, e, i + 1);
      }
    }
  }

  /** How many transactions of a log cut at any record boundary are replayed: those that are whole, or all
      of them but the last, and none from the first empty one on. */
  lemma CutReplay(log: seq<Record>, txs: seq<Tx>, starts: seq<nat>, k: nat, e: nat)
    requires IsLog(log, txs, starts) && WholeUpTo(log, txs, starts, k) && FilledUpTo(txs, e)
    ensures ReplayedCount(log, txs, starts) == Min(e, Kept(log, starts, k))
  {
    ReplayedUpTo(log, txs, starts, k, e, 0);
    if 0 < k {
      StartsRise(log, txs, starts, 1, k);
      WholeAnnounced(log, starts[0], txs[0]);
    }
  }

  /** Without empty transactions, replay succeeds just if the log ends with a whole transaction, or not even
      a statement of the first could be read. */
  lemma CutSucceeds(log: seq<Record>, txs: seq<Tx>, starts: seq<nat>, k: nat)
    requires IsLog(log, txs, starts) && WholeUpTo(log, txs, starts, k) && FilledUpTo(txs, |txs|)
    ensures Succeeds(log, txs, starts)
            <==> |log| == starts[k] || (k == 0 && !(Announced(log, 0) && Entered(log, 0, TxAt(txs, 0))))
  {
    CutReplay(log, txs, starts, k, |txs|);
    if 0 < k {
      StartsRise(log, txs, starts, 1, k);
      StartsRise(log, txs, starts, k - 1, k);
      WholeAnnounced(log, starts[0], txs[0]);
    }
  }

  /** A complete log is replayed up to its first empty transaction, so wholly just if it has none. */
  lemma CompleteReplay(log: seq<Record>, txs: seq<Tx>, starts: seq<nat>, e: nat)
    requires IsLog(log, txs, starts) && |log| == starts[|txs|] && FilledUpTo(txs, e)
    ensures ReplayedCount(log, txs, starts) == e
    ensures txs[..e] == txs <==> forall i :: 0 <= i < |txs| ==> txs[i].stmts != []
    ensures e == |txs| ==> Succeeds(log, txs, starts)
  {
    CutReplay(log, txs, starts, |txs|, e);
    if e == |txs| {
      CutSucceeds(log, txs, starts, |txs|);
    } else {
      assert |txs[..e]| < |txs|;
    }
  }

  /** A log cut behind the announcement of 22 statements does not give back the transaction before it. */
  lemma WholeTransactionLost(log: seq<Record>, txs: seq<Tx>, s: Stmt, many: seq<Stmt>)
    requires |many| == 22 && txs == [Tx(1, [s]), Tx(2, many)]
    requires log == Encode(txs)[..2]
    ensures IsLog(log, txs, Starts(txs)) && Starts(txs)[1] <= |log|
    ensures ReplayedCount(log, txs, Starts(txs)) == 0
  {
    CutIsLog(txs, log);
    var starts := Starts(txs);
    assert starts[0] == 0 && starts[1] == EndOf(starts[0], txs[0]) == 1;
    assert LaidOut(log, starts[1], txs[1]);
    assert log[1] == Begin(2, 22);
    assert BytesFrom(log, 2) == 0;
    assert BytesFrom(log, 1) == 21;
    assert !Replayed(log, txs, starts, 0);
  }

  /** Behind the announcement of one statement less the transaction before it is given back. */
  lemma WholeTransactionKept(log: seq<Record>, txs: seq<Tx>, s: Stmt, many: seq<Stmt>)
    requires |many| == 21 && txs == [Tx(1, [s]), Tx(2, many)]
    requires log == Encode(txs)[..2]
    ensures IsLog(log, txs, Starts(txs)) && Starts(txs)[1] <= |log|
    ensures ReplayedCount(log, txs, Starts(txs)) == 1
  {
    CutIsLog(txs, log);
    var starts := Starts(txs);
    assert starts[0] == 0 && starts[1] == EndOf(starts[0], txs[0]) == 1;
    assert LaidOut(log, starts[1], txs[1]);
    assert log[1] == Begin(2, 21);
    assert BytesFrom(log, 2) == 0;
    assert BytesFrom(log, 1) == 21;
    assert log[0] == Put(1, s) && Announced(log, 0);
    assert Replayed(log, txs, starts, 0) && !Replayed(log, txs, starts, 1);
    assert ReplayedFrom(log, txs, starts, 1) == 1;
  }
}
