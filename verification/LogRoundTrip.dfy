/** Writing transactions to the log and replaying it. */
module LogRoundTrip {
  import opened LogFormat
  import opened LogWriter
  import opened LogReplay

  /** The records of a file, header by header: a statement's header is followed by its body. */
  function Parse(file: seq<Chunk>): seq<Record> {
    if file == [] then []
    else if file[0].Body? then Parse(file[1..])
    else if file[0].record.Begin? || |file| == 1 || file[1].Head? then [file[0].record] + Parse(file[1..])
    else
      var Put(lsn, stmt) := file[0].record;
      [Put(lsn, stmt.(data := file[1].data))] + Parse(file[2..])
  }

  lemma ParseFirst(r: Record, rest: seq<Chunk>)
    ensures Parse(ChunksOf(r) + rest) == [r] + Parse(rest)
  {
    var file := ChunksOf(r) + rest;
    match r
    case Begin(_, _) => assert file[1..] == rest;
    case Put(_, stmt) => assert file[2..] == rest;
  }

  lemma {:induction false} ParseChunks(records: seq<Record>)
    ensures Parse(Chunks(records)) == records
  {
    if records != [] {
      var r, rest := records[0], records[1..];
      assert records == [r] + rest;
      ChunksConcat([r], rest);
      ChunksSnoc([], r);
      assert [] + [r] == [r];
      ParseFirst(r, Chunks(rest));
      ParseChunks(rest);
    }
  }

  /** The file of the first `i` transactions. */
  ghost function FileOf(txs: seq<Tx>, i: nat): seq<Chunk>
    requires i <= |txs|
  {
    Chunks(Encode(txs[..i]))
  }

  lemma FileEnds(txs: seq<Tx>)
    ensures FileOf(txs, 0) == [] && FileOf(txs, |txs|) == Chunks(Encode(txs))
  {
    assert txs[..|txs|] == txs;
  }

  method WriteNext(log: Log, txs: seq<Tx>, i: nat)
    requires i < |txs| && log.iov == [] && log.slots.Length == SLOTS && log.file == FileOf(txs, i)
    modifies log`file, log`iov, log.slots
    ensures log.iov == [] && log.file == FileOf(txs, i + 1)
  {
    log.Write(txs[i], txs[..i]);
    assert txs[..i + 1] == txs[..i] + [txs[i]];
  }

  /** Write transactions one after the other to a new log. */
  method WriteTo(log: Log, txs: seq<Tx>)
    requires log.iov == [] && log.slots.Length == SLOTS && log.file == []
    modifies log`file, log`iov, log.slots
    ensures log.file == Chunks(Encode(txs))
  {
    FileEnds(txs);
    for i := 0 to |txs|
      invariant log.iov == [] && log.file == FileOf(txs, i)
    {
      WriteNext(log, txs, i);
    }
  }

  method WriteAll(txs: seq<Tx>) returns (file: seq<Chunk>)
    ensures file == Chunks(Encode(txs))
  {
    var log := new Log();
    WriteTo(log, txs);
    file := log.file;
  }

  /** Replaying the log as far as `cut` commits the transactions that are whole there, in order, but for
      the last of them when the announcement behind it is out of proportion, and none from the first empty
      one on. */
  method WriteThenReplay(txs: seq<Tx>, cut: nat) returns (ok: bool, committed: seq<Tx>, ghost k: nat, ghost e: nat)
    requires cut <= |Encode(txs)|
    ensures FilledUpTo(txs, e) && WholeUpTo(Encode(txs)[..cut], txs, Starts(txs), k)
    ensures committed == txs[..Min(e, Kept(Encode(txs)[..cut], Starts(txs), k))]
    ensures ok <==> Succeeds(Encode(txs)[..cut], txs, Starts(txs))
    ensures cut == |Encode(txs)| ==> committed == txs[..e] && (e == |txs| ==> ok)
  {
    var file := WriteAll(txs);
    ParseChunks(Encode(txs));
    var log := Parse(file)[..cut];
    ghost var starts := Starts(txs);
    CutIsLog(txs, log);
    StartEnd(txs);
    e := HasFilled(txs, 0);
    k := HasWhole(log, txs, starts, 0);
    CutReplay(log, txs, starts, k, e);
    if cut == |Encode(txs)| {
      CompleteReplay(log, txs, starts, e);
    }
    ok, committed := Replay(log, txs, starts);
  }
}
