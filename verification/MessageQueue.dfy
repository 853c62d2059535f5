/**
 A ring buffer shared by one producer and one consumer. Every load, store and slot access is a step
 of its own, and the steps of the two sides interleave in any way. Counters wrap at 2^64.
 */
module MessageQueue {
  import opened Machine
  import opened Arithmetic

  /** `pushed` are the values of the pushes that have returned true, and `popped` those handed out. */
  datatype State<T> = State(cells: seq<T>, write: nat, read: nat, producer: Producer<T>, consumer: Consumer<T>,
                            pushed: seq<T>, popped: seq<T>)

  /** Where a push is. `seen` is how many values had been popped when the read counter was loaded. */
  datatype Producer<T> =
    | Resting
    | LoadedWrite(v: T, cw: nat)
    | LoadedRead(v: T, cw: nat, cr: nat, seen: nat)
    | HasRoom(v: T, cw: nat)
    | StoredCell(v: T, cw: nat)

  /** Where a pop is. `seen` is how many values had been pushed when the write counter was loaded. */
  datatype Consumer<T> =
    | Waiting
    | GotWrite(cw: nat, seen: nat)
    | GotRead(cw: nat, cr: nat, seen: nat)
    | HasValue(cr: nat)
    | Taken(v: T, cr: nat)

  datatype Step<T> =
    | LoadOwnWrite(v: T) | LoadRead | CheckFull | StoreCell | PublishWrite
    | LoadWrite | LoadOwnRead | CheckEmpty | TakeCell | PublishRead

  /** The size of the ring is a power of two, so it divides 2^64. */
  ghost predicate RingSize(size: nat) {
    2 <= size < TWO64 && TWO64 % size == 0
  }

  predicate Enabled<T>(s: State<T>, step: Step<T>) {
    match step
    case LoadOwnWrite(_) => s.producer.Resting?
    case LoadRead => s.producer.LoadedWrite?
    case CheckFull => s.producer.LoadedRead?
    case StoreCell => s.producer.HasRoom?
    case PublishWrite => s.producer.StoredCell?
    case LoadWrite => s.consumer.Waiting?
    case LoadOwnRead => s.consumer.GotWrite?
    case CheckEmpty => s.consumer.GotRead?
    case TakeCell => s.consumer.HasValue?
    case PublishRead => s.consumer.Taken?
  }

  function Next<T>(s: State<T>, step: Step<T>): State<T>
    requires Enabled(s, step) && 2 <= |s.cells|
  {
    var size := |s.cells|;
    match step
    case LoadOwnWrite(v) => s.(producer := LoadedWrite(v, s.write))
    case LoadRead => s.(producer := LoadedRead(s.producer.v, s.producer.cw, s.read, |s.popped|))
    case CheckFull =>
      if (s.producer.cw - s.producer.cr) % TWO64 == size - 1 then s.(producer := Resting)
      else s.(producer := HasRoom(s.producer.v, s.producer.cw))
    case StoreCell =>
      s.(cells := s.cells[s.producer.cw % size := s.producer.v], producer := StoredCell(s.producer.v, s.producer.cw))
    case PublishWrite =>
      s.(write := (s.producer.cw + 1) % TWO64, pushed := s.pushed + [s.producer.v], producer := Resting)
    case LoadWrite => s.(consumer := GotWrite(s.write, |s.pushed|))
    case LoadOwnRead => s.(consumer := GotRead(s.consumer.cw, s.read, s.consumer.seen))
    case CheckEmpty =>
      if s.consumer.cr == s.consumer.cw then s.(consumer := Waiting) else s.(consumer := HasValue(s.consumer.cr))
    case TakeCell => s.(consumer := Taken(s.cells[s.consumer.cr % size], s.consumer.cr))
    case PublishRead =>
      s.(read := (s.consumer.cr + 1) % TWO64, popped := s.popped + [s.consumer.v], consumer := Waiting)
  }

  // ---------------------------------------------------------------- what every step keeps

  ghost predicate CellsHold<T>(s: State<T>)
    requires 0 < |s.cells|
  {
    forall i :: |s.popped| <= i < |s.pushed| ==> s.cells[i % |s.cells|] == s.pushed[i]
  }

  ghost predicate CountersInv<T>(s: State<T>) {
    && RingSize(|s.cells|)
    && s.write == |s.pushed| % TWO64 && s.read == |s.popped| % TWO64
    && |s.popped| <= |s.pushed| < |s.popped| + |s.cells|
  }

  ghost predicate ProducerInv<T>(s: State<T>)
    requires 0 < |s.cells|
  {
    match s.producer
    case Resting => true
    case LoadedWrite(_, cw) => cw == s.write
    case LoadedRead(_, cw, cr, seen) =>
      cw == s.write && cr == seen % TWO64 && seen <= |s.popped| && |s.pushed| < seen + |s.cells|
    case HasRoom(_, cw) => cw == s.write && |s.pushed| + 1 < |s.popped| + |s.cells|
    case StoredCell(v, cw) =>
      cw == s.write && |s.pushed| + 1 < |s.popped| + |s.cells| && s.cells[|s.pushed| % |s.cells|] == v
  }

  ghost predicate ConsumerInv<T>(s: State<T>) {
    match s.consumer
    case Waiting => true
    case GotWrite(cw, seen) => cw == seen % TWO64 && |s.popped| <= seen <= |s.pushed|
    case GotRead(cw, cr, seen) => cw == seen % TWO64 && cr == s.read && |s.popped| <= seen <= |s.pushed|
    case HasValue(cr) => cr == s.read && |s.popped| < |s.pushed|
    case Taken(v, cr) => cr == s.read && |s.popped| < |s.pushed| && v == s.pushed[|s.popped|]
  }

  /** First in, first out: what has been popped is a prefix of what has been pushed, and the rest is in the ring. */
  ghost predicate Inv<T>(s: State<T>) {
    CountersInv(s) && CellsHold(s) && s.popped <= s.pushed && ProducerInv(s) && ConsumerInv(s)
  }

  // ---------------------------------------------------------------- arithmetic

  lemma WrapSub(a: nat, b: nat)
    requires b <= a < b + TWO64
    ensures (a % TWO64 - b % TWO64) % TWO64 == a - b
  {
  }

  lemma WrapSame(a: nat, b: nat)
    requires b <= a < b + TWO64
    ensures a % TWO64 == b % TWO64 <==> a == b
  {
  }

  lemma WrapIndex(a: nat, size: nat)
    requires RingSize(size)
    ensures (a % TWO64) % size == a % size
  {
    var q, k := a / TWO64, TWO64 / size;
    var w := a % TWO64;
    assert TWO64 == k * size;
    assert a == q * (k * size) + w;
    assert q * (k * size) == (q * k) * size;
    assert w == (w / size) * size + w % size;
    assert a == (q * k + w / size) * size + w % size by {
      assert (q * k + w / size) * size == (q * k) * size + (w / size) * size;
    }
    DivideUnique(a, size, q * k + w / size, w % size);
  }

  lemma SlotsApart(i: nat, j: nat, size: nat)
    requires i < j < i + size
    ensures i % size != j % size
  {
    var d := j / size - i / size;
    assert d * size == (j - i) - (j % size - i % size);
    MultipleTooBig(d, size);
  }

  // ---------------------------------------------------------------- steps

  lemma ProducerLoads<T>(s: State<T>, step: Step<T>)
    requires Inv(s) && Enabled(s, step) && (step.LoadOwnWrite? || step.LoadRead? || step.CheckFull?)
    ensures Inv(Next(s, step))
  {
    if step.CheckFull? {
      WrapSub(|s.pushed|, s.producer.seen);
    }
  }

  lemma ProducerStores<T>(s: State<T>)
    requires Inv(s) && s.producer.HasRoom?
    ensures Inv(Next(s, StoreCell))
  {
    var t, size := Next(s, StoreCell), |s.cells|;
    WrapIndex(|s.pushed|, size);
    forall i | |t.popped| <= i < |t.pushed|
      ensures t.cells[i % size] == t.pushed[i]
    {
      SlotsApart(i, |s.pushed|, size);
    }
  }

  lemma WrapNext(a: nat)
    ensures (a % TWO64 + 1) % TWO64 == (a + 1) % TWO64
  {
  }

  lemma ProducerPublishes<T>(s: State<T>)
    requires Inv(s) && s.producer.StoredCell?
    ensures Inv(Next(s, PublishWrite))
  {
    WrapNext(|s.pushed|);
  }

  lemma ConsumerLoads<T>(s: State<T>, step: Step<T>)
    requires Inv(s) && Enabled(s, step) && (step.LoadWrite? || step.LoadOwnRead? || step.CheckEmpty?)
    ensures Inv(Next(s, step))
  {
  }

  lemma ConsumerTakes<T>(s: State<T>)
    requires Inv(s) && s.consumer.HasValue?
    ensures Inv(Next(s, TakeCell))
  {
    WrapIndex(|s.popped|, |s.cells|);
  }

  lemma ConsumerPublishes<T>(s: State<T>)
    requires Inv(s) && s.consumer.Taken?
    ensures Inv(Next(s, PublishRead))
  {
    WrapNext(|s.popped|);
  }

  lemma StepKeepsInv<T>(s: State<T>, step: Step<T>)
    requires Inv(s) && Enabled(s, step)
    ensures Inv(Next(s, step))
  {
    match step
    case StoreCell => ProducerStores(s);
    case PublishWrite => ProducerPublishes(s);
    case TakeCell => ConsumerTakes(s);
    case PublishRead => ConsumerPublishes(s);
    case LoadWrite => ConsumerLoads(s, step);
    case LoadOwnRead => ConsumerLoads(s, step);
    case CheckEmpty => ConsumerLoads(s, step);
    case _ => ProducerLoads(s, step);
  }

  // ---------------------------------------------------------------- runs

  ghost predicate Initial<T>(s: State<T>) {
    && RingSize(|s.cells|) && s.write == 0 && s.read == 0 && s.pushed == [] && s.popped == []
    && s.producer == Resting && s.consumer == Waiting
  }

  /** `t` is reached from `s` by the steps of `run`, in any interleaving the two sides allow. */
  ghost predicate Reaches<T>(s: State<T>, run: seq<Step<T>>, t: State<T>)
    decreases |run|
  {
    if run == [] then s == t
    else Enabled(s, run[0]) && 2 <= |s.cells| && Reaches(Next(s, run[0]), run[1..], t)
  }

  lemma {:induction false} EveryRunKeepsInv<T>(s: State<T>, run: seq<Step<T>>, t: State<T>)
    requires Inv(s) && Reaches(s, run, t)
    ensures Inv(t)
    decreases |run|
  {
    if run != [] {
      StepKeepsInv(s, run[0]);
      EveryRunKeepsInv(Next(s, run[0]), run[1..], t);
    }
  }

  // ---------------------------------------------------------------- what the callers asked for

  datatype Argument<T> = None | Some(v: T)

  /** The argument of the latest push that was begun. */
  ghost function LatestArgument<T>(run: seq<Step<T>>): Argument<T> {
    if run == [] then None
    else
      var front, last := run[..|run| - 1], run[|run| - 1];
      if last.LoadOwnWrite? then Some(last.v) else LatestArgument(front)
  }

  /** The arguments of the pushes that were published, in the order of their publication. */
  ghost function Arguments<T>(run: seq<Step<T>>): seq<T> {
    if run == [] then []
    else
      var front, last := run[..|run| - 1], run[|run| - 1];
      if last.PublishWrite? && LatestArgument(front).Some? then Arguments(front) + [LatestArgument(front).v]
      else Arguments(front)
  }

  ghost predicate Carries<T>(p: Producer<T>, argument: Argument<T>) {
    p.Resting? || argument == Some(p.v)
  }

  /** A run that goes on for one more step. */
  lemma {:induction false} ReachesSplit<T>(s: State<T>, run: seq<Step<T>>, t: State<T>) returns (mid: State<T>)
    requires Reaches(s, run, t) && run != []
    ensures Reaches(s, run[..|run| - 1], mid) && 2 <= |mid.cells|
    ensures Enabled(mid, run[|run| - 1]) && t == Next(mid, run[|run| - 1])
    decreases |run|
  {
    if |run| == 1 {
      mid := s;
      assert run[1..] == [] && run[..0] == [];
    } else {
      mid := ReachesSplit(Next(s, run[0]), run[1..], t);
      assert run[1..][..|run| - 2] == run[..|run| - 1][1..];
    }
  }

  /** What counts as pushed are the arguments of the pushes, whatever the steps in between. */
  lemma {:induction false} PushedArguments<T>(s: State<T>, run: seq<Step<T>>, t: State<T>)
    requires Initial(s) && Reaches(s, run, t)
    ensures t.pushed == Arguments(run) && Carries(t.producer, LatestArgument(run))
    decreases |run|
  {
    if run != [] {
      var mid := ReachesSplit(s, run, t);
      PushedArguments(s, run[..|run| - 1], mid);
    }
  }

  /** Over every run the values handed out are the arguments of the first published pushes, in order: nothing is lost,
      duplicated, reordered or made up, and at most `size - 1` values are in the ring. */
  lemma Fifo<T>(s: State<T>, run: seq<Step<T>>, t: State<T>)
    requires Initial(s) && Reaches(s, run, t)
    ensures t.popped <= Arguments(run) && |Arguments(run)| - |t.popped| <= |t.cells| - 1
    ensures forall i :: |t.popped| <= i < |Arguments(run)| ==>
              0 < |t.cells| && t.cells[i % |t.cells|] == Arguments(run)[i]
  {
    EveryRunKeepsInv(s, run, t);
    PushedArguments(s, run, t);
  }

  // ---------------------------------------------------------------- undisturbed calls

  function PushSteps<T>(v: T): seq<Step<T>> {
    [LoadOwnWrite(v), LoadRead, CheckFull, StoreCell, PublishWrite]
  }

  function PopSteps<T>(): seq<Step<T>> {
    [LoadWrite, LoadOwnRead, CheckEmpty, TakeCell, PublishRead]
  }

  lemma StepThen<T>(s: State<T>, step: Step<T>, rest: seq<Step<T>>, t: State<T>)
    requires 2 <= |s.cells| && Enabled(s, step) && Reaches(Next(s, step), rest, t)
    ensures Reaches(s, [step] + rest, t)
  {
    assert ([step] + rest)[1..] == rest;
  }

  /** A push that is not disturbed while there is room publishes its argument. */
  lemma PushRuns<T>(s: State<T>, v: T) returns (t: State<T>)
    requires Inv(s) && s.producer.Resting? && |s.pushed| - |s.popped| < |s.cells| - 1
    ensures Reaches(s, PushSteps(v), t) && Inv(t)
    ensures t.pushed == s.pushed + [v] && t.popped == s.popped && t.producer.Resting? && t.consumer == s.consumer
  {
    var s1 := Next(s, LoadOwnWrite(v));
    var s2 := Next(s1, LoadRead);
    StepKeepsInv(s, LoadOwnWrite(v));
    StepKeepsInv(s1, LoadRead);
    RefusedWhenFull(s2);
    var s3 := Next(s2, CheckFull);
    var s4 := Next(s3, StoreCell);
    t := Next(s4, PublishWrite);
    StepThen(s4, PublishWrite, [], t);
    StepThen(s3, StoreCell, [PublishWrite] + [], t);
    StepThen(s2, CheckFull, [StoreCell] + ([PublishWrite] + []), t);
    StepThen(s1, LoadRead, [CheckFull] + ([StoreCell] + ([PublishWrite] + [])), t);
    StepThen(s, LoadOwnWrite(v), [LoadRead] + ([CheckFull] + ([StoreCell] + ([PublishWrite] + []))), t);
    assert PushSteps(v) == [LoadOwnWrite(v)] + ([LoadRead] + ([CheckFull] + ([StoreCell] + ([PublishWrite] + []))));
    EveryRunKeepsInv(s, PushSteps(v), t);
  }

  /** A pop that is not disturbed while there is a value hands out the oldest. */
  lemma PopRuns<T>(s: State<T>) returns (t: State<T>)
    requires Inv(s) && s.consumer.Waiting? && |s.popped| < |s.pushed|
    ensures Reaches(s, PopSteps<T>(), t) && Inv(t)
    ensures t.popped == s.popped + [s.pushed[|s.popped|]] && t.pushed == s.pushed
    ensures t.consumer.Waiting? && t.producer == s.producer
  {
    var s1 := Next(s, LoadWrite);
    var s2 := Next(s1, LoadOwnRead);
    StepKeepsInv(s, LoadWrite);
    StepKeepsInv(s1, LoadOwnRead);
    NothingWhenEmpty(s2);
    var s3 := Next(s2, CheckEmpty);
    var s4 := Next(s3, TakeCell);
    StepKeepsInv(s2, CheckEmpty);
    StepKeepsInv(s3, TakeCell);
    t := Next(s4, PublishRead);
    StepThen(s4, PublishRead, [], t);
    StepThen(s3, TakeCell, [PublishRead] + [], t);
    StepThen(s2, CheckEmpty, [TakeCell] + ([PublishRead] + []), t);
    StepThen(s1, LoadOwnRead, [CheckEmpty] + ([TakeCell] + ([PublishRead] + [])), t);
    StepThen(s, LoadWrite, [LoadOwnRead] + ([CheckEmpty] + ([TakeCell] + ([PublishRead] + []))), t);
    assert PopSteps<T>() == [LoadWrite] + ([LoadOwnRead] + ([CheckEmpty] + ([TakeCell] + ([PublishRead] + []))));
    EveryRunKeepsInv(s, PopSteps<T>(), t);
  }

  /** A push is refused just if the ring was full when the push loaded the read counter. */
  lemma RefusedWhenFull<T>(s: State<T>)
    requires Inv(s) && s.producer.LoadedRead?
    ensures Next(s, CheckFull).producer.Resting? <==> |s.pushed| - s.producer.seen == |s.cells| - 1
  {
    WrapSub(|s.pushed|, s.producer.seen);
  }

  /** A pop finds nothing just if the ring was empty when the pop loaded the write counter. */
  lemma NothingWhenEmpty<T>(s: State<T>)
    requires Inv(s) && s.consumer.GotRead?
    ensures Next(s, CheckEmpty).consumer.Waiting? <==> s.consumer.seen == |s.popped|
  {
    WrapSame(s.consumer.seen, |s.popped|);
  }

  /** The cell a push is about to store is not the one a pop is about to take, nor one that holds a value. */
  lemma CellsApart<T>(s: State<T>, i: nat)
    requires Inv(s) && s.producer.HasRoom? && |s.popped| <= i < |s.pushed|
    ensures s.producer.cw % |s.cells| != i % |s.cells|
    ensures s.consumer.HasValue? ==> s.producer.cw % |s.cells| != s.consumer.cr % |s.cells|
  {
    WrapIndex(|s.pushed|, |s.cells|);
    WrapIndex(|s.popped|, |s.cells|);
    SlotsApart(i, |s.pushed|, |s.cells|);
    SlotsApart(|s.popped|, |s.pushed|, |s.cells|);
  }
}
