/**
 The node files of a database while compactions run. Every file operation is one step, any number
 of compactions of different nodes are in flight at once, and a crash may follow any step.
 */
module Compaction {

  type Id = nat

  /** `id.db`, `parent.id.db.incomplete` and `parent.id.db.seal`. */
  datatype File = Db(id: Id) | Incomplete(parent: Id, id: Id) | Seal(parent: Id, id: Id)

  /** What a node file holds: the parent recorded when it was made, and the ids of its branches. */
  datatype Header = Header(parent: Id, branches: seq<Id>)

  type Directory = map<File, Header>

  /** Where a node stands. `Old` is being compacted; `Fresh`, `Sealed` and `Done` are the
      replacements made by a compaction that is still in flight. */
  datatype Stage = Stable | Old | Fresh | Sealed | Done

  datatype Node = Node(stage: Stage, header: Header)

  datatype Phase = Building | Sealing | Completing

  /** `taken` are the numbers that have been drawn for a node's replacement or branch, and for whose. */
  datatype State = State(nodes: map<Id, Node>, jobs: map<Id, Phase>, taken: map<Id, Id>, nsn: Id)

  function FileOf(i: Id, n: Node): File {
    match n.stage
    case Fresh => Incomplete(n.header.parent, i)
    case Sealed => Seal(n.header.parent, i)
    case _ => Db(i)
  }

  /** The directory holds exactly one file for every node, named after its stage. */
  ghost predicate Lists(dir: Directory, nodes: map<Id, Node>) {
    forall f: File :: ListsFile(dir, nodes, f)
  }

  ghost predicate ListsFile(dir: Directory, nodes: map<Id, Node>, f: File) {
    && (f in dir <==> f.id in nodes && FileOf(f.id, nodes[f.id]) == f)
    && (f in dir ==> dir[f] == nodes[f.id].header)
  }

  ghost predicate IsChild(s: State, p: Id, c: Id) {
    c in s.nodes && s.nodes[c].header.parent == p && s.nodes[c].stage in {Fresh, Sealed, Done}
  }

  // ---------------------------------------------------------------- steps

  datatype Step =
    | Start(node: Id)               // lock a node for compaction
    | TakeNumber(node: Id)          // draw a number for a replacement or a branch of a node
    | Create(node: Id, id: Id)      // write one more replacement of a node
    | Built(node: Id)               // the merge stream is exhausted
    | SealNode(child: Id)           // rename .incomplete to .seal
    | Unlink(node: Id)              // remove the old node
    | Complete(child: Id)           // rename .seal to .db
    | Finish(node: Id)              // unlock the replacements
    | AddBranch(node: Id, id: Id)   // append a branch to a node file

  ghost predicate Enabled(s: State, step: Step) {
    match step
    case Start(p) => p in s.nodes && s.nodes[p].stage == Stable
    case TakeNumber(p) => p in s.nodes && (s.nodes[p].stage == Stable || (p in s.jobs && s.jobs[p] == Building))
    case Create(p, i) => p in s.jobs && s.jobs[p] == Building && i in s.taken && s.taken[i] == p
    case Built(p) => p in s.jobs && s.jobs[p] == Building
    case SealNode(c) => c in s.nodes && s.nodes[c].stage == Fresh
                        && s.nodes[c].header.parent in s.jobs && s.jobs[s.nodes[c].header.parent] == Sealing
    case Unlink(p) => p in s.jobs && s.jobs[p] == Sealing && forall c :: IsChild(s, p, c) ==> s.nodes[c].stage == Sealed
    case Complete(c) => c in s.nodes && s.nodes[c].stage == Sealed
                        && s.nodes[c].header.parent in s.jobs && s.jobs[s.nodes[c].header.parent] == Completing
    case Finish(p) => p in s.jobs && s.jobs[p] == Completing
                      && forall c :: IsChild(s, p, c) ==> s.nodes[c].stage == Done
    case AddBranch(p, i) => p in s.nodes && s.nodes[p].stage == Stable && i in s.taken && s.taken[i] == p
  }

  ghost function Restage(s: State, i: Id, stage: Stage): map<Id, Node>
    requires i in s.nodes
  {
    s.nodes[i := s.nodes[i].(stage := stage)]
  }

  ghost function Next(s: State, step: Step): State
    requires Enabled(s, step)
  {
    match step
    case Start(p) => s.(nodes := Restage(s, p, Old), jobs := s.jobs[p := Building])
    case TakeNumber(p) => s.(taken := s.taken[s.nsn + 1 := p], nsn := s.nsn + 1)
    case Create(p, i) => s.(nodes := s.nodes[i := Node(Fresh, Header(p, [i]))], taken := s.taken - {i})
    case Built(p) => s.(jobs := s.jobs[p := Sealing])
    case SealNode(c) => s.(nodes := Restage(s, c, Sealed))
    case Unlink(p) => s.(nodes := s.nodes - {p}, jobs := s.jobs[p := Completing])
    case Complete(c) => s.(nodes := Restage(s, c, Done))
    case Finish(p) => s.(nodes := Unlocked(s, p), jobs := s.jobs - {p})
    case AddBranch(p, i) =>
      var h := s.nodes[p].header;
      s.(nodes := s.nodes[p := Node(Stable, Header(h.parent, h.branches + [i]))], taken := s.taken - {i})
  }

  ghost function Unlocked(s: State, p: Id): map<Id, Node> {
    map i | i in s.nodes :: if IsChild(s, p, i) then s.nodes[i].(stage := Stable) else s.nodes[i]
  }

  // ---------------------------------------------------------------- what every step keeps

  ghost predicate Numbered(i: Id, h: Header, nsn: Id) {
    0 < i <= nsn && h.parent < i && forall b :: b in h.branches ==> b <= nsn
  }

  /** A replacement's stage agrees with the phase of the compaction that makes it. */
  ghost predicate Agrees(stage: Stage, phase: Phase) {
    match stage
    case Fresh => phase != Completing
    case Sealed => phase != Building
    case Done => phase == Completing
    case _ => false
  }

  ghost predicate NodeInv(s: State, i: Id)
    requires i in s.nodes
  {
    var n := s.nodes[i];
    var p := n.header.parent;
    && Numbered(i, n.header, s.nsn)
    && (n.stage == Old <==> i in s.jobs)
    && i !in s.taken && p !in s.taken
    && (if n.stage in {Stable, Old} then p !in s.nodes && p !in s.jobs
        else p in s.jobs && 0 < p && Agrees(n.stage, s.jobs[p]))
  }

  ghost predicate Inv(s: State) {
    && (forall i :: i in s.nodes ==> NodeInv(s, i))
    && (forall p :: p in s.jobs ==> 0 < p <= s.nsn && (s.jobs[p] == Completing <==> p !in s.nodes))
    && (forall i :: i in s.taken ==> s.taken[i] < i <= s.nsn && i !in s.jobs)
  }

  /** A database at rest: complete nodes only, nothing in flight. */
  ghost predicate AtRest(s: State) {
    Inv(s) && s.jobs == map[] && s.taken == map[] && forall i :: i in s.nodes ==> s.nodes[i].stage == Stable
  }

  lemma NodeKept(s: State, step: Step, i: Id)
    requires Inv(s) && Enabled(s, step) && i in Next(s, step).nodes
    ensures NodeInv(Next(s, step), i)
  {
    if i in s.nodes {
      assert NodeInv(s, i);
    }
  }

  lemma StepKeepsInv(s: State, step: Step)
    requires Inv(s) && Enabled(s, step)
    ensures Inv(Next(s, step))
  {
    var t := Next(s, step);
    forall i | i in t.nodes
      ensures NodeInv(t, i)
    {
      NodeKept(s, step, i);
    }
  }

  // ---------------------------------------------------------------- steps as file operations

  datatype Operation = Idle | Write(file: File, header: Header) | Rename(from: File, to: File) | Remove(file: File)

  function Apply(dir: Directory, op: Operation): Directory {
    match op
    case Idle => dir
    case Write(f, h) => dir[f := h]
    case Rename(from, to) => if from in dir then (dir - {from})[to := dir[from]] else dir
    case Remove(f) => dir - {f}
  }

  ghost function OperationOf(s: State, step: Step): Operation
    requires Enabled(s, step)
  {
    match step
    case Create(p, i) => Write(Incomplete(p, i), Header(p, [i]))
    case SealNode(c) => Rename(Incomplete(s.nodes[c].header.parent, c), Seal(s.nodes[c].header.parent, c))
    case Unlink(p) => Remove(Db(p))
    case Complete(c) => Rename(Seal(s.nodes[c].header.parent, c), Db(c))
    case AddBranch(p, i) => Write(Db(p), Header(s.nodes[p].header.parent, s.nodes[p].header.branches + [i]))
    case _ => Idle
  }

  lemma RenameNode(dir: Directory, nodes: map<Id, Node>, i: Id, n: Node)
    requires Lists(dir, nodes) && i in nodes && n.header == nodes[i].header
    ensures Lists(Apply(dir, Rename(FileOf(i, nodes[i]), FileOf(i, n))), nodes[i := n])
  {
    var from := FileOf(i, nodes[i]);
    var renamed, after := Apply(dir, Rename(from, FileOf(i, n))), nodes[i := n];
    assert ListsFile(dir, nodes, from);
    forall f: File
      ensures ListsFile(renamed, after, f)
    {
      assert ListsFile(dir, nodes, f);
    }
  }

  lemma WriteNode(dir: Directory, nodes: map<Id, Node>, i: Id, n: Node)
    requires Lists(dir, nodes) && (i in nodes ==> FileOf(i, n) == FileOf(i, nodes[i]))
    ensures Lists(Apply(dir, Write(FileOf(i, n), n.header)), nodes[i := n])
  {
    var written, after := Apply(dir, Write(FileOf(i, n), n.header)), nodes[i := n];
    forall f: File
      ensures ListsFile(written, after, f)
    {
      assert ListsFile(dir, nodes, f);
    }
  }

  lemma RemoveNode(dir: Directory, nodes: map<Id, Node>, i: Id)
    requires Lists(dir, nodes) && i in nodes
    ensures Lists(Apply(dir, Remove(FileOf(i, nodes[i]))), nodes - {i})
  {
    var removed, after := Apply(dir, Remove(FileOf(i, nodes[i]))), nodes - {i};
    forall f: File
      ensures ListsFile(removed, after, f)
    {
      assert ListsFile(dir, nodes, f);
    }
  }

  lemma SameFiles(dir: Directory, a: map<Id, Node>, b: map<Id, Node>)
    requires Lists(dir, a) && a.Keys == b.Keys
    requires forall i :: i in a ==> FileOf(i, a[i]) == FileOf(i, b[i]) && a[i].header == b[i].header
    ensures Lists(dir, b)
  {
    forall f: File
      ensures ListsFile(dir, b, f)
    {
      assert ListsFile(dir, a, f);
    }
  }

  /** Every step is at most one operation on one file. */
  lemma StepIsFileOperation(s: State, step: Step, dir: Directory)
    requires Inv(s) && Enabled(s, step) && Lists(dir, s.nodes)
    ensures Lists(Apply(dir, OperationOf(s, step)), Next(s, step).nodes)
  {
    match step
    case Start(p) => SameFiles(dir, s.nodes, Restage(s, p, Old));
    case TakeNumber(p) =>
    case Create(p, i) => WriteNode(dir, s.nodes, i, Node(Fresh, Header(p, [i])));
    case Built(p) =>
    case SealNode(c) => RenameNode(dir, s.nodes, c, s.nodes[c].(stage := Sealed));
    case Unlink(p) => assert NodeInv(s, p); RemoveNode(dir, s.nodes, p);
    case Complete(c) => RenameNode(dir, s.nodes, c, s.nodes[c].(stage := Done));
    case Finish(p) => SameFiles(dir, s.nodes, Unlocked(s, p));
    case AddBranch(p, i) =>
      var h := s.nodes[p].header;
      WriteNode(dir, s.nodes, p, Node(Stable, Header(h.parent, h.branches + [i])));
  }

  // ---------------------------------------------------------------- what a crash must leave

  ghost predicate HasFresh(s: State, p: Id) {
    exists c :: c in s.nodes && s.nodes[c].stage == Fresh && s.nodes[c].header.parent == p
  }

  ghost predicate HasSealed(s: State, p: Id) {
    exists c :: c in s.nodes && s.nodes[c].stage == Sealed && s.nodes[c].header.parent == p
  }

  /** Which nodes outlive a crash: a compaction takes effect once all its replacements are sealed. */
  ghost predicate Survives(s: State, i: Id) {
    i in s.nodes &&
    match s.nodes[i].stage
    case Stable => true
    case Old => HasFresh(s, i) || !HasSealed(s, i)
    case Fresh => false
    case Sealed => !HasFresh(s, s.nodes[i].header.parent)
    case Done => true
  }

  ghost function Survivors(s: State): map<Id, Node> {
    map i | i in s.nodes && Survives(s, i) :: Node(Stable, s.nodes[i].header)
  }

  /** Exactly the old node or exactly all of its replacements. */
  lemma AllOrNothing(s: State, p: Id)
    requires Inv(s) && p in s.jobs
    ensures Survives(s, p) ==> forall c :: IsChild(s, p, c) ==> !Survives(s, c)
    ensures !Survives(s, p) ==> forall c :: IsChild(s, p, c) ==> Survives(s, c)
    ensures s.jobs[p] == Building ==> Survives(s, p)
    ensures s.jobs[p] == Completing ==> !Survives(s, p)
  {
  }

  ghost predicate Bounds(nodes: map<Id, Node>, nsn: Id) {
    forall i :: i in nodes ==> Numbered(i, nodes[i].header, nsn)
  }

  lemma SurvivorsAtRest(s: State, nsn: Id)
    requires Inv(s) && Bounds(Survivors(s), nsn)
    ensures AtRest(State(Survivors(s), map[], map[], nsn))
  {
  }

  // ---------------------------------------------------------------- whole runs

  /** A run mixes steps of any compactions with crashes; `nsn` is the number recovery resumes from. */
  datatype Event = Do(step: Step) | Crash(nsn: Id)

  ghost predicate Allowed(s: State, e: Event) {
    match e
    case Do(step) => Enabled(s, step)
    case Crash(nsn) => Bounds(Survivors(s), nsn)
  }

  ghost function After(s: State, e: Event): State
    requires Allowed(s, e)
  {
    match e
    case Do(step) => Next(s, step)
    case Crash(nsn) => State(Survivors(s), map[], map[], nsn)
  }

  ghost predicate Reaches(s: State, run: seq<Event>, t: State)
    decreases |run|
  {
    if run == [] then s == t
    else Allowed(s, run[0]) && Reaches(After(s, run[0]), run[1..], t)
  }

  lemma {:induction false} EveryRunKeepsInv(s: State, run: seq<Event>, t: State)
    requires Inv(s) && Reaches(s, run, t)
    ensures Inv(t)
    decreases |run|
  {
    if run != [] {
      match run[0] {
        case Do(step) => StepKeepsInv(s, step);
        case Crash(nsn) => SurvivorsAtRest(s, nsn);
      }
      EveryRunKeepsInv(After(s, run[0]), run[1..], t);
    }
  }

  // ---------------------------------------------------------------- what a node file keeps

  /** A node file is never moved to another parent and never loses a branch. */
  ghost predicate Extends(before: Header, after: Header) {
    after.parent == before.parent && before.branches <= after.branches
  }

  lemma StepExtends(s: State, step: Step, i: Id)
    requires Inv(s) && Enabled(s, step) && i in s.nodes && i in Next(s, step).nodes
    ensures Extends(s.nodes[i].header, Next(s, step).nodes[i].header)
  {
    assert NodeInv(s, i);
  }

  /** What an event makes of the header of node `i`: a new one, one with a branch more, or the same. */
  ghost function Recorded(before: Header, e: Event, i: Id): Header {
    match e
    case Do(Create(p, c)) => if c == i then Header(p, [i]) else before
    case Do(AddBranch(n, b)) => if n == i then Header(before.parent, before.branches + [b]) else before
    case _ => before
  }

  /** The header a run gives to node `i`: what the node was made or found with, and every branch appended since. */
  ghost function History(s: State, run: seq<Event>, i: Id): Header
    decreases |run|
  {
    if run == [] then if i in s.nodes then s.nodes[i].header else Header(0, [])
    else Recorded(History(s, run[..|run| - 1], i), run[|run| - 1], i)
  }

  lemma EventRecorded(s: State, e: Event, before: Header, i: Id)
    requires Inv(s) && Allowed(s, e) && i in After(s, e).nodes && (i in s.nodes ==> s.nodes[i].header == before)
    ensures After(s, e).nodes[i].header == Recorded(before, e, i)
  {
    if i in s.nodes {
      assert NodeInv(s, i);
    }
  }

  lemma {:induction false} ReachesSplit(s: State, run: seq<Event>, t: State) returns (mid: State)
    requires Reaches(s, run, t) && run != []
    ensures Reaches(s, run[..|run| - 1], mid) && Allowed(mid, run[|run| - 1]) && t == After(mid, run[|run| - 1])
    decreases |run|
  {
    if |run| == 1 {
      mid := s;
      assert run[1..] == [] && run[..0] == [];
    } else {
      mid := ReachesSplit(After(s, run[0]), run[1..], t);
      assert run[1..][..|run| - 2] == run[..|run| - 1][1..];
    }
  }

  /** Over every run, with any crashes and recoveries, a node holds the branch it was made with and every branch that
      was appended to it, in order. */
  lemma {:induction false} EveryRunKeepsBranches(s: State, run: seq<Event>, t: State, i: Id)
    requires Inv(s) && Reaches(s, run, t) && i in t.nodes
    ensures t.nodes[i].header == History(s, run, i)
    decreases |run|
  {
    if run != [] {
      var mid := ReachesSplit(s, run, t);
      EveryRunKeepsInv(s, run[..|run| - 1], mid);
      if i in mid.nodes {
        EveryRunKeepsBranches(s, run[..|run| - 1], mid, i);
      }
      EventRecorded(mid, run[|run| - 1], History(s, run[..|run| - 1], i), i);
    }
  }
}
