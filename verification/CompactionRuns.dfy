/** A compaction that nothing disturbs, from a database at rest to a database at rest. */
module CompactionRuns {
  import opened Compaction

  /** How far a compaction is: `made` replacements exist, with the numbers that follow those in use at the start, and
      the first `past` of them have left stage `from` for stage `to`. */
  datatype Standing = Standing(phase: Phase, made: nat, past: nat, from: Stage, to: Stage)

  ghost predicate NodeStands(start: State, p: Id, s: State, at: Standing, i: Id) {
    if i == p then
      if at.phase == Completing then i !in s.nodes
      else i in s.nodes && i in start.nodes && s.nodes[i] == start.nodes[i].(stage := Old)
    else if start.nsn < i <= start.nsn + at.made then
      i in s.nodes && s.nodes[i] == Node(if i <= start.nsn + at.past then at.to else at.from, Header(p, [i]))
    else if i in start.nodes then i in s.nodes && s.nodes[i] == start.nodes[i]
    else i !in s.nodes
  }

  /** State `s` of a compaction of `p` that began in `start`. */
  ghost predicate Stands(start: State, p: Id, s: State, at: Standing) {
    && AtRest(start) && p in start.nodes && at.past <= at.made
    && s.jobs == map[p := at.phase] && s.taken == map[] && s.nsn == start.nsn + at.made
    && forall i: Id :: NodeStands(start, p, s, at, i)
  }

  lemma NodeUsed(start: State, i: Id)
    requires AtRest(start) && i in start.nodes
    ensures 0 < i <= start.nsn && start.nodes[i].header.parent !in start.nodes && start.nodes[i].stage == Stable
  {
    assert NodeInv(start, i);
  }

  lemma {:induction false} OneMore(s: State, run: seq<Event>, mid: State, step: Step)
    requires Reaches(s, run, mid) && Enabled(mid, step)
    ensures Reaches(s, run + [Do(step)], Next(mid, step))
    decreases |run|
  {
    var longer := run + [Do(step)];
    if run == [] {
      assert longer[1..] == [];
    } else {
      assert longer[1..] == run[1..] + [Do(step)];
      OneMore(After(s, run[0]), run[1..], mid, step);
    }
  }

  // ---------------------------------------------------------------- single steps

  lemma Started(start: State, p: Id, at: Standing) returns (t: State)
    requires AtRest(start) && p in start.nodes && at == Standing(Building, 0, 0, Fresh, Fresh)
    ensures Enabled(start, Start(p)) && t == Next(start, Start(p)) && Stands(start, p, t, at)
  {
    NodeUsed(start, p);
    t := Next(start, Start(p));
  }

  lemma OneMade(start: State, p: Id, s: State, at: Standing, ahead: Standing) returns (t: State)
    requires Stands(start, p, s, at) && at.phase == Building && at.past == 0 && at.from == Fresh
    requires ahead == at.(made := at.made + 1)
    ensures Enabled(s, TakeNumber(p)) && Enabled(Next(s, TakeNumber(p)), Create(p, s.nsn + 1))
    ensures t == Next(Next(s, TakeNumber(p)), Create(p, s.nsn + 1)) && Stands(start, p, t, ahead)
  {
    NodeUsed(start, p);
    assert NodeStands(start, p, s, at, p);
    t := Next(Next(s, TakeNumber(p)), Create(p, s.nsn + 1));
    forall i: Id
      ensures NodeStands(start, p, t, ahead, i)
    {
      assert NodeStands(start, p, s, at, i);
      if i in start.nodes {
        NodeUsed(start, i);
      }
    }
  }

  lemma AllMade(start: State, p: Id, s: State, at: Standing, ahead: Standing) returns (t: State)
    requires Stands(start, p, s, at) && at.phase == Building && at.past == 0 && at.from == Fresh
    requires ahead == Standing(Sealing, at.made, 0, Fresh, Sealed)
    ensures Enabled(s, Built(p)) && t == Next(s, Built(p)) && Stands(start, p, t, ahead)
  {
    t := Next(s, Built(p));
    forall i: Id
      ensures NodeStands(start, p, t, ahead, i)
    {
      assert NodeStands(start, p, s, at, i);
    }
  }

  /** The next replacement is sealed, or completed. */
  lemma OnePast(start: State, p: Id, s: State, at: Standing, step: Step, ahead: Standing) returns (t: State)
    requires Stands(start, p, s, at) && at.past < at.made && ahead == at.(past := at.past + 1)
    requires var c := start.nsn + at.past + 1;
             || (step == SealNode(c) && at.phase == Sealing && at.from == Fresh && at.to == Sealed)
             || (step == Complete(c) && at.phase == Completing && at.from == Sealed && at.to == Done)
    ensures Enabled(s, step) && t == Next(s, step) && Stands(start, p, t, ahead)
  {
    var c := start.nsn + at.past + 1;
    NodeUsed(start, p);
    assert NodeStands(start, p, s, at, c);
    t := Next(s, step);
    forall i: Id
      ensures NodeStands(start, p, t, ahead, i)
    {
      assert NodeStands(start, p, s, at, i);
    }
  }

  lemma Removed(start: State, p: Id, s: State, at: Standing, ahead: Standing) returns (t: State)
    requires Stands(start, p, s, at) && at == Standing(Sealing, at.made, at.made, Fresh, Sealed)
    requires ahead == Standing(Completing, at.made, 0, Sealed, Done)
    ensures Enabled(s, Unlink(p)) && t == Next(s, Unlink(p)) && Stands(start, p, t, ahead)
  {
    forall c | IsChild(s, p, c)
      ensures s.nodes[c].stage == Sealed
    {
      assert NodeStands(start, p, s, at, c);
      if c in start.nodes {
        NodeUsed(start, c);
      }
    }
    t := Next(s, Unlink(p));
    forall i: Id
      ensures NodeStands(start, p, t, ahead, i)
    {
      assert NodeStands(start, p, s, at, i);
    }
  }

  /** The end: `p` is gone and its replacements stand beside the other nodes. */
  ghost predicate Swapped(start: State, p: Id, t: State, made: nat, i: Id) {
    if i == p then i !in t.nodes
    else if start.nsn < i <= start.nsn + made then i in t.nodes && t.nodes[i] == Node(Stable, Header(p, [i]))
    else if i in start.nodes then i in t.nodes && t.nodes[i] == start.nodes[i]
    else i !in t.nodes
  }

  lemma Finished(start: State, p: Id, s: State, at: Standing) returns (t: State)
    requires Stands(start, p, s, at) && at == Standing(Completing, at.made, at.made, Sealed, Done)
    ensures Enabled(s, Finish(p))
    ensures t == Next(s, Finish(p)) && t.jobs == map[] && t.taken == map[] && t.nsn == start.nsn + at.made
    ensures forall i: Id :: Swapped(start, p, t, at.made, i)
  {
    forall c | IsChild(s, p, c)
      ensures s.nodes[c].stage == Done
    {
      assert NodeStands(start, p, s, at, c);
      if c in start.nodes {
        NodeUsed(start, c);
      }
    }
    t := Next(s, Finish(p));
    forall i: Id
      ensures Swapped(start, p, t, at.made, i)
    {
      assert NodeStands(start, p, s, at, i);
      if i in start.nodes {
        NodeUsed(start, i);
      }
    }
  }

  // ---------------------------------------------------------------- the whole run

  lemma {:induction false} Makes(start: State, p: Id, k: nat) returns (run: seq<Event>, t: State)
    requires AtRest(start) && p in start.nodes
    ensures Reaches(start, run, t) && Stands(start, p, t, Standing(Building, k, 0, Fresh, Fresh))
  {
    if k == 0 {
      t := Started(start, p, Standing(Building, 0, 0, Fresh, Fresh));
      OneMore(start, [], start, Start(p));
      run := [] + [Do(Start(p))];
    } else {
      var front, s := Makes(start, p, k - 1);
      var at := Standing(Building, k - 1, 0, Fresh, Fresh);
      t := OneMade(start, p, s, at, at.(made := k));
      OneMore(start, front, s, TakeNumber(p));
      OneMore(start, front + [Do(TakeNumber(p))], Next(s, TakeNumber(p)), Create(p, s.nsn + 1));
      run := front + [Do(TakeNumber(p))] + [Do(Create(p, s.nsn + 1))];
    }
  }

  lemma {:induction false} Seals(start: State, p: Id, k: nat, j: nat) returns (run: seq<Event>, t: State)
    requires AtRest(start) && p in start.nodes && j <= k
    ensures Reaches(start, run, t) && Stands(start, p, t, Standing(Sealing, k, j, Fresh, Sealed))
  {
    if j == 0 {
      var front, s := Makes(start, p, k);
      var at := Standing(Building, k, 0, Fresh, Fresh);
      t := AllMade(start, p, s, at, Standing(Sealing, k, 0, Fresh, Sealed));
      OneMore(start, front, s, Built(p));
      run := front + [Do(Built(p))];
    } else {
      var front, s := Seals(start, p, k, j - 1);
      var at, c := Standing(Sealing, k, j - 1, Fresh, Sealed), start.nsn + j;
      t := OnePast(start, p, s, at, SealNode(c), at.(past := j));
      OneMore(start, front, s, SealNode(c));
      run := front + [Do(SealNode(c))];
    }
  }

  lemma {:induction false} Completes(start: State, p: Id, k: nat, j: nat) returns (run: seq<Event>, t: State)
    requires AtRest(start) && p in start.nodes && j <= k
    ensures Reaches(start, run, t) && Stands(start, p, t, Standing(Completing, k, j, Sealed, Done))
  {
    if j == 0 {
      var front, s := Seals(start, p, k, k);
      var at := Standing(Sealing, k, k, Fresh, Sealed);
      t := Removed(start, p, s, at, Standing(Completing, k, 0, Sealed, Done));
      OneMore(start, front, s, Unlink(p));
      run := front + [Do(Unlink(p))];
    } else {
      var front, s := Completes(start, p, k, j - 1);
      var at, c := Standing(Completing, k, j - 1, Sealed, Done), start.nsn + j;
      t := OnePast(start, p, s, at, Complete(c), at.(past := j));
      OneMore(start, front, s, Complete(c));
      run := front + [Do(Complete(c))];
    }
  }

  /** A compaction of any node into any number of replacements can run to its end, where exactly the node has been
      exchanged for the replacements, numbered on from the last number, and the database is at rest again. */
  lemma RunsToEnd(start: State, p: Id, k: nat) returns (run: seq<Event>, t: State)
    requires AtRest(start) && p in start.nodes
    ensures Reaches(start, run, t) && AtRest(t) && t.nsn == start.nsn + k
    ensures forall i: Id :: Swapped(start, p, t, k, i)
  {
    var front, s := Completes(start, p, k, k);
    var at := Standing(Completing, k, k, Sealed, Done);
    t := Finished(start, p, s, at);
    OneMore(start, front, s, Finish(p));
    run := front + [Do(Finish(p))];
    EveryRunKeepsInv(start, run, t);
    forall i | i in t.nodes
      ensures t.nodes[i].stage == Stable
    {
      assert Swapped(start, p, t, k, i);
      if i in start.nodes {
        NodeUsed(start, i);
      }
    }
  }

  /** A branch can be appended to any node of a database at rest. */
  lemma BranchRuns(start: State, p: Id) returns (run: seq<Event>, t: State)
    requires AtRest(start) && p in start.nodes
    ensures Reaches(start, run, t) && AtRest(t) && t.nsn == start.nsn + 1
    ensures var h := start.nodes[p].header;
            t.nodes == start.nodes[p := Node(Stable, Header(h.parent, h.branches + [t.nsn]))]
  {
    var b := start.nsn + 1;
    NodeUsed(start, p);
    var taken := Next(start, TakeNumber(p));
    t := Next(taken, AddBranch(p, b));
    OneMore(start, [], start, TakeNumber(p));
    OneMore(start, [] + [Do(TakeNumber(p))], taken, AddBranch(p, b));
    run := [] + [Do(TakeNumber(p))] + [Do(AddBranch(p, b))];
    EveryRunKeepsInv(start, run, t);
  }
}
