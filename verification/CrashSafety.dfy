/**
 What tracking and validation decide about the directory left by a crash at any point of any number
 of concurrent compactions.
 */
module CrashSafety {
  import opened Compaction
  import opened Tracking
  import opened Validation

  lemma CrashChildren(s: State, dir: Directory, i: Id)
    requires Lists(dir, s.nodes)
    ensures HasIncompleteChild(dir, i) <==> HasFresh(s, i)
    ensures HasSealedChild(dir, i) <==> HasSealed(s, i)
    ensures IsSealed(dir, i) <==> i in s.nodes && s.nodes[i].stage == Sealed
  {
    if HasIncompleteChild(dir, i) {
      var c :| Incomplete(i, c) in dir;
      assert ListsFile(dir, s.nodes, Incomplete(i, c));
    }
    if HasFresh(s, i) {
      var c :| c in s.nodes && s.nodes[c].stage == Fresh && s.nodes[c].header.parent == i;
      assert ListsFile(dir, s.nodes, Incomplete(i, c));
    }
    if HasSealedChild(dir, i) {
      var c :| Seal(i, c) in dir;
      assert ListsFile(dir, s.nodes, Seal(i, c));
    }
    if HasSealed(s, i) {
      var c :| c in s.nodes && s.nodes[c].stage == Sealed && s.nodes[c].header.parent == i;
      assert ListsFile(dir, s.nodes, Seal(i, c));
    }
    if IsSealed(dir, i) {
      var p :| Seal(p, i) in dir;
      assert ListsFile(dir, s.nodes, Seal(p, i));
    }
    if i in s.nodes && s.nodes[i].stage == Sealed {
      assert ListsFile(dir, s.nodes, Seal(s.nodes[i].header.parent, i));
    }
  }

  /** Only a node in compaction has replacements in flight. */
  lemma ReplacementsOfJobs(s: State, i: Id)
    requires Inv(s)
    ensures HasFresh(s, i) ==> i in s.jobs && s.jobs[i] != Completing
    ensures HasSealed(s, i) ==> i in s.jobs && s.jobs[i] != Building && 0 < i
  {
  }

  lemma CrashTrackable(s: State, dir: Directory)
    requires Inv(s) && Lists(dir, s.nodes)
    ensures Trackable(dir)
  {
    forall p, i | Seal(p, i) in dir
      ensures Db(i) !in dir && !HasIncompleteChild(dir, i) && !HasSealedChild(dir, i)
      ensures forall q :: Seal(q, i) in dir ==> q == p
    {
      assert ListsFile(dir, s.nodes, Seal(p, i)) && NodeInv(s, i);
      assert ListsFile(dir, s.nodes, Db(i));
      CrashChildren(s, dir, i);
      ReplacementsOfJobs(s, i);
      forall q | Seal(q, i) in dir
        ensures q == p
      {
        assert ListsFile(dir, s.nodes, Seal(q, i));
      }
    }
  }

  // ---------------------------------------------------------------- what is tracked after a crash

  ghost predicate EntryOf(s: State, track: Track, i: Id) {
    if i !in s.nodes then
      i in track ==> i in s.jobs && s.jobs[i] == Completing && HasSealed(s, i)
                     && track[i] == Tracked(NO_HEADER, Flags(false, false, true, true, false), Nowhere)
    else
      var n := s.nodes[i];
      match n.stage
      case Fresh => i !in track
      case Sealed => i in track && track[i] == Tracked(n.header, SEALED, At(Seal(n.header.parent, i)))
      case Old =>
        i in track
        && track[i] == Tracked(n.header, Flags(true, HasFresh(s, i), HasSealed(s, i), false, false), At(Db(i)))
      case _ => i in track && track[i] == Tracked(n.header, RDB, At(Db(i)))
  }

  ghost predicate Entries(s: State, track: Track) {
    forall i: Id :: EntryOf(s, track, i)
  }

  lemma CrashEntry(s: State, dir: Directory, track: Track, i: Id)
    requires Inv(s) && Lists(dir, s.nodes) && Tracks(dir, track)
    ensures EntryOf(s, track, i)
  {
    assert TracksId(dir, track, i);
    assert ListsFile(dir, s.nodes, Db(i));
    CrashChildren(s, dir, i);
    ReplacementsOfJobs(s, i);
    if i in s.nodes {
      assert NodeInv(s, i);
      if s.nodes[i].stage == Sealed {
        assert ListsFile(dir, s.nodes, track[i].location.file);
      }
    }
  }

  lemma CrashEntries(s: State, dir: Directory, track: Track)
    requires Inv(s) && Lists(dir, s.nodes) && Tracks(dir, track)
    ensures Entries(s, track)
  {
    forall i: Id
      ensures EntryOf(s, track, i)
    {
      CrashEntry(s, dir, track, i);
    }
  }

  lemma CrashOrdered(s: State, track: Track)
    requires Inv(s) && Entries(s, track)
    ensures Ordered(track)
    ensures forall i :: i in track && track[i].flags == SEALED ==> track[i].location.At?
  {
    forall i | i in track
      ensures !track[i].flags.remove && track[i].header.parent < i
      ensures track[i].flags == SEALED ==> track[i].location.At?
    {
      assert EntryOf(s, track, i);
      if i in s.nodes {
        assert NodeInv(s, i);
      }
    }
  }

  // ---------------------------------------------------------------- what validation decides

  /** A node is condemned only by replacements of its own compaction. */
  lemma WhoCondemns(s: State, track: Track, c: Id, i: Id)
    requires Inv(s) && Entries(s, track) && Condemns(track, c, i)
    ensures i in s.jobs && IsChild(s, i, c)
    ensures i in s.nodes ==> s.nodes[i].stage == Old && HasSealed(s, i) && !HasFresh(s, i)
  {
    assert EntryOf(s, track, c) && EntryOf(s, track, i);
    if c in s.nodes {
      assert NodeInv(s, c);
      if i in s.nodes {
        assert NodeInv(s, i);
      }
    }
  }

  lemma CrashCondemned(s: State, track: Track, i: Id)
    requires Inv(s) && Entries(s, track) && i in s.nodes && i in track
    ensures Condemned(track, i) <==> s.nodes[i].stage == Old && HasSealed(s, i) && !HasFresh(s, i)
  {
    if Condemned(track, i) {
      var c :| c in track.Keys && Condemns(track, c, i);
      WhoCondemns(s, track, c, i);
    }
    if s.nodes[i].stage == Old && HasSealed(s, i) && !HasFresh(s, i) {
      var c :| c in s.nodes && s.nodes[c].stage == Sealed && s.nodes[c].header.parent == i;
      assert EntryOf(s, track, c) && EntryOf(s, track, i) && NodeInv(s, c);
      assert c in track.Keys && Condemns(track, c, i);
    }
  }

  lemma CrashAcceptable(s: State, track: Track, i: Id)
    requires Inv(s) && Entries(s, track) && i in track
    ensures Acceptable(track, i)
  {
    assert EntryOf(s, track, i);
    if i in s.nodes {
      CrashCondemned(s, track, i);
    }
  }

  /** Validation keeps exactly the nodes that must survive the crash. */
  ghost predicate Decided(s: State, final: Track, i: Id) {
    if Survives(s, i) then
      i in final && final[i].header == s.nodes[i].header && !final[i].flags.remove && final[i].location == At(Db(i))
    else
      i in final ==> final[i].flags.remove
  }

  lemma CrashPlaceholder(s: State, track: Track, i: Id)
    requires Inv(s) && Entries(s, track) && i in track && i !in s.nodes && HasSealed(s, i)
    ensures Condemned(track, i)
  {
    assert EntryOf(s, track, i);
    var c :| c in s.nodes && s.nodes[c].stage == Sealed && s.nodes[c].header.parent == i;
    assert EntryOf(s, track, c);
    assert c in track.Keys && Condemns(track, c, i);
  }

  lemma CrashVerdict(s: State, track: Track, i: Id)
    requires Inv(s) && Entries(s, track) && i in track && i in s.nodes
    ensures Verdict(track, i).flags.remove <==> !Survives(s, i)
    ensures Survives(s, i) ==> Verdict(track, i).header == s.nodes[i].header && Verdict(track, i).location == At(Db(i))
  {
    assert EntryOf(s, track, i) && NodeInv(s, i);
    CrashCondemned(s, track, i);
    var p := s.nodes[i].header.parent;
    assert EntryOf(s, track, p);
    ReplacementsOfJobs(s, p);
    if p in s.nodes {
      assert NodeInv(s, p);
    }
  }

  lemma CrashAccepted(s: State, track: Track)
    requires Inv(s) && Entries(s, track)
    ensures forall i :: i in track ==> Acceptable(track, i)
  {
    forall i | i in track
      ensures Acceptable(track, i)
    {
      CrashAcceptable(s, track, i);
    }
  }

  lemma CrashDecided(s: State, track: Track, final: Track)
    requires Inv(s) && Entries(s, track) && final.Keys == track.Keys
    requires forall i :: i in final ==> final[i] == Verdict(track, i)
    ensures forall i: Id :: Decided(s, final, i)
  {
    forall i: Id
      ensures Decided(s, final, i)
    {
      assert EntryOf(s, track, i);
      if i in track {
        if i in s.nodes {
          CrashVerdict(s, track, i);
        } else {
          CrashPlaceholder(s, track, i);
        }
      }
    }
  }

  // ---------------------------------------------------------------- the directory recovery leaves

  lemma TracksHolds(dir: Directory, track: Track)
    requires Trackable(dir) && Tracks(dir, track)
    ensures Holds(Opened(dir), track)
  {
    forall f | f in Opened(dir)
      ensures f.id in track && track[f.id].location == At(f) && track[f.id].header == dir[f]
    {
      assert TracksId(dir, track, f.id);
    }
    forall i | i in track && track[i].location.At?
      ensures track[i].location.file in Opened(dir) && track[i].location.file.id == i
    {
      assert TracksId(dir, track, i);
    }
  }

  lemma CrashBounds(s: State, dir: Directory, nsn: Id)
    requires Inv(s) && Lists(dir, s.nodes) && Highest(dir, nsn)
    ensures Bounds(Survivors(s), nsn)
  {
    forall i | i in Survivors(s)
      ensures Numbered(i, s.nodes[i].header, nsn)
    {
      var f := FileOf(i, s.nodes[i]);
      assert ListsFile(dir, s.nodes, f) && NodeInv(s, i);
      assert Mentions(f, dir[f], i);
      forall b | b in s.nodes[i].header.branches
        ensures b <= nsn
      {
        assert Mentions(f, dir[f], b);
      }
    }
  }

  lemma CrashCleared(s: State, all: Directory, final: Track, dir: Directory, index: map<Id, Header>)
    requires Holds(all, final) && Cleared(all, final, final.Keys, dir, index)
    requires forall i: Id :: Decided(s, final, i)
    ensures Lists(dir, Survivors(s))
    ensures index.Keys == Survivors(s).Keys && forall i :: i in index ==> index[i] == s.nodes[i].header
  {
    forall f: File
      ensures ListsFile(dir, Survivors(s), f)
    {
      assert Decided(s, final, f.id);
    }
    forall i: Id
      ensures i in index <==> i in Survivors(s)
      ensures i in index ==> index[i] == s.nodes[i].header
    {
      assert Decided(s, final, i);
    }
  }

  // ---------------------------------------------------------------- what recovery refuses

  /** An id that only its replacements name: it has no file of its own. */
  ghost predicate OnlyNamed(dir: Directory, i: Id) {
    Db(i) !in dir && !IsSealed(dir, i) && (HasIncompleteChild(dir, i) || HasSealedChild(dir, i))
  }

  ghost predicate CompleteHeir(dir: Directory, c: Id, i: Id) {
    c != i && Db(c) in dir && dir[Db(c)].parent == i
  }

  ghost predicate SealedHeir(dir: Directory, p: Id, c: Id, i: Id) {
    c != i && Seal(p, c) in dir && dir[Seal(p, c)].parent == i
  }

  /** The headers in the directory say that `i` has been replaced: a complete node records it as its parent, or a
      sealed one does and no replacement of it is incomplete. An id that has no file counts as recording parent 0. */
  ghost predicate Replaced(dir: Directory, i: Id) {
    || (exists c :: CompleteHeir(dir, c, i))
    || (!HasIncompleteChild(dir, i) && exists p, c :: SealedHeir(dir, p, c, i))
    || (i == 0 && exists c :: c != 0 && OnlyNamed(dir, c))
  }

  lemma CondemnsExactly(dir: Directory, track: Track, c: Id, i: Id)
    requires Trackable(dir) && Tracks(dir, track) && i in track
    ensures Condemns(track, c, i) <==>
            || CompleteHeir(dir, c, i)
            || (!HasIncompleteChild(dir, i) && exists p :: SealedHeir(dir, p, c, i))
            || (i == 0 && c != 0 && OnlyNamed(dir, c))
  {
    assert TracksId(dir, track, c) && TracksId(dir, track, i);
    if c in track && Db(c) !in dir && IsSealed(dir, c) {
      var f := track[c].location.file;
      assert f == Seal(f.parent, c) && dir[f] == track[c].header;
      forall p | SealedHeir(dir, p, c, i)
        ensures p == f.parent
      {
      }
      assert SealedHeir(dir, f.parent, c, i) <==> c != i && track[c].header.parent == i;
    }
  }

  lemma CondemnedExactly(dir: Directory, track: Track, i: Id)
    requires Trackable(dir) && Tracks(dir, track) && i in track
    ensures Condemned(track, i) <==> Replaced(dir, i)
  {
    if Condemned(track, i) {
      var c :| c in track.Keys && Condemns(track, c, i);
      CondemnsExactly(dir, track, c, i);
    }
    if Replaced(dir, i) {
      var c := HeirOf(dir, i);
      CondemnsExactly(dir, track, c, i);
      assert c in track.Keys;
    }
  }

  lemma HeirOf(dir: Directory, i: Id) returns (c: Id)
    requires Replaced(dir, i)
    ensures || CompleteHeir(dir, c, i)
            || (!HasIncompleteChild(dir, i) && exists p :: SealedHeir(dir, p, c, i))
            || (i == 0 && c != 0 && OnlyNamed(dir, c))
  {
    if c' :| CompleteHeir(dir, c', i) {
      c := c';
    } else if p, c' :| !HasIncompleteChild(dir, i) && SealedHeir(dir, p, c', i) {
      c := c';
    } else {
      c :| c != 0 && OnlyNamed(dir, c);
    }
  }

  /** Which directories recovery refuses, by their files: those with an incomplete replacement of a node that has no
      file, or of a complete node that was replaced, without a sealed one, and those with a sealed node that was
      replaced itself. */
  lemma RefusedExactly(dir: Directory, track: Track, i: Id)
    requires Trackable(dir) && Tracks(dir, track) && i in track
    ensures Acceptable(track, i) <==>
              if Db(i) in dir then HasIncompleteChild(dir, i) && Replaced(dir, i) ==> HasSealedChild(dir, i)
              else if IsSealed(dir, i) then !Replaced(dir, i)
              else !HasIncompleteChild(dir, i)
  {
    assert TracksId(dir, track, i);
    CondemnedExactly(dir, track, i);
  }

  /** The file of the first deployment: its number comes from a sequence that all databases share. */
  ghost predicate FirstFile(f: File) {
    f.Incomplete? && f.parent == 0 && f.id != 0
  }

  lemma DeploymentRefused(dir: Directory, f: File)
    requires FirstFile(f) && dir.Keys == {f}
    ensures Trackable(dir) && Opened(dir) == map[]
    ensures HasIncompleteChild(dir, 0) && !HasSealedChild(dir, 0) && !IsSealed(dir, 0) && Db(0) !in dir
  {
    assert Incomplete(0, f.id) in dir;
  }

  lemma DeploymentTracked(dir: Directory, f: File, track: Track)
    requires FirstFile(f) && dir.Keys == {f} && Tracks(dir, track)
    ensures 0 in track && !Acceptable(track, 0) && Ordered(track) && Holds(map[], track)
    ensures forall i :: i in track ==> track[i].flags != SEALED
  {
    DeploymentRefused(dir, f);
    assert TracksId(dir, track, 0);
    RefusedExactly(dir, track, 0);
    forall i: Id | i in track
      ensures i == 0
    {
      assert TracksId(dir, track, i);
    }
  }
}
