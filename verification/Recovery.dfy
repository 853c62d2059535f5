/**
 Recovery of a database directory, step by step: track every file, judge the tracked nodes, remove
 the leftovers and index the rest.
 */
module Recovery {
  import opened Compaction
  import opened Tracking
  import opened Validation
  import opened CrashSafety

  // ---------------------------------------------------------------- the order of the walk

  ghost predicate Falling(ids: seq<Id>) {
    forall j, k :: 0 <= j < k < |ids| ==> ids[k] < ids[j]
  }

  ghost function Elements(ids: seq<Id>): set<Id> {
    set i | i in ids
  }

  lemma {:induction false} HasHighest(ids: set<Id>)
    requires ids != {}
    ensures exists i :: i in ids && forall j :: j in ids ==> j <= i
  {
    var i :| i in ids;
    if ids != {i} {
      HasHighest(ids - {i});
      var h :| h in ids - {i} && forall j :: j in ids - {i} ==> j <= h;
      var top := if i < h then h else i;
      forall j | j in ids
        ensures j <= top
      {
        assert j == i || j in ids - {i};
      }
      assert top in ids;
    }
  }

  ghost predicate Listed(ids: set<Id>, order: seq<Id>, rest: set<Id>) {
    Falling(order) && Elements(order) + rest == ids && forall k, j :: 0 <= k < |order| && j in rest ==> j < order[k]
  }

  lemma ListNext(ids: set<Id>, order: seq<Id>, rest: set<Id>, i: Id)
    requires Listed(ids, order, rest) && i in rest && forall j :: j in rest ==> j <= i
    ensures Listed(ids, order + [i], rest - {i})
  {
  }

  method PickHighest(ids: set<Id>) returns (i: Id)
    requires ids != {}
    ensures i in ids && forall j :: j in ids ==> j <= i
  {
    HasHighest(ids);
    i :| i in ids && forall j :: j in ids ==> j <= i;
  }

  /** The ids of the tracked nodes from the highest down. */
  method FromHighest(ids: set<Id>) returns (order: seq<Id>)
    ensures Falling(order) && Elements(order) == ids
  {
    order := [];
    var rest := ids;
    while rest != {}
      invariant Listed(ids, order, rest)
      decreases |rest|
    {
      var i := PickHighest(rest);
      ListNext(ids, order, rest, i);
      order := order + [i];
      rest := rest - {i};
    }
  }

  lemma ElementsGrow(ids: seq<Id>, k: nat)
    requires k < |ids| && Falling(ids)
    ensures Elements(ids[..k + 1]) == Elements(ids[..k]) + {ids[k]}
    ensures ids[k] !in Elements(ids[..k])
    ensures forall c :: c in Elements(ids[..k]) ==> ids[k] < c
    ensures forall c :: c in Elements(ids) && ids[k] < c ==> c in Elements(ids[..k])
  {
  }

  lemma ElementsBack(ids: seq<Id>, k: nat)
    requires k < |ids|
    ensures Elements(ids[k..]) == Elements(ids[k + 1..]) + {ids[k]}
    ensures ids[k] in Elements(ids)
  {
  }

  class Repository {
    var dir: Directory
    var track: Track
    var nsn: Id
    var index: map<Id, Header>

    method TrackNumber(n: Id)
      modifies this`nsn
      ensures nsn == if old(nsn) < n then n else old(nsn)
    {
      if nsn < n {
        nsn := n;
      }
    }

    /** Raise `nsn` over every branch of an opened node. */
    method TrackMetrics(h: Header)
      modifies this`nsn
      ensures old(nsn) <= nsn && h.parent <= nsn && forall b :: b in h.branches ==> b <= nsn
      ensures nsn == old(nsn) || nsn == h.parent || nsn in h.branches
    {
      TrackNumber(h.parent);
      for k := 0 to |h.branches|
        invariant old(nsn) <= nsn && h.parent <= nsn && forall b :: b in h.branches[..k] ==> b <= nsn
        invariant nsn == old(nsn) || nsn == h.parent || nsn in h.branches
      {
        TrackNumber(h.branches[k]);
        assert h.branches[..k + 1] == h.branches[..k] + [h.branches[k]];
      }
      assert h.branches[..|h.branches|] == h.branches;
    }

    method TrackNumbers(f: File, h: Header)
      modifies this`nsn
      ensures old(nsn) <= nsn && (nsn == old(nsn) || Mentions(f, h, nsn))
      ensures forall n: Id :: Mentions(f, h, n) ==> n <= nsn
    {
      if !f.Db? {
        TrackNumber(f.parent);
      }
      TrackNumber(f.id);
      if !f.Incomplete? {
        TrackMetrics(h);
      }
    }

    /** Track one directory entry; incomplete files are removed at once. */
    method TrackFile(f: File, ghost seen: Directory) returns (ok: bool)
      requires f in dir && f !in seen
      modifies this`dir, this`track, this`nsn
      ensures Highest(seen, old(nsn)) ==> Highest(seen[f := old(dir[f])], nsn)
      ensures dir == if f.Incomplete? then old(dir) - {f} else old(dir)
      ensures Tracks(seen, old(track)) && Trackable(seen[f := old(dir[f])])
              ==> ok && Tracks(seen[f := old(dir[f])], track)
    {
      var h := dir[f];
      ghost var before := nsn;
      ghost var was := track;
      TrackNumbers(f, h);
      if Highest(seen, before) {
        HighestGrows(seen, before, f, h, nsn);
      }
      match f
      case Incomplete(p, i) =>
        track := Mark(track, p, true);
        dir := dir - {f};
        ok := true;
        if Tracks(seen, was) && Trackable(seen[f := h]) {
          MarkIncomplete(seen, was, f, h);
        }
      case Seal(p, i) =>
        track := Mark(track, p, false);
        ok := i !in track;
        track := track[i := Tracked(h, SEALED, At(f))];
        if Tracks(seen, was) && Trackable(seen[f := h]) {
          MarkSealed(seen, was, f, h);
        }
      case Db(i) =>
        ok := i in track ==> track[i].flags.undef;
        track := WithComplete(track, f, h);
        if Tracks(seen, was) && Trackable(seen[f := h]) {
          MarkComplete(seen, was, f, h);
        }
    }

    /** Track a whole directory, listed in any order. */
    method TrackDir(listing: seq<File>) returns (ok: bool)
      requires track == map[] && nsn == 0
      requires forall f :: f in listing <==> f in dir
      requires forall j, k :: 0 <= j < k < |listing| ==> listing[j] != listing[k]
      modifies this`dir, this`track, this`nsn
      ensures Trackable(old(dir)) ==> ok && Tracks(old(dir), track)
      ensures ok ==> Highest(old(dir), nsn)
      ensures ok ==> dir == Opened(old(dir))
    {
      ghost var seen: Directory := map[];
      ghost var all := dir;
      ok := true;
      assert Within(dir, all);
      for k := 0 to |listing|
        invariant ok
        invariant Midway(all, listing, k, dir, seen)
        invariant Highest(seen, nsn)
        invariant Trackable(all) ==> Tracks(seen, track)
      {
        var f := listing[k];
        MidwayStep(all, listing, k, dir, seen);
        ghost var grown := seen[f := dir[f]];
        if Trackable(all) {
          TrackableWithin(grown, all);
        }
        ok := TrackFile(f, seen);
        if !ok {
          return;
        }
        seen := grown;
      }
      MidwayEnd(all, listing, dir, seen);
    }

    /** Visit one tracked node. */
    method Judge(i: Id) returns (ok: bool)
      requires i in track && Holds(dir, track)
      requires track[i].flags == SEALED ==> track[i].location.At? && track[i].header.parent != i
      modifies this`dir, this`track
      ensures ok == Accepted(old(track[i].flags))
      ensures ok ==> track == Visit(old(track), i) && dir == Filed(old(dir), old(track), i)
      ensures !ok ==> track == old(track) && dir == old(dir)
    {
      var n := track[i];
      var p := n.header.parent;
      ok := true;
      if Sound(n.flags) {
        if p in track && p != i {
          track := track[p := Condemn(track[p])];
        }
      } else if n.flags == SEALED {
        if p in track {
          if track[p].flags.dbi {
            n := Condemn(n);
            track := track[i := n];
          } else {
            track := track[p := Condemn(track[p])];
          }
        }
        if !n.flags.remove {
          dir := Apply(dir, Rename(n.location.file, Db(i)));
          track := track[i := Tracked(n.header, RDB, At(Db(i)))];
        }
      } else {
        ok := false;
      }
    }

    /** Judge every tracked node. Fails exactly on a combination of files no compaction leaves. */
    method Validate() returns (ok: bool)
      requires Ordered(track) && Holds(dir, track)
      requires forall i :: i in track && track[i].flags == SEALED ==> track[i].location.At?
      modifies this`dir, this`track
      ensures ok <==> forall i :: i in old(track) ==> Acceptable(old(track), i)
      ensures ok ==> track.Keys == old(track).Keys && forall i :: i in track ==> track[i] == Verdict(old(track), i)
      ensures ok ==> Holds(dir, track)
      ensures old(dir) == map[] ==> dir == map[]
    {
      ghost var start := track;
      var order := FromHighest(track.Keys);
      ok := true;
      StartHalfWay(start);
      for k := 0 to |order|
        invariant ok && HalfWay(start, Elements(order[..k]), track) && Holds(dir, track)
        invariant forall i :: i in Elements(order[..k]) ==> Acceptable(start, i)
        invariant old(dir) == map[] ==> dir == map[]
      {
        var i := order[k];
        ghost var done := Elements(order[..k]);
        ElementsGrow(order, k);
        assert i in Elements(order);
        PendingFinal(start, done, i);
        FiledHolds(dir, track, i);
        ghost var now := track;
        ok := Judge(i);
        if !ok {
          return;
        }
        VisitKeeps(start, done, now, i);
      }
      assert order[..|order|] == order;
    }

    /** Remove what was condemned and index the rest. */
    method Complete()
      requires Holds(dir, track) && index == map[]
      modifies this`dir, this`index
      ensures Cleared(old(dir), track, track.Keys, dir, index)
    {
      var order := FromHighest(track.Keys);
      ghost var all := dir;
      var k := |order|;
      while 0 < k
        invariant 0 <= k <= |order|
        invariant Cleared(all, track, Elements(order[k..]), dir, index)
      {
        k := k - 1;
        var i := order[k];
        ghost var done, before := Elements(order[k + 1..]), dir;
        ElementsBack(order, k);
        if track[i].flags.remove {
          if track[i].location.At? {
            dir := dir - {track[i].location.file};
          }
          ClearedRemove(all, track, done, before, index, i, dir);
        } else {
          ClearedKeep(all, track, done, dir, index, i);
          index := index[i := track[i].header];
        }
      }
      assert order[0..] == order;
    }

    /** Track what a crash left. */
    method TrackCrash(listing: seq<File>, ghost s: State) returns (ok: bool)
      requires Inv(s) && Lists(dir, s.nodes) && track == map[] && nsn == 0
      requires forall f :: f in listing <==> f in dir
      requires forall j, k :: 0 <= j < k < |listing| ==> listing[j] != listing[k]
      modifies this`dir, this`track, this`nsn
      ensures ok && Entries(s, track) && Holds(dir, track)
      ensures Highest(old(dir), nsn)
    {
      ghost var all := dir;
      CrashTrackable(s, dir);
      ok := TrackDir(listing);
      CrashEntries(s, all, track);
      TracksHolds(all, track);
    }

    /** Judge what a crash left. */
    method JudgeCrash(ghost s: State) returns (ok: bool)
      requires Inv(s) && Entries(s, track) && Holds(dir, track)
      modifies this`dir, this`track
      ensures ok && Holds(dir, track) && forall i: Id :: Decided(s, track, i)
    {
      ghost var tracked := track;
      CrashOrdered(s, track);
      CrashAccepted(s, track);
      ok := Validate();
      CrashDecided(s, tracked, track);
    }

    /** Recover the directory a crash left: every compaction either took effect or did not happen. */
    method Recover(listing: seq<File>, ghost s: State) returns (ok: bool)
      requires Inv(s) && Lists(dir, s.nodes)
      requires track == map[] && nsn == 0 && index == map[]
      requires forall f :: f in listing <==> f in dir
      requires forall j, k :: 0 <= j < k < |listing| ==> listing[j] != listing[k]
      modifies this
      ensures ok && Lists(dir, Survivors(s)) && AtRest(State(Survivors(s), map[], map[], nsn))
      ensures index.Keys == Survivors(s).Keys && forall i :: i in index ==> index[i] == s.nodes[i].header
      ensures Highest(old(dir), nsn)
    {
      ok := TrackCrash(listing, s);
      CrashBounds(s, old(dir), nsn);
      SurvivorsAtRest(s, nsn);
      ok := JudgeCrash(s);
      ghost var judged := dir;
      Complete();
      CrashCleared(s, judged, track, dir, index);
    }

    /** Recover after any run, with any earlier crashes: every survivor is indexed with the parent it was made with and
        every branch ever appended to it. */
    method RecoverRun(listing: seq<File>, ghost start: State, ghost run: seq<Event>, ghost s: State) returns (ok: bool)
      requires AtRest(start) && Compaction.Reaches(start, run, s) && Lists(dir, s.nodes)
      requires track == map[] && nsn == 0 && index == map[]
      requires forall f :: f in listing <==> f in dir
      requires forall j, k :: 0 <= j < k < |listing| ==> listing[j] != listing[k]
      modifies this
      ensures ok && Lists(dir, Survivors(s)) && AtRest(State(Survivors(s), map[], map[], nsn))
      ensures index.Keys == Survivors(s).Keys && forall i :: i in index ==> index[i] == History(start, run, i)
    {
      EveryRunKeepsInv(start, run, s);
      ok := Recover(listing, s);
      forall i | i in index
        ensures index[i] == History(start, run, i)
      {
        EveryRunKeepsBranches(start, run, s, i);
      }
    }

    /** A crash in the first deployment, before the only node is complete: recovery refuses the directory,
        and leaves it empty for the next attempt. */
    method RecoverDeployment(f: File) returns (ok: bool)
      requires FirstFile(f) && dir.Keys == {f} && track == map[] && nsn == 0
      modifies this
      ensures !ok && dir == map[]
    {
      ghost var all := dir;
      DeploymentRefused(all, f);
      ok := TrackDir([f]);
      DeploymentTracked(all, f, track);
      ok := Validate();
    }
  }
}
