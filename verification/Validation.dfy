/**
 The second half of recovery: visiting the tracked ids from the highest down, decide which nodes are
 leftovers of a compaction that took effect and which of one that did not.
 */
module Validation {
  import opened Compaction
  import opened Tracking

  /** The flag combinations of a node whose recorded parent, if still tracked, is a leftover. */
  predicate Sound(f: Flags) {
    if f.rdb then !f.undef && (f.dbi && f.remove ==> f.seal)
    else f.undef && f.seal && !f.dbi
  }

  function Condemn(n: Tracked): Tracked {
    n.(flags := n.flags.(remove := true))
  }

  /** What the visit of one id does to the tracked nodes. */
  function Visit(track: Track, i: Id): Track
    requires i in track
  {
    var n := track[i];
    var p := n.header.parent;
    if n.flags == SEALED then
      if p in track && track[p].flags.dbi then track[i := Condemn(n)]
      else
        var completed := Tracked(n.header, RDB, At(Db(i)));
        if p in track then track[p := Condemn(track[p])][i := completed] else track[i := completed]
    else if Sound(n.flags) && p in track && p != i then track[p := Condemn(track[p])]
    else track
  }

  predicate Accepted(f: Flags) {
    f == SEALED || Sound(f)
  }

  // ---------------------------------------------------------------- what the whole walk decides

  /** `c` condemns the node it replaces: always when `c` is complete, and when `c` is only sealed
      just if no other replacement was left incomplete. */
  ghost predicate Condemns(track: Track, c: Id, i: Id) {
    c in track && i in track && c != i && track[c].header.parent == i
    && (track[c].flags == SEALED ==> !track[i].flags.dbi)
  }

  ghost predicate CondemnedBy(track: Track, who: set<Id>, i: Id) {
    exists c :: c in who && Condemns(track, c, i)
  }

  ghost predicate Condemned(track: Track, i: Id) {
    CondemnedBy(track, track.Keys, i)
  }

  ghost function Pending(track: Track, who: set<Id>, i: Id): Tracked
    requires i in track
  {
    track[i].(flags := track[i].flags.(remove := CondemnedBy(track, who, i)))
  }

  ghost function Verdict(track: Track, i: Id): Tracked
    requires i in track
  {
    var n := track[i];
    if n.flags != SEALED then Pending(track, track.Keys, i)
    else if n.header.parent in track && track[n.header.parent].flags.dbi then Condemn(n)
    else Tracked(n.header, RDB, At(Db(i)))
  }

  ghost predicate Acceptable(track: Track, i: Id)
    requires i in track
  {
    Accepted(Pending(track, track.Keys, i).flags)
  }

  /** Ids grow from a node to its replacements; nothing is condemned yet. */
  ghost predicate Ordered(track: Track) {
    forall i :: i in track ==>
      !track[i].flags.remove && (track[i].header.parent < i || (track[i].header.parent == i && track[i].flags.undef))
  }

  ghost predicate HalfWay(track: Track, done: set<Id>, now: Track) {
    && now.Keys == track.Keys
    && done <= track.Keys
    && forall i :: i in track ==> now[i] == if i in done then Verdict(track, i) else Pending(track, done, i)
  }

  /** Once every higher id is done, an id's flags are final. */
  lemma PendingFinal(track: Track, done: set<Id>, i: Id)
    requires Ordered(track) && i in track && done <= track.Keys
    requires forall c :: c in track && i < c ==> c in done
    ensures CondemnedBy(track, done, i) == Condemned(track, i)
  {
  }

  lemma PendingGrows(track: Track, done: set<Id>, i: Id, c: Id)
    requires i in track
    ensures CondemnedBy(track, done + {c}, i) == (CondemnedBy(track, done, i) || Condemns(track, c, i))
  {
  }

  lemma VisitKeeps(track: Track, done: set<Id>, now: Track, i: Id)
    requires Ordered(track) && HalfWay(track, done, now) && i in track && i !in done
    requires forall c :: c in track && i < c ==> c in done
    requires forall c :: c in done ==> i < c
    requires Acceptable(track, i)
    ensures HalfWay(track, done + {i}, Visit(now, i))
  {
    PendingFinal(track, done, i);
    var after, more := Visit(now, i), done + {i};
    forall j | j in track
      ensures after[j] == if j in more then Verdict(track, j) else Pending(track, more, j)
    {
      PendingGrows(track, done, j, i);
    }
  }

  lemma StartHalfWay(track: Track)
    requires Ordered(track)
    ensures HalfWay(track, {}, track)
  {
  }

  // ---------------------------------------------------------------- tracked nodes and their files

  /** Every file in the directory belongs to a tracked node, and every tracked file is there. */
  ghost predicate Holds(dir: Directory, track: Track) {
    && (forall f :: f in dir ==> f.id in track && track[f.id].location == At(f) && track[f.id].header == dir[f])
    && (forall i :: i in track && track[i].location.At? ==>
          track[i].location.file in dir && track[i].location.file.id == i)
  }

  /** The directory after the visit of one id: a sealed node that is not condemned is completed. */
  ghost function Filed(dir: Directory, track: Track, i: Id): Directory
    requires i in track
  {
    if track[i].flags == SEALED && track[i].location.At? && !Visit(track, i)[i].flags.remove
    then Apply(dir, Rename(track[i].location.file, Db(i)))
    else dir
  }

  lemma FiledHolds(dir: Directory, track: Track, i: Id)
    requires i in track && Holds(dir, track)
    requires track[i].flags == SEALED ==> track[i].location.At? && track[i].header.parent != i
    ensures Holds(Filed(dir, track, i), Visit(track, i))
  {
  }

  /** The files and nodes left once the condemned ones among `done` are gone. */
  ghost predicate Cleared(all: Directory, track: Track, done: set<Id>, dir: Directory, index: map<Id, Header>) {
    && (forall f :: f in dir <==> f in all && !(f.id in done && f.id in track && track[f.id].flags.remove))
    && (forall f :: f in dir ==> dir[f] == all[f])
    && (forall i :: i in index <==> i in done && i in track && !track[i].flags.remove)
    && (forall i :: i in index ==> index[i] == track[i].header)
  }

  /** A condemned node loses its file. */
  lemma ClearedRemove(all: Directory, track: Track, done: set<Id>, dir: Directory, index: map<Id, Header>, i: Id,
                      rest: Directory)
    requires Holds(all, track) && Cleared(all, track, done, dir, index) && i in track && track[i].flags.remove
    requires rest == if track[i].location.At? then dir - {track[i].location.file} else dir
    ensures Cleared(all, track, done + {i}, rest, index)
  {
  }

  /** Any other node is indexed. */
  lemma ClearedKeep(all: Directory, track: Track, done: set<Id>, dir: Directory, index: map<Id, Header>, i: Id)
    requires Cleared(all, track, done, dir, index) && i in track && !track[i].flags.remove
    ensures Cleared(all, track, done + {i}, dir, index[i := track[i].header])
  {
  }
}
