/**
 The first half of recovery: every file of the directory is tracked under its id, with flags that
 say which files of the id, and of its replacements, were found.
 */
module Tracking {
  import opened Compaction

  datatype Flags = Flags(rdb: bool, dbi: bool, seal: bool, undef: bool, remove: bool)

  datatype Location = Nowhere | At(file: File)

  datatype Tracked = Tracked(header: Header, flags: Flags, location: Location)

  type Track = map<Id, Tracked>

  const NO_HEADER := Header(0, [])
  const RDB := Flags(true, false, false, false, false)
  const SEALED := Flags(false, false, true, false, false)
  const UNDEF := Flags(false, false, false, true, false)

  // ---------------------------------------------------------------- what the directory says of an id

  ghost predicate HasIncompleteChild(dir: Directory, i: Id) {
    exists c :: Incomplete(i, c) in dir
  }

  ghost predicate HasSealedChild(dir: Directory, i: Id) {
    exists c :: Seal(i, c) in dir
  }

  ghost predicate IsSealed(dir: Directory, i: Id) {
    exists p :: Seal(p, i) in dir
  }

  ghost predicate Known(dir: Directory, i: Id) {
    Db(i) in dir || IsSealed(dir, i) || HasIncompleteChild(dir, i) || HasSealedChild(dir, i)
  }

  /** The entry an id must get, whatever the order its files are listed in. */
  ghost predicate Describes(dir: Directory, i: Id, t: Tracked) {
    if Db(i) in dir then
      t == Tracked(dir[Db(i)], Flags(true, HasIncompleteChild(dir, i), HasSealedChild(dir, i), false, false), At(Db(i)))
    else if IsSealed(dir, i) then
      t.location.At? && t.location.file.Seal? && t.location.file.id == i && t.location.file in dir
      && t == Tracked(dir[t.location.file], SEALED, t.location)
    else
      t == Tracked(NO_HEADER, Flags(false, HasIncompleteChild(dir, i), HasSealedChild(dir, i), true, false), Nowhere)
  }

  ghost predicate TracksId(dir: Directory, track: Track, i: Id) {
    if Known(dir, i) then i in track && Describes(dir, i, track[i]) else i !in track
  }

  ghost predicate Tracks(dir: Directory, track: Track) {
    forall i: Id :: TracksId(dir, track, i)
  }

  /** A sealed node has one file and no replacements of its own. */
  ghost predicate Trackable(dir: Directory) {
    forall p, i :: Seal(p, i) in dir ==>
      && Db(i) !in dir && !HasIncompleteChild(dir, i) && !HasSealedChild(dir, i)
      && forall q :: Seal(q, i) in dir ==> q == p
  }

  /** The tracked nodes and their flags are a function of the directory's contents. */
  lemma TrackUnique(dir: Directory, a: Track, b: Track)
    requires Trackable(dir) && Tracks(dir, a) && Tracks(dir, b)
    ensures a == b
  {
    forall i: Id
      ensures i in a <==> i in b
      ensures i in a ==> a[i] == b[i]
    {
      assert TracksId(dir, a, i) && TracksId(dir, b, i);
    }
  }

  lemma Grown(dir: Directory, f: File, h: Header, i: Id)
    ensures HasIncompleteChild(dir[f := h], i) <==> HasIncompleteChild(dir, i) || (f.Incomplete? && f.parent == i)
    ensures HasSealedChild(dir[f := h], i) <==> HasSealedChild(dir, i) || (f.Seal? && f.parent == i)
    ensures IsSealed(dir[f := h], i) <==> IsSealed(dir, i) || (f.Seal? && f.id == i)
  {
  }

  ghost predicate Within(a: Directory, b: Directory) {
    forall f :: f in a ==> f in b && a[f] == b[f]
  }

  lemma TrackableWithin(a: Directory, b: Directory)
    requires Within(a, b) && Trackable(b)
    ensures Trackable(a)
  {
  }

  // ---------------------------------------------------------------- reading one file

  function Mark(track: Track, i: Id, incomplete: bool): Track {
    var t := if i in track then track[i] else Tracked(NO_HEADER, UNDEF, Nowhere);
    track[i := t.(flags := if incomplete then t.flags.(dbi := true) else t.flags.(seal := true))]
  }

  lemma MarkIncomplete(seen: Directory, track: Track, f: File, h: Header)
    requires Tracks(seen, track) && f.Incomplete? && Trackable(seen[f := h])
    ensures Tracks(seen[f := h], Mark(track, f.parent, true))
  {
    var grown, marked := seen[f := h], Mark(track, f.parent, true);
    forall i: Id
      ensures TracksId(grown, marked, i)
    {
      assert TracksId(seen, track, i);
      Grown(seen, f, h, i);
    }
  }

  lemma MarkSealed(seen: Directory, track: Track, f: File, h: Header)
    requires Tracks(seen, track) && f.Seal? && Trackable(seen[f := h]) && f !in seen
    ensures f.id !in Mark(track, f.parent, false)
    ensures Tracks(seen[f := h], Mark(track, f.parent, false)[f.id := Tracked(h, SEALED, At(f))])
  {
    var grown, marked := seen[f := h], Mark(track, f.parent, false)[f.id := Tracked(h, SEALED, At(f))];
    assert f in grown;
    assert TracksId(seen, track, f.id);
    Grown(seen, f, h, f.id);
    forall i: Id
      ensures TracksId(grown, marked, i)
    {
      assert TracksId(seen, track, i);
      Grown(seen, f, h, i);
    }
  }

  /** The complete file of an id takes over the flags its replacements left. */
  function WithComplete(track: Track, f: File, h: Header): Track {
    var flags := if f.id in track then track[f.id].flags.(rdb := true, undef := false) else RDB;
    track[f.id := Tracked(h, flags, At(f))]
  }

  lemma MarkComplete(seen: Directory, track: Track, f: File, h: Header)
    requires Tracks(seen, track) && f.Db? && Trackable(seen[f := h]) && f !in seen
    ensures f.id in track ==> track[f.id].flags.undef
    ensures Tracks(seen[f := h], WithComplete(track, f, h))
  {
    var grown, after := seen[f := h], WithComplete(track, f, h);
    assert f in grown;
    assert TracksId(seen, track, f.id);
    Grown(seen, f, h, f.id);
    forall i: Id
      ensures TracksId(grown, after, i)
    {
      assert TracksId(seen, track, i);
      Grown(seen, f, h, i);
    }
  }

  // ---------------------------------------------------------------- the highest number seen

  /** The numbers recovery reads off a file: those in its name and, if it is opened, in its branches. */
  ghost predicate Mentions(f: File, h: Header, n: Id) {
    n == f.id || (!f.Db? && n == f.parent) || (!f.Incomplete? && (n == h.parent || n in h.branches))
  }

  ghost predicate Highest(dir: Directory, nsn: Id) {
    && (forall f, n: Id :: f in dir && Mentions(f, dir[f], n) ==> n <= nsn)
    && (nsn == 0 || exists f :: f in dir && Mentions(f, dir[f], nsn))
  }

  lemma HighestGrows(seen: Directory, before: Id, f: File, h: Header, after: Id)
    requires Highest(seen, before) && f !in seen
    requires before <= after && (after == before || Mentions(f, h, after))
    requires forall n: Id :: Mentions(f, h, n) ==> n <= after
    ensures Highest(seen[f := h], after)
  {
    var grown := seen[f := h];
    assert f in grown && grown[f] == h;
    if after == before != 0 {
      var g :| g in seen && Mentions(g, seen[g], before);
      assert g in grown && grown[g] == seen[g];
    }
  }

  // ---------------------------------------------------------------- the directory while it is read

  /** The directory once incomplete files are gone. */
  ghost function Opened(dir: Directory): Directory {
    map f | f in dir && !f.Incomplete? :: dir[f]
  }

  /** After `k` entries: `seen` are those entries, and of them only incomplete files have gone. */
  ghost predicate Midway(all: Directory, listing: seq<File>, k: nat, dir: Directory, seen: Directory)
    requires k <= |listing|
  {
    && Within(seen, all) && Within(dir, all)
    && (forall f :: f in seen <==> f in listing[..k])
    && (forall f :: f in all ==> (f in dir <==> !(f.Incomplete? && f in seen)))
  }

  lemma MidwayStep(all: Directory, listing: seq<File>, k: nat, dir: Directory, seen: Directory)
    requires k < |listing| && Midway(all, listing, k, dir, seen)
    requires listing[k] in all
    requires forall i, j :: 0 <= i < j < |listing| ==> listing[i] != listing[j]
    ensures var f := listing[k];
            f !in seen && f in dir && Within(seen[f := dir[f]], all)
            && Midway(all, listing, k + 1, if f.Incomplete? then dir - {f} else dir, seen[f := dir[f]])
  {
  }

  lemma MidwayEnd(all: Directory, listing: seq<File>, dir: Directory, seen: Directory)
    requires Midway(all, listing, |listing|, dir, seen)
    requires forall f :: f in listing <==> f in all
    ensures seen == all && dir == Opened(all)
  {
  }
}
