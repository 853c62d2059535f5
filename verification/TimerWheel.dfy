/**
 A hashed timer wheel: `slots` lists of timers, one of which is served every `tick`. It does what the
 plain list of due times in `TimerPlan` does.
 */
module TimerWheel {
  import opened TimerSlots
  import opened TimerPlan
  import opened TimerTurns

  // ---------------------------------------------------------------- the wheel's invariant

  /** A queued timer as the turns of the wheel see it. */
  function ViewOf(t: Timer, current: nat, last: nat): View
    requires t.place.In?
  {
    View(t.due, t.place.slot, current, last)
  }

  ghost predicate OnTime(t: Timer, current: nat, last: nat, tick: nat, n: nat)
    requires 0 < tick && 0 < n
  {
    t.place.In? ==> 0 < t.due.interval && Punctual(ViewOf(t, current, last), tick, n)
  }

  ghost predicate AllOnTime(timers: map<Id, Timer>, current: nat, last: nat, tick: nat, n: nat)
    requires 0 < tick && 0 < n
  {
    forall id :: id in timers ==> OnTime(timers[id], current, last, tick, n)
  }

  /** A queued timer is in a slot and comes back after a while. */
  ghost predicate Repeating(t: Timer, n: nat) {
    t.place.In? ==> 0 < t.due.interval && t.place.slot < n
  }

  ghost predicate AllRepeating(timers: map<Id, Timer>, n: nat) {
    forall id :: id in timers ==> Repeating(timers[id], n)
  }

  /** While slot `served` is worked through, cells before `pos` are done and the rest is as it was:
      the timers this is not true of. */
  ghost function Misserved(before: map<Id, Timer>, timers: map<Id, Timer>, served: nat, pos: nat,
                           last: nat, tick: nat, n: nat): set<Id>
    requires 0 < tick && 0 < n && timers.Keys == before.Keys
  {
    set id | id in before && !ServingTimer(before[id], timers[id], served, pos, last, tick, n)
  }

  ghost predicate ServingTimer(was: Timer, now: Timer, served: nat, pos: nat, last: nat, tick: nat, n: nat)
    requires 0 < tick && 0 < n
  {
    Repeating(was, n) &&
    if was.place.In? && was.place.slot == served && was.place.pos < pos then
      && now.place.In?
      && (now.place.slot == served ==> now.place.pos == was.place.pos)
      && now.due == Fire(was.due, last + tick)
      && OnTime(now, (served + 1) % n, last + tick, tick, n)
    else now == was
  }

  /** What serving slot `served` does to a timer: one turn. */
  ghost predicate Served(was: Timer, t: Timer, served: nat, last: nat, tick: nat, n: nat)
    requires 0 < tick && served < n
  {
    Repeating(was, n) &&
    if was.place.Out? then t == was
    else t.place.In? && ViewOf(t, (served + 1) % n, last + tick) == TurnOf(ViewOf(was, served, last), tick, n)
  }

  ghost predicate AllServed(before: map<Id, Timer>, timers: map<Id, Timer>, served: nat, last: nat, tick: nat, n: nat)
    requires 0 < tick && served < n
  {
    timers.Keys == before.Keys && forall id :: id in before ==> Served(before[id], timers[id], served, last, tick, n)
  }

  lemma SlotDone(before: map<Id, Timer>, timers: map<Id, Timer>, served: nat, pos: nat, last: nat, tick: nat, n: nat)
    requires 0 < tick && served < n && timers.Keys == before.Keys
    requires Misserved(before, timers, served, pos, last, tick, n) == {}
    requires forall id :: id in before && before[id].place.In? && before[id].place.slot == served ==>
                            before[id].place.pos < pos
    ensures AllServed(before, timers, served, last, tick, n)
  {
    forall id | id in before
      ensures Served(before[id], timers[id], served, last, tick, n)
    {
      assert id !in Misserved(before, timers, served, pos, last, tick, n);
    }
  }

  lemma ServedRepeating(before: map<Id, Timer>, timers: map<Id, Timer>, served: nat, last: nat, tick: nat, n: nat)
    requires 0 < tick && served < n && AllServed(before, timers, served, last, tick, n)
    ensures AllRepeating(timers, n)
  {
    forall id | id in timers
      ensures Repeating(timers[id], n)
    {
      assert Served(before[id], timers[id], served, last, tick, n);
    }
  }

  /** Erasing and inserting keep the number of cells of the slot erased from, and in one slot the cell. */
  lemma SlotMoved(slots: seq<Slot>, s: nat, pos: nat, to: nat, id: Id)
    requires s < |slots| && to < |slots| && SlotValid(slots[s]) && SlotValid(slots[to])
    requires pos < |slots[s].cells| && slots[s].cells[pos] != Deleted
    ensures var erased := slots[s := Erase(slots[s], pos)];
            && SlotValid(erased[to])
            && |erased[to := Insert(erased[to], id)][s].cells| == |slots[s].cells|
            && (to == s ==> InsertAt(erased[to]) == pos)
  {
  }

  /** One timer was called back and put in the slot of its next due time; if that is the slot it
      came from, it is back in the same cell. */
  ghost predicate Reseated(timers: map<Id, Timer>, after: map<Id, Timer>, id: Id, current: nat, last: nat, tick: nat,
        n: nat)
    requires 0 < tick && 0 < n
  {
    && id in timers && id in after && timers[id].place.In? && 0 < timers[id].due.interval
    && after == timers[id := after[id]]
    && after[id].place.In?
    && (after[id].place.slot == timers[id].place.slot ==> after[id].place.pos == timers[id].place.pos)
    && after[id].due == Fire(timers[id].due, last)
    && OnTime(after[id], current, last, tick, n)
  }

  lemma ServeNext(before: map<Id, Timer>, timers: map<Id, Timer>, after: map<Id, Timer>, id: Id,
                  served: nat, pos: nat, last: nat, tick: nat, n: nat)
    requires 0 < tick && served < n && timers.Keys == before.Keys
    requires Misserved(before, timers, served, pos, last, tick, n) == {}
    requires id in timers && timers[id].place == In(served, pos)
    requires forall x :: x in timers && timers[x].place == In(served, pos) ==> x == id
    requires Reseated(timers, after, id, (served + 1) % n, last + tick, tick, n)
    ensures after.Keys == before.Keys && Misserved(before, after, served, pos + 1, last, tick, n) == {}
  {
  }

  lemma ServeSkip(before: map<Id, Timer>, timers: map<Id, Timer>, served: nat, pos: nat, last: nat, tick: nat, n: nat)
    requires 0 < tick && served < n && timers.Keys == before.Keys
    requires Misserved(before, timers, served, pos, last, tick, n) == {}
    requires forall x :: x in timers ==> timers[x].place != In(served, pos)
    ensures Misserved(before, timers, served, pos + 1, last, tick, n) == {}
  {
  }

  lemma OnlyTimerAt(slots: seq<Slot>, timers: map<Id, Timer>, s: nat, p: nat)
    requires Placed(slots, timers) && s < |slots| && p < |slots[s].cells|
    ensures forall x :: x in timers && timers[x].place == In(s, p) ==> slots[s].cells[p] == Holds(x)
    ensures slots[s].cells[p].Holds? ==>
              slots[s].cells[p].id in timers && timers[slots[s].cells[p].id].place == In(s, p)
  {
  }

  lemma PlacedBelow(slots: seq<Slot>, timers: map<Id, Timer>, s: nat)
    requires Placed(slots, timers) && s < |slots|
    ensures forall id :: id in timers && timers[id].place.In? && timers[id].place.slot == s
                         ==> timers[id].place.pos < |slots[s].cells|
  {
  }

  // ---------------------------------------------------------------- the wheel

  class Wheel {
    const n: nat
    const tick: nat
    var slots: seq<Slot>
    var timers: map<Id, Timer>
    var last: nat
    var current: nat

    ghost predicate Shaped()
      reads this
    {
      0 < tick && current < n && |slots| == n && Placed(slots, timers)
    }

    /** The slots and the timers agree, and every queued timer repeats; it may be in the wrong slot. */
    ghost predicate Kept()
      reads this
    {
      Shaped() && AllRepeating(timers, n)
    }

    ghost predicate Valid()
      reads this
    {
      Kept() && AllOnTime(timers, current, last, tick, n)
    }

    constructor (n: nat, tick: nat)
      requires 0 < n && 0 < tick
      ensures Valid() && this.n == n && this.tick == tick && timers == map[] && last == 0 && current == 0
    {
      this.n, this.tick := n, tick;
      slots := seq(n, _ => Slot([], []));
      timers, last, current := map[], 0, 0;
    }

    /** A timer object that is in no queue. */
    method NewTimer(id: Id)
      requires Kept() && id !in timers
      modifies this`timers
      ensures Kept() && (old(Valid()) ==> Valid())
      ensures timers == old(timers)[id := Timer(Due(0, 0, []), Out)]
    {
      timers := timers[id := Timer(Due(0, 0, []), Out)];
      forall x | x in timers
        ensures TimerValid(slots, x, timers[x].place)
      {
        if x != id {
          assert TimerValid(slots, x, old(timers)[x].place);
        }
      }
      forall s, p | 0 <= s < |slots| && 0 <= p < |slots[s].cells|
        ensures CellValid(timers, s, p, slots[s].cells[p])
      {
        assert CellValid(old(timers), s, p, slots[s].cells[p]);
      }
    }

    method Unlink(id: Id)
      requires Shaped() && id in timers
      modifies this`slots, this`timers
      ensures Shaped() && timers == old(timers)[id := old(timers)[id].(place := Out)]
      ensures var at := old(timers[id].place);
              if at.Out? then slots == old(slots)
              else TimerValid(old(slots), id, at) && SlotValid(old(slots)[at.slot])
                   && slots == old(slots)[at.slot := Erase(old(slots)[at.slot], at.pos)]
    {
      var at := timers[id].place;
      if at.In? {
        ErasePlaced(slots, timers, id);
        slots := slots[at.slot := Erase(slots[at.slot], at.pos)];
      }
      timers := timers[id := timers[id].(place := Out)];
    }

    method Link(id: Id, to: nat, due: Due)
      requires Shaped() && id in timers && timers[id].place.Out? && to < n
      modifies this`slots, this`timers
      ensures Shaped() && SlotValid(old(slots)[to])
      ensures slots == old(slots)[to := Insert(old(slots)[to], id)]
      ensures timers == old(timers)[id := Timer(due, In(to, InsertAt(old(slots)[to])))]
    {
      InsertPlaced(slots, timers, id, to, due);
      var pos := InsertAt(slots[to]);
      slots := slots[to := Insert(slots[to], id)];
      timers := timers[id := Timer(due, In(to, pos))];
    }

    method CancelTimer(id: Id)
      requires Kept() && id in timers
      modifies this`slots, this`timers
      ensures Kept() && (old(Valid()) ==> Valid())
      ensures timers == old(timers)[id := old(timers)[id].(place := Out)]
    {
      Unlink(id);
    }

    /** Take a timer out of its slot, if it is in one, and put it in another; if that is the same slot,
        it comes back to the same cell. */
    method Move(id: Id, to: nat, due: Due)
      requires Shaped() && id in timers && to < n
      modifies this`slots, this`timers
      ensures Shaped() && id in timers && timers == old(timers)[id := timers[id]]
      ensures timers[id].due == due && timers[id].place.In? && timers[id].place.slot == to
      ensures var at := old(timers[id].place);
              at.In? ==> at.slot < n && |slots[at.slot].cells| == |old(slots)[at.slot].cells|
                         && (to == at.slot ==> timers[id].place.pos == at.pos)
    {
      ghost var before, at := slots, timers[id].place;
      Unlink(id);
      if at.In? {
        SlotMoved(before, at.slot, at.pos, to, id);
      }
      Link(id, to, due);
    }

    method Reseat(id: Id, interval: nat, delay: int)
      requires Shaped() && id in timers && 0 < interval && 0 <= delay + interval
      modifies this`slots, this`timers
      ensures Shaped() && id in timers && timers == old(timers)[id := timers[id]]
      ensures timers[id].due == Due(interval, delay + interval + last, old(timers[id].due.heard))
      ensures timers[id].place.In? && OnTime(timers[id], current, last, tick, n)
      ensures var at := old(timers[id].place);
              at.In? ==> at.slot < n && |slots[at.slot].cells| == |old(slots)[at.slot].cells|
                         && (timers[id].place.slot == at.slot ==> timers[id].place.pos == at.pos)
    {
      var heard := timers[id].due.heard;
      var to := ToSlot(current, interval, delay, tick, n);
      ToSlotIsSlotFor(current, last, interval, delay, tick, n);
      Move(id, to, Due(interval, delay + interval + last, heard));
    }

    /** Queue a timer, out of whatever slot it was in. */
    method ScheduleTimer(id: Id, interval: nat, delay: int)
      requires Kept() && id in timers && 0 < interval && 0 <= delay + interval
      modifies this`slots, this`timers
      ensures Kept() && (old(Valid()) ==> Valid())
      ensures id in timers && timers == old(timers)[id := timers[id]]
      ensures timers[id].place.In? && OnTime(timers[id], current, last, tick, n)
      ensures timers[id].due == Due(interval, delay + interval + last, old(timers[id].due.heard))
    {
      Reseat(id, interval, delay);
    }

    /** Call back until the timer is due in the future. */
    method CatchUp(id: Id)
      requires Shaped() && id in timers && 0 < timers[id].due.interval
      modifies this`timers
      ensures Shaped()
      ensures timers == old(timers)[id := old(timers)[id].(due := Fire(old(timers)[id].due, last))]
    {
      ghost var was := timers;
      while timers[id].due.next <= last
        invariant id in timers && 0 < timers[id].due.interval
        invariant timers == was[id := was[id].(due := timers[id].due)]
        invariant Fire(timers[id].due, last) == Fire(was[id].due, last)
        invariant Shaped()
        decreases last - timers[id].due.next
      {
        var d := timers[id].due;
        SamePlaces(slots, timers, id, d.(next := d.next + d.interval, heard := d.heard + [d.next]));
        timers := timers[id := timers[id].(due := d.(next := d.next + d.interval, heard := d.heard + [d.next]))];
      }
    }

    /** Serve one timer of the slot being served: call back, then put it where it is due next. */
    method ServeTimer(id: Id)
      requires Shaped() && id in timers && timers[id].place.In? && 0 < timers[id].due.interval
      modifies this`slots, this`timers
      ensures Shaped() && Reseated(old(timers), timers, id, current, last, tick, n)
      ensures var s := old(timers[id].place.slot);
              s < n && |slots[s].cells| == |old(slots)[s].cells|
    {
      FireKeeps(timers[id].due, last);
      CatchUp(id);
      var d := timers[id].due;
      Reseat(id, d.interval, d.next - (d.interval + last));
    }

    method ServeCell(served: nat, pos: nat, ghost before: map<Id, Timer>)
      requires Shaped() && served < n && current == (served + 1) % n && tick <= last && pos < |slots[served].cells|
      requires timers.Keys == before.Keys && Misserved(before, timers, served, pos, last - tick, tick, n) == {}
      modifies this`slots, this`timers
      ensures Shaped() && |slots[served].cells| == |old(slots)[served].cells|
      ensures timers.Keys == before.Keys && Misserved(before, timers, served, pos + 1, last - tick, tick, n) == {}
    {
      OnlyTimerAt(slots, timers, served, pos);
      var cell := slots[served].cells[pos];
      if cell == Deleted {
        ServeSkip(before, timers, served, pos, last - tick, tick, n);
      } else {
        assert cell.id !in Misserved(before, timers, served, pos, last - tick, tick, n);
        ServeTimer(cell.id);
        ServeNext(before, old(timers), timers, cell.id, served, pos, last - tick, tick, n);
      }
    }

    /** Serve every timer of slot `served`, which the wheel has just left. */
    method ServeSlot(served: nat)
      requires Kept() && served < n && current == (served + 1) % n && tick <= last
      modifies this`slots, this`timers
      ensures Shaped() && AllServed(old(timers), timers, served, last - tick, tick, n)
    {
      ghost var before := timers;
      ghost var size := |slots[served].cells|;
      PlacedBelow(slots, timers, served);
      var pos := 0;
      while pos < |slots[served].cells|
        invariant Shaped() && pos <= size && |slots[served].cells| == size
        invariant timers.Keys == before.Keys && Misserved(before, timers, served, pos, last - tick, tick, n) == {}
        decreases size - pos
      {
        ServeCell(served, pos, before);
        pos := pos + 1;
      }
      SlotDone(before, timers, served, pos, last - tick, tick, n);
    }

    /** One turn of the wheel is one turn for every timer. */
    method Turn()
      requires Kept()
      modifies this`slots, this`timers, this`last, this`current
      ensures Kept() && last == old(last) + tick && current == (old(current) + 1) % n
      ensures AllServed(old(timers), timers, old(current), old(last), tick, n)
    {
      var served := current;
      current := (current + 1) % n;
      last := last + tick;
      ServeSlot(served);
      ServedRepeating(old(timers), timers, served, last - tick, tick, n);
    }

    /** All turns that begin before `goal`. */
    method RunTo(goal: nat)
      requires Kept()
      modifies this`slots, this`timers, this`last, this`current
      ensures Kept() && last == Clock(old(last), goal, tick)
      ensures AllTurned(old(timers), timers, old(current), old(last), current, last, goal, tick, n)
      ensures old(Valid()) ==> Valid() && AllRan(old(timers), timers, old(last), goal, tick, n)
    {
      ghost var start, before, first := last, timers, current;
      while last < goal
        invariant Kept() && timers.Keys == before.Keys && first < n
        invariant Clock(last, goal, tick) == Clock(start, goal, tick)
        invariant Strays(before, timers, first, start, current, last, goal, tick, n) == {}
        decreases goal - last
      {
        ghost var mid, c, l := timers, current, last;
        Turn();
        StraysNext(before, mid, timers, first, start, c, l, goal, tick, n);
      }
      StraysEnd(before, timers, first, start, current, last, goal, tick, n);
      TurnedRan(before, timers, first, start, current, last, goal, tick, n);
    }

    /** Every timer goes through the turns of the update. If all of them were on time, they do what the plain list
        of due times does, except that a first update leaves timers scheduled before it where they are. */
    method Update(now: nat)
      requires Kept()
      modifies this`slots, this`timers, this`last, this`current
      ensures Kept() && AllUpdated(old(timers), timers, old(current), old(last), current, last, now, tick, n)
      ensures var start := if old(last) == 0 then now else old(last);
              && last == Clock(start, now + tick, tick)
              && (old(Valid()) && (start == old(last) || AllOut(old(timers))) ==>
                    Valid() && AllRan(old(timers), timers, start, now + tick, tick, n))
    {
      if last == 0 {
        last := now;
      }
      ghost var start, first := last, current;
      RunTo(now + tick);
      TurnedUpdated(old(timers), timers, first, old(last), start, current, last, now, tick, n);
    }

    /** The event loop, which updates the wheel again and again. */
    method UpdateAll(times: seq<nat>)
      requires Kept()
      modifies this`slots, this`timers, this`last, this`current
      ensures Kept() && AllLooped(old(timers), timers, old(current), old(last), current, last, times, tick, n)
    {
      ghost var start, before, first := last, timers, current;
      var k := 0;
      while k < |times|
        invariant k <= |times| && Kept() && timers.Keys == before.Keys && first < n
        invariant Delayed(before, timers, first, start, current, last, times, k, tick, n) == {}
      {
        ghost var mid, c, l := timers, current, last;
        Update(times[k]);
        DelayedNext(before, mid, timers, first, start, c, l, current, last, times, k, tick, n);
        k := k + 1;
      }
      DelayedEnd(before, timers, first, start, current, last, times, tick, n);
    }
  }

  ghost predicate AllOut(timers: map<Id, Timer>) {
    forall id :: id in timers ==> timers[id].place.Out?
  }

  // ---------------------------------------------------------------- runs of turns

  /** A queued timer went through all turns that begin before `goal`; one in no queue was left alone. */
  ghost predicate Turned(was: Timer, t: Timer, first: nat, start: nat, current: nat, last: nat, goal: nat, tick: nat,
                         n: nat)
    requires 0 < tick && first < n
  {
    if was.place.Out? then t == was
    else t.place.In? && Sound(ViewOf(was, first, start), n)
         && ViewOf(t, current, last) == TurnsOf(ViewOf(was, first, start), goal, tick, n)
  }

  ghost predicate AllTurned(before: map<Id, Timer>, timers: map<Id, Timer>, first: nat, start: nat, current: nat,
                            last: nat, goal: nat, tick: nat, n: nat)
    requires 0 < tick && first < n
  {
    timers.Keys == before.Keys
    && forall id :: id in before ==> Turned(before[id], timers[id], first, start, current, last, goal, tick, n)
  }

  /** Part of the turns are done: what is left of them gives the same end. */
  ghost predicate Turning(was: Timer, t: Timer, first: nat, start: nat, current: nat, last: nat, goal: nat, tick: nat,
                          n: nat)
    requires 0 < tick && first < n
  {
    if was.place.Out? then t == was
    else t.place.In? && Sound(ViewOf(was, first, start), n) && Sound(ViewOf(t, current, last), n)
         && TurnsOf(ViewOf(t, current, last), goal, tick, n) == TurnsOf(ViewOf(was, first, start), goal, tick, n)
  }

  /** The timers that part of the turns have led astray. */
  ghost function Strays(before: map<Id, Timer>, timers: map<Id, Timer>, first: nat, start: nat, current: nat, last: nat,
                        goal: nat, tick: nat, n: nat): set<Id>
    requires 0 < tick && first < n && timers.Keys == before.Keys
  {
    set id | id in before && !Turning(before[id], timers[id], first, start, current, last, goal, tick, n)
  }

  lemma StraysNext(before: map<Id, Timer>, mid: map<Id, Timer>, timers: map<Id, Timer>, first: nat, start: nat,
                   current: nat, last: nat, goal: nat, tick: nat, n: nat)
    requires 0 < tick && first < n && current < n && last < goal && mid.Keys == before.Keys
    requires Strays(before, mid, first, start, current, last, goal, tick, n) == {}
    requires AllServed(mid, timers, current, last, tick, n)
    ensures timers.Keys == before.Keys
    ensures Strays(before, timers, first, start, (current + 1) % n, last + tick, goal, tick, n) == {}
  {
    forall id | id in before
      ensures Turning(before[id], timers[id], first, start, (current + 1) % n, last + tick, goal, tick, n)
    {
      assert id !in Strays(before, mid, first, start, current, last, goal, tick, n);
      assert Served(mid[id], timers[id], current, last, tick, n);
    }
  }

  lemma StraysEnd(before: map<Id, Timer>, timers: map<Id, Timer>, first: nat, start: nat, current: nat, last: nat,
                  goal: nat, tick: nat, n: nat)
    requires 0 < tick && first < n && goal <= last && timers.Keys == before.Keys
    requires Strays(before, timers, first, start, current, last, goal, tick, n) == {}
    ensures AllTurned(before, timers, first, start, current, last, goal, tick, n)
  {
    forall id | id in before
      ensures Turned(before[id], timers[id], first, start, current, last, goal, tick, n)
    {
      assert id !in Strays(before, timers, first, start, current, last, goal, tick, n);
    }
  }

  // ---------------------------------------------------------------- updates

  /** A queued timer went through an update; one in no queue was left alone. */
  ghost predicate Updated(was: Timer, t: Timer, first: nat, start: nat, current: nat, last: nat, now: nat, tick: nat,
                          n: nat)
    requires 0 < tick && first < n
  {
    if was.place.Out? then t == was
    else t.place.In? && Sound(ViewOf(was, first, start), n)
         && ViewOf(t, current, last) == UpdateOf(ViewOf(was, first, start), now, tick, n)
  }

  ghost predicate AllUpdated(before: map<Id, Timer>, timers: map<Id, Timer>, first: nat, start: nat, current: nat,
                             last: nat, now: nat, tick: nat, n: nat)
    requires 0 < tick && first < n
  {
    timers.Keys == before.Keys
    && forall id :: id in before ==> Updated(before[id], timers[id], first, start, current, last, now, tick, n)
  }

  lemma TurnedUpdated(before: map<Id, Timer>, timers: map<Id, Timer>, first: nat, clock: nat, start: nat, current: nat,
                      last: nat, now: nat, tick: nat, n: nat)
    requires 0 < tick && first < n && start == if clock == 0 then now else clock
    requires AllTurned(before, timers, first, start, current, last, now + tick, tick, n)
    ensures AllUpdated(before, timers, first, clock, current, last, now, tick, n)
  {
    forall id | id in before
      ensures Updated(before[id], timers[id], first, clock, current, last, now, tick, n)
    {
      assert Turned(before[id], timers[id], first, start, current, last, now + tick, tick, n);
    }
  }

  // ---------------------------------------------------------------- runs of updates

  /** A queued timer went through all updates; one in no queue was left alone. */
  ghost predicate Looped(was: Timer, t: Timer, first: nat, start: nat, current: nat, last: nat, times: seq<nat>,
                         tick: nat, n: nat)
    requires 0 < tick && first < n
  {
    if was.place.Out? then t == was
    else t.place.In? && Sound(ViewOf(was, first, start), n)
         && ViewOf(t, current, last) == UpdatesOf(ViewOf(was, first, start), times, tick, n)
  }

  ghost predicate AllLooped(before: map<Id, Timer>, timers: map<Id, Timer>, first: nat, start: nat, current: nat,
                            last: nat, times: seq<nat>, tick: nat, n: nat)
    requires 0 < tick && first < n
  {
    timers.Keys == before.Keys
    && forall id :: id in before ==> Looped(before[id], timers[id], first, start, current, last, times, tick, n)
  }

  /** The first `k` updates are done: those that are left give the same end. */
  ghost predicate Looping(was: Timer, t: Timer, first: nat, start: nat, current: nat, last: nat, times: seq<nat>,
                          k: nat, tick: nat, n: nat)
    requires 0 < tick && first < n && k <= |times|
  {
    if was.place.Out? then t == was
    else t.place.In? && Sound(ViewOf(was, first, start), n) && Sound(ViewOf(t, current, last), n)
         && UpdatesOf(ViewOf(t, current, last), times[k..], tick, n)
            == UpdatesOf(ViewOf(was, first, start), times, tick, n)
  }

  ghost function Delayed(before: map<Id, Timer>, timers: map<Id, Timer>, first: nat, start: nat, current: nat,
                         last: nat, times: seq<nat>, k: nat, tick: nat, n: nat): set<Id>
    requires 0 < tick && first < n && timers.Keys == before.Keys && k <= |times|
  {
    set id | id in before && !Looping(before[id], timers[id], first, start, current, last, times, k, tick, n)
  }

  lemma DelayedNext(before: map<Id, Timer>, mid: map<Id, Timer>, timers: map<Id, Timer>, first: nat, start: nat,
                    c: nat, l: nat, current: nat, last: nat, times: seq<nat>, k: nat, tick: nat, n: nat)
    requires 0 < tick && first < n && c < n && k < |times| && mid.Keys == before.Keys
    requires Delayed(before, mid, first, start, c, l, times, k, tick, n) == {}
    requires AllUpdated(mid, timers, c, l, current, last, times[k], tick, n)
    ensures timers.Keys == before.Keys
    ensures Delayed(before, timers, first, start, current, last, times, k + 1, tick, n) == {}
  {
    forall id | id in before
      ensures Looping(before[id], timers[id], first, start, current, last, times, k + 1, tick, n)
    {
      assert id !in Delayed(before, mid, first, start, c, l, times, k, tick, n);
      assert Updated(mid[id], timers[id], c, l, current, last, times[k], tick, n);
      assert times[k..][1..] == times[k + 1..];
    }
  }

  lemma DelayedEnd(before: map<Id, Timer>, timers: map<Id, Timer>, first: nat, start: nat, current: nat, last: nat,
                   times: seq<nat>, tick: nat, n: nat)
    requires 0 < tick && first < n && timers.Keys == before.Keys
    requires Delayed(before, timers, first, start, current, last, times, |times|, tick, n) == {}
    ensures AllLooped(before, timers, first, start, current, last, times, tick, n)
  {
    forall id | id in before
      ensures Looped(before[id], timers[id], first, start, current, last, times, tick, n)
    {
      assert id !in Delayed(before, timers, first, start, current, last, times, |times|, tick, n);
    }
  }

  // ---------------------------------------------------------------- the plain list of due times

  /** A queued timer went through its run; one in no queue was left alone. */
  ghost predicate Ran(was: Timer, now: Timer, start: nat, goal: nat, tick: nat, n: nat)
    requires 0 < tick
  {
    if was.place.Out? then now == was
    else now.place.In? && 0 < was.due.interval && now.due == Run(was.due, start, goal, tick, n)
  }

  ghost predicate AllRan(before: map<Id, Timer>, timers: map<Id, Timer>, start: nat, goal: nat, tick: nat, n: nat)
    requires 0 < tick
  {
    timers.Keys == before.Keys && forall id :: id in before ==> Ran(before[id], timers[id], start, goal, tick, n)
  }

  lemma TurnedRan(before: map<Id, Timer>, timers: map<Id, Timer>, first: nat, start: nat, current: nat, last: nat,
                  goal: nat, tick: nat, n: nat)
    requires 0 < tick && first < n && AllTurned(before, timers, first, start, current, last, goal, tick, n)
    ensures AllOnTime(before, first, start, tick, n) ==>
              AllOnTime(timers, current, last, tick, n) && AllRan(before, timers, start, goal, tick, n)
  {
    if AllOnTime(before, first, start, tick, n) {
      forall id | id in before
        ensures OnTime(timers[id], current, last, tick, n) && Ran(before[id], timers[id], start, goal, tick, n)
      {
        assert Turned(before[id], timers[id], first, start, current, last, goal, tick, n);
        assert OnTime(before[id], first, start, tick, n);
        if before[id].place.In? {
          PunctualTurns(ViewOf(before[id], first, start), goal, tick, n);
        }
      }
    }
  }

  lemma SamePlaces(slots: seq<Slot>, timers: map<Id, Timer>, id: Id, due: Due)
    requires Placed(slots, timers) && id in timers
    ensures Placed(slots, timers[id := timers[id].(due := due)])
  {
  }

  // ---------------------------------------------------------------- timers scheduled before the first update

  /** A timer scheduled on a wheel that has not been updated, as the wheel sees it. */
  function EarlyView(interval: nat, delay: int, tick: nat, n: nat): (v: View)
    requires 0 < n && 0 < tick && 0 < interval && 0 <= delay + interval
    ensures Sound(v, n) && v.last == 0
  {
    View(Due(interval, delay + interval, []), (delay + interval) / tick % n, 0, 0)
  }

  /** The timer's slot is the one served first, or it is served before the timer is late. */
  predicate InTime(interval: nat, delay: int, now: nat, tick: nat, n: nat)
    requires 0 < n && 0 < tick
  {
    var slot := (delay + interval) / tick % n;
    slot == 0 || now + (slot - 1) * tick < delay + interval
  }

  lemma InTimeIsEarlyEnough(interval: nat, delay: int, now: nat, tick: nat, n: nat)
    requires 0 < n && 0 < tick && 0 < interval && 0 <= delay + interval
    ensures EarlyEnough(EarlyView(interval, delay, tick, n), now, tick, n) <==> InTime(interval, delay, now, tick, n)
  {
  }

  method Early(n: nat, tick: nat, interval: nat, delay: int) returns (w: Wheel)
    requires 0 < n && 0 < tick && 0 < interval && 0 <= delay + interval
    ensures fresh(w) && w.Kept() && w.n == n && w.tick == tick && w.last == 0 && w.current == 0
    ensures 0 in w.timers && w.timers[0].place.In?
    ensures ViewOf(w.timers[0], 0, 0) == EarlyView(interval, delay, tick, n)
  {
    w := new Wheel(n, tick);
    w.NewTimer(0);
    w.ScheduleTimer(0, interval, delay);
  }

  method UpdateEarly(n: nat, tick: nat, interval: nat, delay: int, times: seq<nat>) returns (w: Wheel)
    requires 0 < n && 0 < tick && 0 < interval && 0 <= delay + interval
    ensures 0 in w.timers && w.timers[0].place.In?
    ensures w.timers[0].due == UpdatesOf(EarlyView(interval, delay, tick, n), times, tick, n).due
  {
    w := Early(n, tick, interval, delay);
    ghost var was := w.timers[0];
    w.UpdateAll(times);
    assert Looped(was, w.timers[0], 0, 0, w.current, w.last, times, tick, n);
  }

  /** A timer scheduled before the first update, at `now`, is not late after any of the updates if it is in time. */
  method EarlyInTime(n: nat, tick: nat, interval: nat, delay: int, now: nat, later: seq<nat>) returns (w: Wheel)
    requires 0 < n && 0 < tick && 0 < interval && 0 <= delay + interval && InTime(interval, delay, now, tick, n)
    ensures 0 in w.timers && w.timers[0].place.In?
    ensures (if later == [] then now else later[|later| - 1]) < w.timers[0].due.next
  {
    w := UpdateEarly(n, tick, interval, delay, [now] + later);
    InTimeIsEarlyEnough(interval, delay, now, tick, n);
    EarlyPrompt(EarlyView(interval, delay, tick, n), now, later, tick, n);
  }

  /** If it is not in time, it is overdue after a second update at its due time, or at the time of the first if that
      is later, and has not been called. */
  method LeftBehind(n: nat, tick: nat, interval: nat, delay: int, now: nat) returns (w: Wheel, time: nat)
    requires 0 < n && 0 < tick && 0 < interval && 0 <= delay + interval && !InTime(interval, delay, now, tick, n)
    ensures time == (if now <= delay + interval then delay + interval else now)
    ensures 0 in w.timers && w.timers[0].place.In? && w.timers[0].due == Due(interval, delay + interval, [])
    ensures w.timers[0].due == UpdatesOf(EarlyView(interval, delay, tick, n), [now] + [time], tick, n).due
  {
    time := if now <= delay + interval then delay + interval else now;
    w := UpdateEarly(n, tick, interval, delay, [now] + [time]);
    InTimeIsEarlyEnough(interval, delay, now, tick, n);
    EarlyWaits(EarlyView(interval, delay, tick, n), now, time, tick, n);
  }

  /** A timer due at 99 waits in slot 3, while updates at 98 and 99 serve slots 0 and 1. */
  method LeftBehindAtNinetyNine() returns (w: Wheel, time: nat)
    ensures time == 99 && 0 in w.timers && w.timers[0].place.In? && w.timers[0].due == Due(99, 99, [])
  {
    w, time := LeftBehind(4, 1, 99, 0, 98);
  }
}
