/**
 A plain list of due times, with no slots: what every timer of the wheel is meant to do.
 */
module TimerPlan {
  import opened TimerSlots

  // ---------------------------------------------------------------- one timer

  /** Call back for every instant that is due, in order. */
  function Fire(d: Due, limit: nat): Due
    requires 0 < d.interval
    decreases limit - d.next
  {
    if d.next <= limit then Fire(d.(next := d.next + d.interval, heard := d.heard + [d.next]), limit) else d
  }

  /** A tick ends at `now`. A timer due before `now` catches up with everything due up to `now`; one due
      at `now` exactly waits for the next tick unless the wheel has a single slot. */
  function Tick(d: Due, now: nat, slots: nat): Due
    requires 0 < d.interval
  {
    if d.next < now || slots == 1 then Fire(d, now) else d
  }

  /** All ticks that begin before `goal`. */
  function Run(d: Due, last: nat, goal: nat, tick: nat, slots: nat): Due
    requires 0 < d.interval && 0 < tick
    decreases goal - last
  {
    if last < goal then
      FireKeeps(d, last + tick);
      Run(Tick(d, last + tick, slots), last + tick, goal, tick, slots)
    else d
  }

  /** Where the clock stands after the ticks that begin before `goal`. */
  function Clock(last: nat, goal: nat, tick: nat): (r: nat)
    requires 0 < tick
    ensures last <= r && goal <= r && (last < goal ==> r < goal + tick)
    decreases goal - last
  {
    if last < goal then Clock(last + tick, goal, tick) else last
  }

  /** The `count` instants from `first` on. */
  function Instants(first: nat, interval: nat, count: nat): (r: seq<nat>)
    ensures |r| == count && forall k :: 0 <= k < count ==> r[k] == first + k * interval
  {
    seq(count, k requires 0 <= k => first + k * interval)
  }

  /** `late` is `early` after it heard `count` more instants of its progression, none missed or repeated. */
  ghost predicate Heard(early: Due, late: Due, count: nat) {
    && late.interval == early.interval
    && late.next == early.next + count * early.interval
    && late.heard == early.heard + Instants(early.next, early.interval, count)
  }

  /** The last of `count` instants. */
  function Latest(d: Due, count: nat): int {
    d.next + (count - 1) * d.interval
  }

  lemma Distribute(m: int, n: int, i: int)
    ensures (m + n) * i == m * i + n * i
  {
  }

  lemma InstantsJoin(first: nat, interval: nat, m: nat, n: nat)
    ensures Instants(first, interval, m) + Instants(first + m * interval, interval, n)
            == Instants(first, interval, m + n)
  {
  }

  lemma HeardThen(a: Due, b: Due, c: Due, m: nat, n: nat)
    requires Heard(a, b, m) && Heard(b, c, n)
    ensures Heard(a, c, m + n) && Latest(a, m + n) == Latest(b, n)
  {
    Distribute(m, n, a.interval);
    Distribute(m, n - 1, a.interval);
    InstantsJoin(a.next, a.interval, m, n);
  }

  lemma {:induction false} FireKeeps(d: Due, limit: nat)
    requires 0 < d.interval
    ensures Fire(d, limit).interval == d.interval && limit < Fire(d, limit).next
    ensures d.next <= Fire(d, limit).next
    decreases limit - d.next
  {
    if d.next <= limit {
      FireKeeps(d.(next := d.next + d.interval, heard := d.heard + [d.next]), limit);
    }
  }

  lemma {:induction false} FireHears(d: Due, limit: nat) returns (count: nat)
    requires 0 < d.interval
    ensures Heard(d, Fire(d, limit), count) && (0 < count ==> Latest(d, count) <= limit)
    decreases limit - d.next
  {
    if d.next <= limit {
      var e := d.(next := d.next + d.interval, heard := d.heard + [d.next]);
      assert Heard(d, e, 1);
      var more := FireHears(e, limit);
      HeardThen(d, e, Fire(e, limit), 1, more);
      count := 1 + more;
    } else {
      count := 0;
    }
  }

  lemma TickHears(d: Due, now: nat, slots: nat) returns (count: nat)
    requires 0 < d.interval
    ensures Heard(d, Tick(d, now, slots), count) && (0 < count ==> Latest(d, count) <= now)
    ensures now <= Tick(d, now, slots).next
  {
    if d.next < now || slots == 1 {
      FireKeeps(d, now);
      count := FireHears(d, now);
    } else {
      count := 0;
    }
  }

  /** Up to the clock every instant is heard once and in order; later ones are not heard yet. */
  lemma {:induction false} RunHears(d: Due, last: nat, goal: nat, tick: nat, slots: nat) returns (count: nat)
    requires 0 < d.interval && 0 < tick && last <= d.next
    ensures Heard(d, Run(d, last, goal, tick, slots), count)
    ensures Clock(last, goal, tick) <= Run(d, last, goal, tick, slots).next
    ensures 0 < count ==> last < goal && Latest(d, count) <= Clock(last, goal, tick)
    decreases goal - last
  {
    if last < goal {
      var now := last + tick;
      var e := Tick(d, now, slots);
      var first := TickHears(d, now, slots);
      var more := RunHears(e, now, goal, tick, slots);
      HeardThen(d, e, Run(e, now, goal, tick, slots), first, more);
      count := first + more;
    } else {
      count := 0;
    }
  }

  /** An update at `now` serves the ticks that begin before `now + tick`: nothing due by `now` is left
      over, and nothing due two ticks from `now` or later is heard. */
  lemma UpdateHears(d: Due, last: nat, now: nat, tick: nat, slots: nat) returns (count: nat)
    requires 0 < d.interval && 0 < tick && last <= d.next
    ensures Heard(d, Run(d, last, now + tick, tick, slots), count)
    ensures now < Run(d, last, now + tick, tick, slots).next
    ensures 0 < count ==> Latest(d, count) < now + 2 * tick
  {
    count := RunHears(d, last, now + tick, tick, slots);
  }
}
