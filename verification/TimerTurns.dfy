/**
 One timer as the turns of a hashed wheel see it: its due times, its slot, the slot the wheel serves next
 and the wheel's clock.
 */
module TimerTurns {
  import opened TimerSlots
  import opened TimerPlan
  import opened Arithmetic

  // ---------------------------------------------------------------- slot arithmetic

  /** The slot that is served at the tick a timer is due in. */
  function SlotFor(current: nat, last: nat, next: nat, tick: nat, n: nat): nat
    requires 0 < tick && 0 < n && last <= next
  {
    (current + (next - last) / tick) % n
  }

  /** The wheel adds a full circle before dividing, so that the dividend is not negative. */
  function ToSlot(current: nat, interval: nat, delay: int, tick: nat, n: nat): nat
    requires 0 < tick && 0 < n
  {
    (current + (delay + n * tick + interval) / tick) % n
  }

  lemma ToSlotIsSlotFor(current: nat, last: nat, interval: nat, delay: int, tick: nat, n: nat)
    requires 0 < tick && 0 < n && 0 <= delay + interval
    ensures ToSlot(current, interval, delay, tick, n) == SlotFor(current, last, delay + interval + last, tick, n) < n
  {
    var q := (delay + interval) / tick;
    DivideShifted(delay + interval, n, tick);
    RemainderShifted(current + q, 1, n);
  }

  lemma NextSlot(c: nat, n: nat)
    requires c < n
    ensures (c + 1) % n == if c + 1 == n then 0 else c + 1
  {
  }

  lemma CarrySlot(c: nat, q: nat, n: nat)
    requires c < n && 1 <= q
    ensures ((c + 1) % n + (q - 1)) % n == (c + q) % n
  {
    NextSlot(c, n);
    if c + 1 == n {
      RemainderShifted(q - 1, 1, n);
    }
  }

  /** A timer outside the slot being served stays where the advanced wheel expects it. */
  lemma SlotMissed(current: nat, last: nat, next: nat, tick: nat, n: nat)
    requires 0 < tick && current < n && last <= next && SlotFor(current, last, next, tick, n) != current
    ensures last + tick <= next && n != 1
    ensures SlotFor((current + 1) % n, last + tick, next, tick, n) == SlotFor(current, last, next, tick, n)
  {
    var q := (next - last) / tick;
    assert q != 0 && n != 1 by {
      DivideUnique(current, n, 0, current);
    }
    assert last + tick <= next by {
      QuotientAtLeast(next - last, tick, 1);
    }
    assert (next - (last + tick)) / tick == q - 1 by {
      DivideShifted(next - last, -1, tick);
    }
    CarrySlot(current, q, n);
  }

  /** In the slot being served, whatever is due within the tick fires and nothing else does. */
  lemma SlotHit(current: nat, last: nat, d: Due, tick: nat, n: nat)
    requires 0 < tick && current < n && last <= d.next && 0 < d.interval
    requires SlotFor(current, last, d.next, tick, n) == current
    ensures Tick(d, last + tick, n) == Fire(d, last + tick)
  {
  }

  // ---------------------------------------------------------------- turns and updates

  datatype View = View(due: Due, slot: nat, current: nat, last: nat)

  ghost predicate Sound(v: View, n: nat) {
    0 < v.due.interval && v.current < n && v.slot < n
  }

  /** The timer is in the slot that is served at the tick it is due in. */
  ghost predicate Punctual(v: View, tick: nat, n: nat)
    requires 0 < tick && 0 < n
  {
    v.last <= v.due.next && v.slot == SlotFor(v.current, v.last, v.due.next, tick, n)
  }

  /** One turn: the timer in the slot being served hears everything due and goes where it is due next. */
  function TurnOf(v: View, tick: nat, n: nat): (r: View)
    requires 0 < tick && Sound(v, n)
    ensures Sound(r, n) && r.last == v.last + tick && r.current == (v.current + 1) % n
  {
    var current, last := (v.current + 1) % n, v.last + tick;
    if v.slot == v.current then
      FireKeeps(v.due, last);
      var due := Fire(v.due, last);
      View(due, SlotFor(current, last, due.next, tick, n), current, last)
    else View(v.due, v.slot, current, last)
  }

  /** All turns that begin before `goal`. */
  function TurnsOf(v: View, goal: nat, tick: nat, n: nat): (r: View)
    requires 0 < tick && Sound(v, n)
    ensures Sound(r, n) && r.last == Clock(v.last, goal, tick)
    decreases goal - v.last
  {
    if v.last < goal then TurnsOf(TurnOf(v, tick, n), goal, tick, n) else v
  }

  /** The first update sets the clock without moving any timer. */
  function UpdateOf(v: View, now: nat, tick: nat, n: nat): (r: View)
    requires 0 < tick && Sound(v, n)
    ensures Sound(r, n) && now + tick <= r.last
  {
    TurnsOf(if v.last == 0 then v.(last := now) else v, now + tick, tick, n)
  }

  /** A run of updates. */
  function UpdatesOf(v: View, times: seq<nat>, tick: nat, n: nat): (r: View)
    requires 0 < tick && Sound(v, n)
    ensures Sound(r, n)
    decreases |times|
  {
    if times == [] then v else UpdatesOf(UpdateOf(v, times[0], tick, n), times[1..], tick, n)
  }

  /** After the last of these updates nothing due by then is left over. */
  ghost predicate Prompt(v: View, times: seq<nat>, tick: nat, n: nat)
    requires 0 < tick && Sound(v, n) && times != []
  {
    times[|times| - 1] < UpdatesOf(v, times, tick, n).due.next
  }

  // ---------------------------------------------------------------- a timer in the right slot

  lemma PunctualTurn(v: View, tick: nat, n: nat)
    requires 0 < tick && Sound(v, n) && Punctual(v, tick, n)
    ensures Punctual(TurnOf(v, tick, n), tick, n) && TurnOf(v, tick, n).due == Tick(v.due, v.last + tick, n)
  {
    if v.slot == v.current {
      FireKeeps(v.due, v.last + tick);
      SlotHit(v.current, v.last, v.due, tick, n);
    } else {
      SlotMissed(v.current, v.last, v.due.next, tick, n);
    }
  }

  /** A timer in the right slot goes through what the plain list of due times says, and stays in the right slot. */
  lemma {:induction false} PunctualTurns(v: View, goal: nat, tick: nat, n: nat)
    requires 0 < tick && Sound(v, n) && Punctual(v, tick, n)
    ensures Punctual(TurnsOf(v, goal, tick, n), tick, n)
    ensures TurnsOf(v, goal, tick, n).due == Run(v.due, v.last, goal, tick, n)
    decreases goal - v.last
  {
    if v.last < goal {
      PunctualTurn(v, tick, n);
      PunctualTurns(TurnOf(v, tick, n), goal, tick, n);
    }
  }

  // ---------------------------------------------------------------- a timer in any slot

  /** The turns that pass before the timer's slot is served. */
  function Ahead(v: View, n: nat): nat
    requires v.current < n && v.slot < n
  {
    if v.current <= v.slot then v.slot - v.current else v.slot + n - v.current
  }

  lemma AheadTurn(v: View, tick: nat, n: nat)
    requires 0 < tick && Sound(v, n) && v.slot != v.current
    ensures Ahead(TurnOf(v, tick, n), n) == Ahead(v, n) - 1
  {
    NextSlot(v.current, n);
  }

  /** The slot is served before the clock passes the due time by a tick. */
  ghost predicate Safe(v: View, tick: nat, n: nat)
    requires v.current < n && v.slot < n
  {
    v.last + Ahead(v, n) * tick < v.due.next + tick
  }

  lemma PunctualSafe(v: View, tick: nat, n: nat)
    requires 0 < tick && Sound(v, n) && Punctual(v, tick, n)
    ensures Safe(v, tick, n)
    decreases v.due.next - v.last
  {
    if v.slot != v.current {
      SlotMissed(v.current, v.last, v.due.next, tick, n);
      AheadTurn(v, tick, n);
      PunctualSafe(TurnOf(v, tick, n), tick, n);
      TickLess(Ahead(v, n), tick);
    }
  }

  lemma TickLess(k: int, tick: nat)
    ensures (k - 1) * tick == k * tick - tick
  {
  }

  lemma SafeTurn(v: View, tick: nat, n: nat)
    requires 0 < tick && Sound(v, n) && Safe(v, tick, n)
    ensures Safe(TurnOf(v, tick, n), tick, n)
  {
    if v.slot == v.current {
      FireKeeps(v.due, v.last + tick);
      PunctualSafe(TurnOf(v, tick, n), tick, n);
    } else {
      AheadTurn(v, tick, n);
      TickLess(Ahead(v, n), tick);
    }
  }

  lemma {:induction false} SafeTurns(v: View, goal: nat, tick: nat, n: nat)
    requires 0 < tick && Sound(v, n) && Safe(v, tick, n)
    ensures Safe(TurnsOf(v, goal, tick, n), tick, n)
    decreases goal - v.last
  {
    if v.last < goal {
      SafeTurn(v, tick, n);
      SafeTurns(TurnOf(v, tick, n), goal, tick, n);
    }
  }

  /** No turn before the timer's slot is served touches it. */
  lemma {:induction false} TurnsWait(v: View, goal: nat, tick: nat, n: nat)
    requires 0 < tick && Sound(v, n) && goal <= v.last + Ahead(v, n) * tick
    ensures TurnsOf(v, goal, tick, n).due == v.due
    decreases goal - v.last
  {
    if v.last < goal {
      AheadTurn(v, tick, n);
      TickLess(Ahead(v, n), tick);
      TurnsWait(TurnOf(v, tick, n), goal, tick, n);
    }
  }

  lemma UpdatesThen(v: View, now: nat, later: seq<nat>, tick: nat, n: nat)
    requires 0 < tick && Sound(v, n)
    ensures UpdatesOf(v, [now] + later, tick, n) == UpdatesOf(UpdateOf(v, now, tick, n), later, tick, n)
  {
    assert ([now] + later)[1..] == later;
  }

  lemma {:induction false} SafeUpdates(v: View, times: seq<nat>, tick: nat, n: nat)
    requires 0 < tick && Sound(v, n) && 0 < v.last && Safe(v, tick, n)
    ensures times != [] ==> Prompt(v, times, tick, n)
    decreases |times|
  {
    if times != [] {
      var r := UpdateOf(v, times[0], tick, n);
      SafeTurns(v, times[0] + tick, tick, n);
      SafeUpdates(r, times[1..], tick, n);
      if times[1..] == [] {
        SafePrompt(r, times[0], tick, n);
      } else {
        assert Prompt(r, times[1..], tick, n);
      }
    }
  }

  lemma SafePrompt(v: View, now: nat, tick: nat, n: nat)
    requires 0 < tick && Sound(v, n) && Safe(v, tick, n) && now + tick <= v.last
    ensures now < v.due.next
  {
    assert 0 <= Ahead(v, n) * tick;
  }

  /** A timer that is not safe is late after an update that does not go back in time. */
  lemma UnsafeLate(v: View, now: nat, tick: nat, n: nat)
    requires 0 < tick <= v.last && Sound(v, n) && !Safe(v, tick, n)
    requires now == if v.last - tick <= v.due.next then v.due.next else v.last - tick
    ensures UpdatesOf(v, [now], tick, n).due == v.due && !Prompt(v, [now], tick, n)
  {
    assert 0 <= Ahead(v, n) * tick;
    TurnsWait(v, now + tick, tick, n);
    UpdatesThen(v, now, [], tick, n);
    assert [now] + [] == [now];
  }

  /** Once the wheel has been updated, it is never late with a timer, whatever updates follow, just if the timer
      is safe. */
  lemma NeverLate(v: View, tick: nat, n: nat)
    requires 0 < tick <= v.last && Sound(v, n)
    ensures Safe(v, tick, n) <==> forall times: seq<nat> :: times != [] ==> Prompt(v, times, tick, n)
  {
    if Safe(v, tick, n) {
      forall times: seq<nat> | times != []
        ensures Prompt(v, times, tick, n)
      {
        SafeUpdates(v, times, tick, n);
      }
    } else {
      UnsafeLate(v, if v.last - tick <= v.due.next then v.due.next else v.last - tick, tick, n);
    }
  }

  // ---------------------------------------------------------------- a timer scheduled before the first update

  /** The slot of the timer is the one the first update serves, or it is served before the timer is late. */
  ghost predicate EarlyEnough(v: View, now: nat, tick: nat, n: nat)
    requires v.current < n && v.slot < n
  {
    v.slot == v.current || now + (Ahead(v, n) - 1) * tick < v.due.next
  }

  lemma FirstUpdate(v: View, now: nat, tick: nat, n: nat)
    requires 0 < tick && Sound(v, n) && v.last == 0
    ensures var r := UpdateOf(v, now, tick, n);
            r == TurnOf(v.(last := now), tick, n) && (Safe(r, tick, n) <==> EarlyEnough(v, now, tick, n))
  {
    var started := v.(last := now);
    var r := TurnOf(started, tick, n);
    assert TurnsOf(r, now + tick, tick, n) == r;
    if v.slot == v.current {
      FireKeeps(v.due, now + tick);
      PunctualSafe(r, tick, n);
    } else {
      AheadTurn(started, tick, n);
    }
  }

  /** A timer scheduled before the first update, at `now`, is never late, whatever updates follow, just if it is
      early enough. */
  lemma ScheduledEarly(v: View, now: nat, tick: nat, n: nat)
    requires 0 < tick && Sound(v, n) && v.last == 0
    ensures EarlyEnough(v, now, tick, n) <==> forall later: seq<nat> :: Prompt(v, [now] + later, tick, n)
  {
    if EarlyEnough(v, now, tick, n) {
      forall later: seq<nat>
        ensures Prompt(v, [now] + later, tick, n)
      {
        EarlyPrompt(v, now, later, tick, n);
      }
    } else {
      EarlyWaits(v, now, if now <= v.due.next then v.due.next else now, tick, n);
    }
  }

  lemma EarlyWaits(v: View, now: nat, late: nat, tick: nat, n: nat)
    requires 0 < tick && Sound(v, n) && v.last == 0 && !EarlyEnough(v, now, tick, n)
    requires late == if now <= v.due.next then v.due.next else now
    ensures UpdatesOf(v, [now] + [late], tick, n).due == v.due && !Prompt(v, [now] + [late], tick, n)
  {
    var r := UpdateOf(v, now, tick, n);
    FirstUpdate(v, now, tick, n);
    UnsafeLate(r, late, tick, n);
    UpdatesThen(v, now, [late], tick, n);
  }

  lemma EarlyPrompt(v: View, now: nat, later: seq<nat>, tick: nat, n: nat)
    requires 0 < tick && Sound(v, n) && v.last == 0 && EarlyEnough(v, now, tick, n)
    ensures Prompt(v, [now] + later, tick, n)
  {
    var r := UpdateOf(v, now, tick, n);
    FirstUpdate(v, now, tick, n);
    UpdatesThen(v, now, later, tick, n);
    SafeUpdates(r, later, tick, n);
    if later == [] {
      SafePrompt(r, now, tick, n);
    } else {
      assert Prompt(r, later, tick, n);
    }
  }

  // ---------------------------------------------------------------- late or not, nothing is lost

  lemma {:induction false} TurnsHear(v: View, goal: nat, tick: nat, n: nat) returns (count: nat)
    requires 0 < tick && Sound(v, n)
    ensures Heard(v.due, TurnsOf(v, goal, tick, n).due, count)
    ensures 0 < count ==> v.last < goal && Latest(v.due, count) < goal + tick
    decreases goal - v.last
  {
    if v.last < goal {
      var r := TurnOf(v, tick, n);
      var first := 0;
      if v.slot == v.current {
        first := FireHears(v.due, v.last + tick);
      }
      var more := TurnsHear(r, goal, tick, n);
      HeardThen(v.due, r.due, TurnsOf(r, goal, tick, n).due, first, more);
      count := first + more;
    } else {
      count := 0;
    }
  }

  /** In any run of updates a timer in any slot hears the instants of its progression once and in order, and none
      two ticks before it is due. */
  lemma {:induction false} UpdatesHear(v: View, times: seq<nat>, tick: nat, n: nat) returns (count: nat)
    requires 0 < tick && Sound(v, n)
    ensures Heard(v.due, UpdatesOf(v, times, tick, n).due, count)
    ensures 0 < count ==> exists now :: now in times && Latest(v.due, count) < now + 2 * tick
    decreases |times|
  {
    if times == [] {
      count := 0;
    } else {
      var now, r := times[0], UpdateOf(v, times[0], tick, n);
      var first := TurnsHear(if v.last == 0 then v.(last := now) else v, now + tick, tick, n);
      var more := UpdatesHear(r, times[1..], tick, n);
      HeardThen(v.due, r.due, UpdatesOf(v, times, tick, n).due, first, more);
      count := first + more;
      if more == 0 {
        assert now in times;
      } else {
        var t :| t in times[1..] && Latest(r.due, more) < t + 2 * tick;
        assert t in times;
      }
    }
  }
}
