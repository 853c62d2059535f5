/**
 The slot lists of a hashed timer wheel and the timers kept in them. A timer knows its slot and its
 position there; a freed position is reused last in, first out.
 */
module TimerSlots {

  type Id = nat

  datatype Cell = Deleted | Holds(id: Id)

  datatype Slot = Slot(cells: seq<Cell>, free: seq<nat>)

  datatype Place = Out | In(slot: nat, pos: nat)

  /** When a timer is due, how often it repeats, and the instants its callback has been given. */
  datatype Due = Due(interval: nat, next: nat, heard: seq<nat>)

  datatype Timer = Timer(due: Due, place: Place)

  ghost predicate SlotValid(slot: Slot) {
    && (forall k :: 0 <= k < |slot.free| ==> slot.free[k] < |slot.cells| && slot.cells[slot.free[k]] == Deleted)
    && (forall j, k :: 0 <= j < k < |slot.free| ==> slot.free[j] != slot.free[k])
  }

  function InsertAt(slot: Slot): (pos: nat)
    requires SlotValid(slot)
    ensures pos <= |slot.cells| && (pos < |slot.cells| ==> slot.cells[pos] == Deleted)
  {
    if slot.free != [] then slot.free[|slot.free| - 1] else |slot.cells|
  }

  function Insert(slot: Slot, id: Id): (r: Slot)
    requires SlotValid(slot)
    ensures SlotValid(r)
    ensures |r.cells| == if InsertAt(slot) < |slot.cells| then |slot.cells| else |slot.cells| + 1
    ensures forall p :: 0 <= p < |r.cells| ==>
              r.cells[p] == if p == InsertAt(slot) then Holds(id) else slot.cells[p]
  {
    if slot.free != [] then
      Slot(slot.cells[InsertAt(slot) := Holds(id)], slot.free[..|slot.free| - 1])
    else
      Slot(slot.cells + [Holds(id)], [])
  }

  function Erase(slot: Slot, pos: nat): (r: Slot)
    requires SlotValid(slot) && pos < |slot.cells| && slot.cells[pos] != Deleted
    ensures SlotValid(r) && r.cells == slot.cells[pos := Deleted]
    ensures InsertAt(r) == pos
  {
    Slot(slot.cells[pos := Deleted], slot.free + [pos])
  }

  // ---------------------------------------------------------------- timers and the slots they are in

  ghost predicate CellValid(timers: map<Id, Timer>, s: nat, p: nat, cell: Cell) {
    cell.Holds? ==> cell.id in timers && timers[cell.id].place == In(s, p)
  }

  ghost predicate TimerValid(slots: seq<Slot>, id: Id, place: Place) {
    place.In? ==>
      place.slot < |slots| && place.pos < |slots[place.slot].cells|
      && slots[place.slot].cells[place.pos] == Holds(id)
  }

  /** Every queued timer is in exactly the cell it names, and every cell in use is a queued timer's. */
  ghost predicate Placed(slots: seq<Slot>, timers: map<Id, Timer>) {
    && (forall s :: 0 <= s < |slots| ==> SlotValid(slots[s]))
    && (forall s, p :: 0 <= s < |slots| && 0 <= p < |slots[s].cells| ==> CellValid(timers, s, p, slots[s].cells[p]))
    && (forall id :: id in timers ==> TimerValid(slots, id, timers[id].place))
  }

  lemma ErasePlaced(slots: seq<Slot>, timers: map<Id, Timer>, id: Id)
    requires Placed(slots, timers) && id in timers && timers[id].place.In?
    ensures var at := timers[id].place;
            TimerValid(slots, id, at)
            && Placed(slots[at.slot := Erase(slots[at.slot], at.pos)], timers[id := timers[id].(place := Out)])
  {
  }

  lemma InsertPlaced(slots: seq<Slot>, timers: map<Id, Timer>, id: Id, s: nat, due: Due)
    requires Placed(slots, timers) && (id in timers ==> timers[id].place.Out?) && s < |slots|
    ensures Placed(slots[s := Insert(slots[s], id)], timers[id := Timer(due, In(s, InsertAt(slots[s])))])
  {
    var pos := InsertAt(slots[s]);
    var inserted, after := slots[s := Insert(slots[s], id)], timers[id := Timer(due, In(s, pos))];
    forall t, p | 0 <= t < |inserted| && 0 <= p < |inserted[t].cells|
      ensures CellValid(after, t, p, inserted[t].cells[p])
    {
      if !(t == s && p == pos) {
        assert CellValid(timers, t, p, slots[t].cells[p]);
      }
    }
    forall x | x in after
      ensures TimerValid(inserted, x, after[x].place)
    {
      if x != id {
        assert TimerValid(slots, x, timers[x].place);
      }
    }
  }
}
