/** The snapshot registry as an object: what one call does when no other thread interferes. */
module CoreRegistry {
  import opened Common
  import opened CoreTypes
  import opened SnapshotProtocol

  datatype Slot = Slot(id: nat, state: CoreState)

  /** A handle on a pinned slot; the default handle is invalid. */
  datatype SnapshotRef = Invalid | Ref(slotIndex: nat, id: nat)

  /** The registry's memory as a value. */
  datatype Memory = Memory(
    slots: seq<Slot>,
    pins: seq<nat>,
    active: nat,
    activeId: nat,
    writeIndex: nat,
    nextId: nat)
  {
    predicate WellSized() {
      && |slots| == |pins| == SLOTS && active < SLOTS && writeIndex < SLOTS
      && (forall i | 0 <= i < SLOTS :: slots[i].state.WellFormed())
    }

    function Current(): CoreState
      requires WellSized()
    {
      slots[active].state
    }
  }

  /** The first slot the scan may take from position `i` on. */
  function FirstUnpinned(m: Memory, i: nat := 0): (r: Option<nat>)
    requires m.WellSized() && i <= SLOTS
    ensures r.Some? ==> r.value < SLOTS && r.value != m.active && m.pins[r.value] == 0
    decreases SLOTS - i
  {
    if i == SLOTS then None
    else
      var candidate := Candidate(m.writeIndex, i);
      if candidate == m.active || m.pins[candidate] != 0 then FirstUnpinned(m, i + 1) else Some(candidate)
  }

  /** The state as it will be stored: its revision raised above the current one when it is not already. */
  function Raised(state: CoreState, current: CoreState): CoreState {
    if state.revision <= current.revision then state.(revision := current.revision + 1) else state
  }

  function Published(m: Memory, state: CoreState): (r: (Memory, bool))
    requires m.WellSized()
    ensures state.WellFormed() ==> r.0.WellSized()
  {
    match FirstUnpinned(m)
    case None => (m, false)
    case Some(next) =>
      (m.(slots := m.slots[next := Slot(m.nextId, Raised(state, m.Current()))],
          nextId := m.nextId + 1, writeIndex := next, activeId := m.nextId, active := next), true)
  }

  const INITIAL: Memory :=
    Memory(seq(SLOTS, _ => Slot(0, EMPTY_STATE)), seq(SLOTS, _ => 0), 0, 0, 0, 1)

  class CoreRegistry {
    const slots: array<Slot>
    const pins: array<nat>
    var activeIndex: nat
    var activeSnapshotId: nat
    var writeIndex: nat
    var nextSnapshotId: nat

    ghost predicate Valid()
      reads this, slots, pins
    {
      && slots.Length == SLOTS && pins.Length == SLOTS
      && Model().WellSized()
    }

    ghost function Model(): Memory
      reads this, slots, pins
    {
      Memory(slots[..], pins[..], activeIndex, activeSnapshotId, writeIndex, nextSnapshotId)
    }

    constructor ()
      ensures Valid() && fresh(slots) && fresh(pins)
      ensures Model() == INITIAL
    {
      slots := new Slot[SLOTS](_ => Slot(0, EMPTY_STATE));
      pins := new nat[SLOTS](_ => 0);
      activeIndex, activeSnapshotId, writeIndex, nextSnapshotId := 0, 0, 0, 1;
      new;
      assert slots[..] == INITIAL.slots;
      assert pins[..] == INITIAL.pins;
    }

    /** The retry loop runs once when nothing moves the active index between its two loads. */
    method PinCurrent() returns (ref: SnapshotRef)
      requires Valid()
      modifies pins
      ensures Valid()
      ensures ref == Ref(old(activeIndex), old(slots[activeIndex].id))
      ensures Model() == old(Model()).(pins := old(pins[..])[activeIndex := old(pins[activeIndex]) + 1])
    {
      var pinnedIndex := activeIndex;
      pins[pinnedIndex] := pins[pinnedIndex] + 1;
      var observedIndex := activeIndex;
      assert observedIndex == pinnedIndex;
      ref := Ref(pinnedIndex, slots[pinnedIndex].id);
    }

    /** `fetch_sub` wraps below zero and the repair stores zero back, so a count never underflows. */
    method ReleaseSnapshot(ref: SnapshotRef) returns (cleared: SnapshotRef)
      requires Valid()
      modifies pins
      ensures Valid() && cleared == Invalid
      ensures Model() == match ref
                         case Invalid => old(Model())
                         case Ref(slot, _) =>
                           if slot < SLOTS
                           then old(Model()).(pins := old(pins[..])[slot := if old(pins[slot]) == 0 then 0
                                                                           else old(pins[slot]) - 1])
                           else old(Model())
    {
      cleared := Invalid;
      if ref == Invalid {
        return;
      }
      var slot := ref.slotIndex;
      if slot < SLOTS {
        var prev := pins[slot];
        pins[slot] := if prev == 0 then 0xFFFF_FFFF else prev - 1;
        if prev == 0 {
          pins[slot] := 0;
        }
      }
    }

    method SnapshotCopy() returns (copy: CoreState)
      requires Valid()
      modifies pins
      ensures Valid() && Model() == old(Model())
      ensures copy == Model().Current()
    {
      var ref := PinCurrent();
      copy := slots[ref.slotIndex].state;
      ref := ReleaseSnapshot(ref);
      assert pins[..] == old(pins[..]);
    }

    /** The scan of `publish`: the first slot after the last written one that is neither active nor pinned. */
    method FindUnpinned(currentIndex: nat) returns (nextIndex: nat, foundSlot: bool)
      requires Valid() && currentIndex == activeIndex
      ensures nextIndex < SLOTS
      ensures FirstUnpinned(Model()) == if foundSlot then Some(nextIndex) else None
    {
      nextIndex, foundSlot := currentIndex, false;
      var i := 0;
      while i < SLOTS && !foundSlot
        invariant 0 <= i <= SLOTS && nextIndex < SLOTS
        invariant FirstUnpinned(Model()) == if foundSlot then Some(nextIndex) else FirstUnpinned(Model(), i)
        decreases SLOTS - i, !foundSlot
      {
        var candidate := (writeIndex + 1 + i) % SLOTS;
        if candidate == currentIndex || pins[candidate] != 0 {
          i := i + 1;
        } else {
          nextIndex, foundSlot := candidate, true;
        }
      }
    }

    method Publish(state: CoreState) returns (ok: bool)
      requires Valid() && state.WellFormed()
      modifies this, slots
      ensures Valid()
      ensures (Model(), ok) == Published(old(Model()), state)
    {
      var currentIndex := activeIndex;
      var nextState := state;
      if nextState.revision <= slots[currentIndex].state.revision {
        nextState := nextState.(revision := slots[currentIndex].state.revision + 1);
      }
      var nextIndex, foundSlot := FindUnpinned(currentIndex);
      if !foundSlot {
        return false;
      }
      slots[nextIndex] := Slot(nextSnapshotId, nextState);
      nextSnapshotId := nextSnapshotId + 1;
      writeIndex := nextIndex;
      activeSnapshotId := slots[nextIndex].id;
      activeIndex := nextIndex;
      ok := true;
    }
  }

  /** A publish that succeeds installs the state, as it is when its revision is new, else under the next revision; it
      gets the next id, becomes the advertised one, and leaves every pinned slot alone. */
  lemma PublishedInstalls(m: Memory, state: CoreState)
    requires m.WellSized() && state.WellFormed()
    ensures var (n, ok) := Published(m, state);
            && (!ok ==> n == m)
            && (ok ==>
                  && n.Current().(revision := state.revision) == state
                  && n.Current().revision == (if state.revision > m.Current().revision then state.revision
                                              else m.Current().revision + 1)
                  && n.slots[n.active].id == n.activeId == m.nextId && n.nextId == m.nextId + 1
                  && n.active != m.active && m.pins[n.active] == 0 && n.writeIndex == n.active && n.pins == m.pins)
            && (forall i | 0 <= i < SLOTS && (m.pins[i] != 0 || i == m.active) :: n.slots[i] == m.slots[i])
  {
  }

  /** A publish is refused exactly when every slot but the active one is pinned. */
  lemma {:induction false} RefusedIffAllPinned(m: Memory, state: CoreState)
    requires m.WellSized() && state.WellFormed()
    ensures !Published(m, state).1 <==> forall i | 0 <= i < SLOTS && i != m.active :: m.pins[i] != 0
  {
    if FirstUnpinned(m) == None {
      forall slot: nat | slot < SLOTS && slot != m.active ensures m.pins[slot] != 0 {
        var i := ScanVisitsAll(m.writeIndex, slot);
        ScanSkipsPinned(m, i);
      }
    }
  }

  lemma {:induction false} ScanSkipsPinned(m: Memory, i: nat)
    requires m.WellSized() && i < SLOTS && FirstUnpinned(m) == None
    ensures FirstUnpinned(m, i) == None
    ensures Candidate(m.writeIndex, i) == m.active || m.pins[Candidate(m.writeIndex, i)] != 0
  {
    if i > 0 {
      ScanSkipsPinned(m, i - 1);
    }
  }
}
