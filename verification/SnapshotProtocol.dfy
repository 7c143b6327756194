/** The lock-free snapshot registry as a transition system: one publisher, any number of readers, and one
    step per atomic operation. A state copied into or out of a slot moves one cell per step, so a torn
    read would be visible. */
module SnapshotProtocol {
  import opened Common
  import opened CoreTypes

  const SLOTS: nat := 8

  /** What one step can move: a scalar field or one device record. */
  datatype Cell = Number(n: int) | Record(r: DeviceRecord)

  /** The memory image of a published state; cell 0 is its revision. */
  type Cells = s: seq<Cell> | |s| > 0 && s[0].Number? witness [Number(0)]

  /** A completed publish, and also the content of a slot. */
  datatype Snapshot = Snapshot(id: nat, cells: Cells)

  datatype Publisher =
    | Idle
    | Requested(value: Cells)
    // `cur` is the active slot loaded first; `value` already carries its bumped revision
    | Scanning(cur: nat, value: Cells, i: nat)
    | Writing(next: nat, value: Cells, k: nat)
    | WritingId(next: nat, value: Cells)
    | StoringId(next: nat, value: Cells)
    | StoringActive(next: nat, value: Cells)

  /** `at` is the position in the history of the publish that was newest when the pin was validated;
      no step reads it. */
  datatype Reader =
    | Away
    | Loaded(slot: nat)
    | Counted(slot: nat)
    | Undoing(slot: nat)
    | Pinned(slot: nat, at: nat, id: Option<nat>, copied: seq<Cell>)
    | Repairing(slot: nat)

  datatype State = State(
    slots: seq<Snapshot>,
    pins: seq<nat>,
    active: nat,
    activeId: nat,
    writeIndex: nat,
    nextId: nat,
    publisher: Publisher,
    readers: seq<Reader>,
    // auxiliary: completed publishes, the state last asked to be published, the readers as they stood when
    // the current scan began, and the number of publishes that found no slot
    history: seq<Snapshot>,
    requested: Cells,
    scanStart: seq<Reader>,
    refused: nat)

  datatype ReaderOp = Load | Count | Validate | Undo | ReadId | ReadCell | Release | Repair

  datatype Step = Request(value: Cells) | Publish | Read(r: nat, op: ReaderOp)

  ghost predicate Init(s: State) {
    && s.slots != [] && s.slots[0].id == 0
    && s.slots == seq(SLOTS, i => s.slots[0])
    && s.pins == seq(SLOTS, i => 0)
    && s.active == s.activeId == s.writeIndex == 0 && s.nextId == 1
    && s.publisher == Idle
    && s.readers == seq(|s.readers|, i => Away)
    && s.history == [s.slots[0]]
    && s.refused == 0
  }

  function WithRevision(cells: Cells, current: Cells): Cells {
    if cells[0].n <= current[0].n then cells[0 := Number(current[0].n + 1)] else cells
  }

  function Candidate(writeIndex: nat, i: nat): nat {
    (writeIndex + 1 + i) % SLOTS
  }

  /** The modular scan visits every slot. */
  lemma ScanVisitsAll(writeIndex: nat, slot: nat) returns (i: nat)
    requires writeIndex < SLOTS && slot < SLOTS
    ensures i < SLOTS && Candidate(writeIndex, i) == slot
  {
    i := (slot + SLOTS - 1 - writeIndex) % SLOTS;
  }

  /** Cells per state: every state and every slot has the same number. */
  function Width(s: State): nat
    requires s.slots != []
  {
    |s.slots[0].cells|
  }

  predicate WellSized(s: State) {
    && |s.slots| == |s.pins| == SLOTS
    && s.active < SLOTS && s.writeIndex < SLOTS
    && s.history != []
    && (forall j | 0 <= j < SLOTS :: |s.slots[j].cells| == Width(s))
    && (s.publisher != Idle ==> |s.publisher.value| == Width(s))
    && (s.publisher.Scanning? ==> s.publisher.cur < SLOTS && s.publisher.i <= SLOTS)
    && (s.publisher.Writing? ==> s.publisher.next < SLOTS && s.publisher.k <= Width(s))
    && (s.publisher.WritingId? || s.publisher.StoringId? || s.publisher.StoringActive? ==> s.publisher.next < SLOTS)
    && (forall r | 0 <= r < |s.readers| && !s.readers[r].Away? :: s.readers[r].slot < SLOTS)
  }

  predicate Enabled(s: State, step: Step) {
    WellSized(s) &&
    match step
    case Request(value) => s.publisher == Idle && |value| == |s.slots[s.active].cells|
    case Publish => s.publisher != Idle
    case Read(r, op) =>
      r < |s.readers| &&
      match op
      case Load => s.readers[r].Away?
      case Count => s.readers[r].Loaded?
      case Validate => s.readers[r].Counted?
      case Undo => s.readers[r].Undoing?
      case ReadId => s.readers[r].Pinned? && s.readers[r].id == None
      case ReadCell => s.readers[r].Pinned? && |s.readers[r].copied| < |s.slots[s.readers[r].slot].cells|
      case Release => s.readers[r].Pinned?
      case Repair => s.readers[r].Repairing?
  }

  function PublishStep(s: State): State
    requires WellSized(s) && s.publisher != Idle
  {
    match s.publisher
    case Requested(value) =>
      s.(publisher := Scanning(s.active, WithRevision(value, s.slots[s.active].cells), 0), scanStart := s.readers)
    case Scanning(cur, value, i) =>
      if i == SLOTS then s.(publisher := Idle, refused := s.refused + 1)
      else if Candidate(s.writeIndex, i) == cur then s.(publisher := Scanning(cur, value, i + 1))
      else if s.pins[Candidate(s.writeIndex, i)] != 0 then s.(publisher := Scanning(cur, value, i + 1))
      else s.(publisher := Writing(Candidate(s.writeIndex, i), value, 0))
    case Writing(next, value, k) =>
      if k == |value| then s.(publisher := WritingId(next, value))
      else s.(slots := s.slots[next := s.slots[next].(cells := s.slots[next].cells[k := value[k]])],
              publisher := Writing(next, value, k + 1))
    case WritingId(next, value) =>
      s.(slots := s.slots[next := s.slots[next].(id := s.nextId)], nextId := s.nextId + 1, writeIndex := next,
         publisher := StoringId(next, value))
    case StoringId(next, value) =>
      s.(activeId := s.slots[next].id, publisher := StoringActive(next, value))
    case StoringActive(next, value) =>
      s.(active := next, publisher := Idle, history := s.history + [s.slots[next]])
  }

  function AddPin(s: State, slot: nat): seq<nat>
    requires WellSized(s) && slot < SLOTS
  {
    s.pins[slot := s.pins[slot] + 1]
  }

  /** `fetch_sub` on a 32-bit counter. */
  function DropPin(s: State, slot: nat): seq<nat>
    requires WellSized(s) && slot < SLOTS
  {
    s.pins[slot := if s.pins[slot] == 0 then 0xFFFF_FFFF else s.pins[slot] - 1]
  }

  function ReadStep(s: State, r: nat, op: ReaderOp): State
    requires Enabled(s, Read(r, op))
  {
    var reader := s.readers[r];
    match op
    case Load => s.(readers := s.readers[r := Loaded(s.active)])
    case Count => s.(readers := s.readers[r := Counted(reader.slot)], pins := AddPin(s, reader.slot))
    case Validate =>
      s.(readers := s.readers[r :=
           if s.active == reader.slot then Pinned(reader.slot, |s.history| - 1, None, []) else Undoing(reader.slot)])
    case Undo => s.(readers := s.readers[r := Away], pins := DropPin(s, reader.slot))
    case ReadId => s.(readers := s.readers[r := reader.(id := Some(s.slots[reader.slot].id))])
    case ReadCell =>
      s.(readers := s.readers[r :=
           reader.(copied := reader.copied + [s.slots[reader.slot].cells[|reader.copied|]])])
    case Release =>
      s.(readers := s.readers[r := if s.pins[reader.slot] == 0 then Repairing(reader.slot) else Away],
         pins := DropPin(s, reader.slot))
    case Repair => s.(readers := s.readers[r := Away], pins := s.pins[reader.slot := 0])
  }

  function Apply(s: State, step: Step): State
    requires Enabled(s, step)
  {
    match step
    case Request(value) => s.(publisher := Requested(value), requested := value)
    case Publish => PublishStep(s)
    case Read(r, op) => ReadStep(s, r, op)
  }

  /** A run of the protocol, from an initial state. */
  ghost predicate Run(trace: seq<State>, steps: seq<Step>) {
    && |trace| == |steps| + 1
    && Init(trace[0])
    && (forall i | 0 <= i < |steps| :: Enabled(trace[i], steps[i]) && trace[i + 1] == Apply(trace[i], steps[i]))
  }
}
