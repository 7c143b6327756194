/** The object of `CoreRegistry` is the step protocol run without interference, and six readers is the best
    bound for which a publish always succeeds. */
module RegistryRefinement {
  import opened Common
  import opened CoreTypes
  import opened SnapshotProtocol
  import opened SnapshotSafety
  import opened SnapshotCapacity
  import opened CoreRegistry

  function RecordCells(d: seq<DeviceRecord>): (c: seq<Cell>)
    ensures |c| == |d| && forall i | 0 <= i < |d| :: c[i] == Record(d[i])
  {
    if d == [] then [] else RecordCells(d[..|d| - 1]) + [Record(d[|d| - 1])]
  }

  /** The memory image of a core state. */
  function CellsOf(s: CoreState): (c: Cells)
    ensures |c| == 4 + |s.devices|
  {
    [Number(s.revision), Number(s.deviceCount), Number(if s.networkConnected then 1 else 0),
     Number(s.lastCommandStatus)]
    + RecordCells(s.devices)
  }

  /** No two states share an image, so reading one completed publish is reading one state. */
  lemma CellsIdentifyState(s: CoreState, t: CoreState)
    requires CellsOf(s) == CellsOf(t)
    ensures s == t
  {
    var a, b := CellsOf(s), CellsOf(t);
    assert a[0] == b[0] && a[1] == b[1] && a[2] == b[2] && a[3] == b[3];
    forall i | 0 <= i < |s.devices| ensures s.devices[i] == t.devices[i] {
      assert a[4 + i] == Record(s.devices[i]) && b[4 + i] == Record(t.devices[i]);
    }
  }

  lemma RaisedCells(state: CoreState, current: CoreState)
    ensures CellsOf(Raised(state, current)) == WithRevision(CellsOf(state), CellsOf(current))
  {
  }

  function Image(slot: Slot): Snapshot {
    Snapshot(slot.id, CellsOf(slot.state))
  }

  /** The protocol is at rest and its memory holds the images of `m`. */
  ghost predicate Represents(s: State, m: Memory) {
    && m.WellSized() && |s.slots| == SLOTS
    && (forall i | 0 <= i < SLOTS :: s.slots[i] == Image(m.slots[i]))
    && s.pins == m.pins && s.active == m.active && s.activeId == m.activeId
    && s.writeIndex == m.writeIndex && s.nextId == m.nextId
    && s.publisher == Idle
  }

  /** `n` publisher steps in a row, stopping early at rest. */
  function Solo(s: State, n: nat): State
    decreases n
  {
    if n == 0 || !WellSized(s) || s.publisher == Idle then s else Solo(PublishStep(s), n - 1)
  }

  /** The state after the write now in progress completes undisturbed. */
  ghost function Completed(s: State): State
    requires WellSized(s) && s.publisher.Writing?
  {
    var snapshot := Snapshot(s.nextId, s.publisher.value);
    var next := s.publisher.next;
    s.(slots := s.slots[next := snapshot], nextId := s.nextId + 1, writeIndex := next, activeId := s.nextId,
       active := next, publisher := Idle, history := s.history + [snapshot])
  }

  lemma SoloStep(s: State, n: nat)
    requires WellSized(s) && s.publisher != Idle && n > 0
    ensures Solo(s, n) == Solo(PublishStep(s), n - 1)
  {
  }

  lemma SoloDone(s: State)
    ensures Solo(s, 0) == s
  {
  }

  /** The steps after the last cell: id, advertised id, active index. */
  lemma FinishSteps(s: State)
    requires Inv(s) && s.publisher.WritingId?
    ensures WellSized(PublishStep(s)) && PublishStep(s).publisher.StoringId?
    ensures var s2 := PublishStep(s);
            && WellSized(PublishStep(s2)) && PublishStep(s2).publisher.StoringActive?
    ensures var next, snapshot := s.publisher.next, Snapshot(s.nextId, s.publisher.value);
            PublishStep(PublishStep(PublishStep(s)))
            == s.(slots := s.slots[next := snapshot], nextId := s.nextId + 1, writeIndex := next, activeId := s.nextId,
                  active := next, publisher := Idle, history := s.history + [snapshot])
  {
    hide HistoryOrdered, PinsExact, ReadersSane;
  }

  lemma SoloFinish(s: State)
    requires Inv(s) && s.publisher.Writing? && s.publisher.k == Width(s)
    ensures Solo(s, 4) == Completed(s)
  {
    StepKeepsInv(s, Publish);
    var s1 := PublishStep(s);
    assert s1 == s.(publisher := WritingId(s.publisher.next, s.publisher.value));
    FinishSteps(s1);
    hide Inv, PublishStep, Solo, WellSized;
    InvIsSized(s);
    InvIsSized(s1);
    SoloStep(s, 4);
    SoloStep(s1, 3);
    SoloStep(PublishStep(s1), 2);
    SoloStep(PublishStep(PublishStep(s1)), 1);
    SoloDone(PublishStep(PublishStep(PublishStep(s1))));
  }

  lemma {:induction false} SoloWrite(s: State) returns (n: nat)
    requires Inv(s) && s.publisher.Writing?
    ensures Solo(s, n) == Completed(s)
    decreases Width(s) - s.publisher.k
  {
    if s.publisher.k == Width(s) {
      SoloFinish(s);
      n := 4;
    } else {
      hide Solo, HistoryOrdered, PinsExact, ReadersSane;
      StepKeepsInv(s, Publish);
      var rest := SoloWrite(PublishStep(s));
      assert Completed(PublishStep(s)) == Completed(s);
      n := rest + 1;
      SoloStep(s, n);
    }
  }

  /** One step of the scan, as `FirstUnpinned` computes it. */
  lemma ScanStep(s: State, m: Memory)
    requires WellSized(s) && s.publisher.Scanning? && s.publisher.i < SLOTS && Represents(s.(publisher := Idle), m)
    requires s.publisher.cur == s.active
    ensures var t := PublishStep(s);
            if t.publisher.Writing?
            then FirstUnpinned(m, s.publisher.i) == Some(t.publisher.next)
                 && t == s.(publisher := Writing(t.publisher.next, s.publisher.value, 0))
            else t == s.(publisher := Scanning(s.publisher.cur, s.publisher.value, s.publisher.i + 1))
                 && FirstUnpinned(m, s.publisher.i) == FirstUnpinned(m, s.publisher.i + 1)
  {
  }

  lemma {:induction false} SoloScan(s: State, m: Memory) returns (n: nat)
    requires Inv(s) && s.publisher.Scanning? && Represents(s.(publisher := Idle), m)
    ensures Solo(s, n) == match FirstUnpinned(m, s.publisher.i)
                          case None => s.(publisher := Idle, refused := s.refused + 1)
                          case Some(next) => Completed(s.(publisher := Writing(next, s.publisher.value, 0)))
    decreases SLOTS - s.publisher.i
  {
    hide Solo, HistoryOrdered, PinsExact, ReadersSane;
    StepKeepsInv(s, Publish);
    var t := PublishStep(s);
    if s.publisher.i == SLOTS {
      n := 1;
      SoloDone(t);
    } else {
      ScanStep(s, m);
      hide PublishStep, FirstUnpinned;
      var rest;
      if t.publisher.Writing? {
        rest := SoloWrite(t);
      } else {
        assert t.(publisher := Idle) == s.(publisher := Idle);
        rest := SoloScan(t, m);
      }
      n := rest + 1;
    }
    SoloStep(s, n);
  }

  /** The state as the publisher sees it when its scan begins. */
  lemma UndisturbedStart(s: State, m: Memory, state: CoreState)
    requires Inv(s) && Represents(s, m) && state.WellFormed()
    ensures var step := Request(CellsOf(state));
            && Enabled(s, step) && Inv(Apply(s, step)) && Inv(PublishStep(Apply(s, step)))
            && Apply(s, step).publisher != Idle
            && PublishStep(Apply(s, step))
               == s.(publisher := Scanning(m.active, CellsOf(Raised(state, m.Current())), 0), scanStart := s.readers,
                     requested := CellsOf(state))
  {
    var value := CellsOf(state);
    assert s.slots[m.active] == Image(m.slots[m.active]);
    assert s.slots[0] == Image(m.slots[0]);
    StepKeepsInv(s, Request(value));
    StepKeepsInv(Apply(s, Request(value)), Publish);
    RaisedCells(state, m.Current());
  }

  /** Left alone, the publisher turns the request into exactly what `Published` computes: the same memory, and
      a refusal exactly when the call returns false. Readers do not notice. */
  lemma UndisturbedPublish(s: State, m: Memory, state: CoreState) returns (n: nat)
    requires Inv(s) && Represents(s, m) && state.WellFormed()
    ensures Enabled(s, Request(CellsOf(state)))
    ensures var t := Solo(Apply(s, Request(CellsOf(state))), n);
            && Represents(t, Published(m, state).0)
            && t.refused == (if Published(m, state).1 then s.refused else s.refused + 1)
            && t.readers == s.readers
  {
    hide Inv, Enabled, Apply, PublishStep;
    UndisturbedStart(s, m, state);
    var s0 := Apply(s, Request(CellsOf(state)));
    var s1 := PublishStep(s0);
    var rest := SoloScan(s1, m);
    n := rest + 1;
    InvIsSized(s0);
    assert Solo(s0, n) == Solo(s1, rest);
  }

  lemma InvIsSized(s: State)
    requires Inv(s)
    ensures WellSized(s)
  {
  }

  // ---------------------------------------------------------------------------------------------
  // Six is the best bound
  // ---------------------------------------------------------------------------------------------

  /** One reader more on the current state. */
  function PinnedOnce(m: Memory): (n: Memory)
    requires m.WellSized()
    ensures n.WellSized() && n.active == m.active && n.writeIndex == m.writeIndex
    ensures n.pins == m.pins[m.active := m.pins[m.active] + 1]
  {
    Memory(m.slots, m.pins[m.active := m.pins[m.active] + 1], m.active, m.activeId, m.writeIndex, m.nextId)
  }

  /** One reader pins the current state, then `state` is published. */
  function PinThenPublish(m: Memory, state: CoreState): (n: Memory)
    requires m.WellSized() && state.WellFormed()
    ensures n.WellSized()
  {
    Published(PinnedOnce(m), state).0
  }

  function PinThenPublishTimes(m: Memory, state: CoreState, k: nat): (n: Memory)
    requires m.WellSized() && state.WellFormed()
    ensures n.WellSized()
  {
    if k == 0 then m else PinThenPublish(PinThenPublishTimes(m, state, k - 1), state)
  }

  /** No reader holds a pin and slot 0 is current, as in a registry just constructed. */
  predicate Fresh(m: Memory) {
    m.WellSized() && m.active == m.writeIndex == 0 && forall i | 0 <= i < SLOTS :: m.pins[i] == 0
  }

  lemma {:induction false} PinsPileUp(m: Memory, state: CoreState, k: nat)
    requires Fresh(m) && state.WellFormed() && k < SLOTS
    ensures var n := PinThenPublishTimes(m, state, k);
            && n.active == n.writeIndex == k
            && (forall i | 0 <= i < SLOTS :: n.pins[i] == if i < k then 1 else 0)
  {
    hide Published;
    if k > 0 {
      PinsPileUp(m, state, k - 1);
      NextSlotTaken(PinThenPublishTimes(m, state, k - 1), state);
    }
  }

  /** When the slots after the current one are free, a publish takes the next. */
  lemma NextSlotTaken(m: Memory, state: CoreState)
    requires m.WellSized() && state.WellFormed() && m.writeIndex == m.active < SLOTS - 1 && m.pins[m.active + 1] == 0
    ensures var n := PinThenPublish(m, state);
            n.active == n.writeIndex == m.active + 1 && n.pins == m.pins[m.active := m.pins[m.active] + 1]
  {
    var p := PinnedOnce(m);
    assert Candidate(p.writeIndex, 0) == m.active + 1;
    assert FirstUnpinned(p, 0) == Some(m.active + 1);
  }

  /** Seven readers holding one pin each can make a publish fail, so the bound of six cannot be raised. */
  lemma SevenReadersCanBlock(m: Memory, state: CoreState)
    requires Fresh(m) && state.WellFormed()
    ensures !Published(PinThenPublishTimes(m, state, SLOTS - 1), state).1
  {
    PinsPileUp(m, state, SLOTS - 1);
    RefusedIffAllPinned(PinThenPublishTimes(m, state, SLOTS - 1), state);
  }

  // ---------------------------------------------------------------------------------------------
  // The same on the protocol: a run in which seven readers block a publish
  // ---------------------------------------------------------------------------------------------

  /** Some run of the protocol ends in `s`. */
  ghost predicate Reachable(s: State) {
    exists trace, steps :: EndsIn(trace, steps, s)
  }

  ghost predicate EndsIn(trace: seq<State>, steps: seq<Step>, s: State) {
    Run(trace, steps) && trace[|steps|] == s
  }

  lemma InitReachable(s: State)
    requires Init(s)
    ensures Reachable(s)
  {
    assert EndsIn([s], [], s);
  }

  lemma ReachableInv(s: State)
    requires Reachable(s)
    ensures Inv(s)
  {
    var trace, steps :| EndsIn(trace, steps, s);
    RunInv(trace, steps, |steps|);
  }

  lemma ReachableStep(s: State, step: Step)
    requires Reachable(s) && Enabled(s, step)
    ensures Reachable(Apply(s, step))
  {
    hide Init, Enabled, Apply;
    var trace, steps :| EndsIn(trace, steps, s);
    assert EndsIn(trace + [Apply(s, step)], steps + [step], Apply(s, step));
  }

  lemma {:induction false} ReachableSolo(s: State, n: nat)
    requires Reachable(s)
    ensures Reachable(Solo(s, n))
    decreases n
  {
    hide Reachable;
    if n > 0 && WellSized(s) && s.publisher != Idle {
      ReachableStep(s, Publish);
      ReachableSolo(PublishStep(s), n - 1);
    }
  }

  /** A reader that is away pins the current slot in three undisturbed steps. */
  lemma ReaderPins(s: State, m: Memory, r: nat) returns (t: State)
    requires Reachable(s) && Represents(s, m) && r < |s.readers| && s.readers[r].Away?
    ensures Reachable(t) && Represents(t, PinnedOnce(m))
    ensures t.refused == s.refused && |t.readers| == |s.readers| && t.slots == s.slots && t.history == s.history
    ensures s.history != [] && t.readers[r] == Pinned(m.active, |s.history| - 1, None, [])
    ensures forall q | 0 <= q < |s.readers| && q != r :: t.readers[q] == s.readers[q]
  {
    hide Reachable, Inv;
    ReachableInv(s);
    InvIsSized(s);
    ReachableStep(s, Read(r, Load));
    var a := Apply(s, Read(r, Load));
    assert WellSized(a) && a == s.(readers := s.readers[r := Loaded(s.active)]);
    ReachableStep(a, Read(r, Count));
    var b := Apply(a, Read(r, Count));
    assert WellSized(b) && b == s.(readers := s.readers[r := Counted(s.active)], pins := AddPin(s, s.active));
    ReachableStep(b, Read(r, Validate));
    t := Apply(b, Read(r, Validate));
  }

  function CopyTimes(s: State, r: nat, n: nat): State
    decreases n
  {
    if n == 0 || !Enabled(s, Read(r, ReadCell)) then s else CopyTimes(ReadStep(s, r, ReadCell), r, n - 1)
  }

  /** A pinned reader left alone copies the whole of its slot. */
  lemma {:induction false} PinnedCopies(s: State, r: nat) returns (n: nat)
    requires WellSized(s) && r < |s.readers| && s.readers[r].Pinned?
    requires s.readers[r].copied <= s.slots[s.readers[r].slot].cells
    ensures CopyTimes(s, r, n)
            == s.(readers := s.readers[r := s.readers[r].(copied := s.slots[s.readers[r].slot].cells)])
    decreases |s.slots[s.readers[r].slot].cells| - |s.readers[r].copied|
  {
    var cells := s.slots[s.readers[r].slot].cells;
    var done := s.readers[r].(copied := cells);
    if |s.readers[r].copied| < |cells| {
      var t := ReadStep(s, r, ReadCell);
      assert t == s.(readers := s.readers[r := t.readers[r]]) && t.readers[r].copied <= cells;
      var rest := PinnedCopies(t, r);
      n := rest + 1;
      assert t.readers[r := done] == s.readers[r := done];
      assert CopyTimes(s, r, n) == CopyTimes(t, r, rest);
    } else {
      n := 0;
      assert s.readers[r].copied == cells && done == s.readers[r];
      assert s.readers[r := done] == s.readers && s.(readers := s.readers) == s;
    }
  }

  /** Left alone, a reader that is away gets the current state: three steps pin it, as many as it has cells copy it. */
  lemma ReaderGetsCurrent(s: State, m: Memory, r: nat) returns (t: State, n: nat)
    requires Reachable(s) && Represents(s, m) && r < |s.readers| && s.readers[r].Away?
    ensures Reachable(t) && Represents(t, PinnedOnce(m)) && |t.readers| == |s.readers|
    ensures t.readers[r].Pinned?
    ensures CopyTimes(t, r, n).readers == t.readers[r := t.readers[r].(copied := CellsOf(m.Current()))]
  {
    hide Reachable;
    t := ReaderPins(s, m, r);
    ReachableInv(t);
    InvIsSized(t);
    n := PinnedCopies(t, r);
    hide Inv;
    assert t.slots[m.active] == Image(m.slots[m.active]);
  }

  /** The first `k` readers have pinned one after the other, a publish in between each time. */
  lemma {:induction false} PinsPileUpInARun(s: State, m: Memory, state: CoreState, k: nat) returns (t: State)
    requires Reachable(s) && Represents(s, m) && state.WellFormed() && k <= |s.readers|
    requires forall q | 0 <= q < |s.readers| :: s.readers[q].Away?
    ensures Reachable(t) && Represents(t, PinThenPublishTimes(m, state, k)) && |t.readers| == |s.readers|
    ensures forall q | k <= q < |s.readers| :: t.readers[q].Away?
  {
    hide Reachable, Published, Solo, Apply, Enabled, Inv;
    if k == 0 {
      t := s;
    } else {
      var u := PinsPileUpInARun(s, m, state, k - 1);
      var before := PinThenPublishTimes(m, state, k - 1);
      var v := ReaderPins(u, before, k - 1);
      t := PublishInARun(v, PinnedOnce(before), state);
    }
  }

  lemma PublishInARun(s: State, m: Memory, state: CoreState) returns (t: State)
    requires Reachable(s) && Represents(s, m) && state.WellFormed()
    ensures Reachable(t) && Represents(t, Published(m, state).0) && t.readers == s.readers
    ensures t.refused == if Published(m, state).1 then s.refused else s.refused + 1
  {
    hide Reachable, Represents, Published, Solo, Apply, Enabled, Inv;
    ReachableInv(s);
    var n := UndisturbedPublish(s, m, state);
    ReachableStep(s, Request(CellsOf(state)));
    t := Solo(Apply(s, Request(CellsOf(state))), n);
    ReachableSolo(Apply(s, Request(CellsOf(state))), n);
  }

  function BlankState(): (s: CoreState)
    ensures s.WellFormed()
  {
    CoreState(0, 0, false, 0, seq(MAX_DEVICES, _ => DEFAULT_RECORD))
  }

  function BlankMemory(): (m: Memory)
    ensures Fresh(m)
  {
    Memory(seq(SLOTS, _ => Slot(0, BlankState())), seq(SLOTS, _ => 0), 0, 0, 0, 1)
  }

  /** The protocol's initial state with `n` readers, over blank memory. */
  lemma BlankStart(n: nat) returns (s: State)
    ensures Init(s) && Represents(s, BlankMemory()) && |s.readers| == n
    ensures forall q | 0 <= q < n :: s.readers[q].Away?
  {
    var slot := Snapshot(0, CellsOf(BlankState()));
    s := State(seq(SLOTS, _ => slot), seq(SLOTS, _ => 0), 0, 0, 0, 1, Idle, seq(n, _ => Away), [slot],
               CellsOf(BlankState()), [], 0);
    assert s.slots == seq(SLOTS, i => s.slots[0]) && s.readers == seq(|s.readers|, i => Away);
  }

  /** With seven readers or more there is a run in which a publish finds no slot. */
  lemma SevenReadersBlockARun(n: nat) returns (t: State)
    requires n >= SLOTS - 1
    ensures Reachable(t) && |t.readers| == n && t.refused > 0
  {
    hide Reachable, Represents, Published, Init, CellsOf;
    var s := BlankStart(n);
    InitReachable(s);
    var u := PinsPileUpInARun(s, BlankMemory(), BlankState(), SLOTS - 1);
    SevenReadersCanBlock(BlankMemory(), BlankState());
    t := PublishInARun(u, PinThenPublishTimes(BlankMemory(), BlankState(), SLOTS - 1), BlankState());
  }

  /** No publish is refused anywhere in the run. */
  ghost predicate NothingRefused(trace: seq<State>) {
    forall i | 0 <= i < |trace| :: trace[i].refused == 0
  }

  ghost predicate RunOf(trace: seq<State>, steps: seq<Step>, n: nat) {
    Run(trace, steps) && |trace[0].readers| == n
  }

  /** Exactly: no run with `n` readers ever refuses a publish if and only if `n` is at most six. */
  lemma NeverRefusedIffSixReaders(n: nat)
    ensures n <= SLOTS - 2 <==>
            forall trace: seq<State>, steps: seq<Step> | RunOf(trace, steps, n) :: NothingRefused(trace)
  {
    hide Init, Enabled, Apply;
    if n <= SLOTS - 2 {
      forall trace: seq<State>, steps: seq<Step> | RunOf(trace, steps, n) ensures NothingRefused(trace) {
        forall i | 0 <= i < |trace| ensures trace[i].refused == 0 {
          PublishNeverRefused(trace, steps, i);
        }
      }
    } else {
      var t := SevenReadersBlockARun(n);
      var trace: seq<State>, steps: seq<Step> :| EndsIn(trace, steps, t);
      HistoryGrows(trace, steps, 0, |steps|);
      assert RunOf(trace, steps, n) && trace[|steps|].refused > 0;
    }
  }
}
