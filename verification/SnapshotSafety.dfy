/** Safety of the snapshot protocol: a validated pin protects its slot, and what is read through it is one
    completed publish. */
module SnapshotSafety {
  import opened Common
  import opened Counting
  import opened SnapshotProtocol

  function Last(s: State): Snapshot
    requires s.history != []
  {
    s.history[|s.history| - 1]
  }

  /** Readers whose increment of the slot's pin count is outstanding, validated or transient. */
  predicate Holds(r: Reader, slot: nat) {
    (r.Counted? || r.Undoing? || r.Pinned?) && r.slot == slot
  }

  function HoldersOf(readers: seq<Reader>, slot: nat): set<int> {
    set r | 0 <= r < |readers| && Holds(readers[r], slot)
  }

  ghost predicate PinsExact(s: State) {
    |s.pins| == SLOTS && forall slot | 0 <= slot < SLOTS :: s.pins[slot] == |HoldersOf(s.readers, slot)|
  }

  /** The slot the publisher is filling, if it is past its scan. */
  function Target(p: Publisher): Option<nat> {
    match p
    case Writing(next, _, _) => Some(next)
    case WritingId(next, _) => Some(next)
    case StoringId(next, _) => Some(next)
    case StoringActive(next, _) => Some(next)
    case _ => None
  }

  ghost predicate HistoryOrdered(s: State) {
    && s.history != [] && s.slots != []
    && (forall k | 0 <= k < |s.history| :: s.history[k].id == k && |s.history[k].cells| == Width(s))
    && (forall j, k | 0 <= j < k < |s.history| :: s.history[j].cells[0].n < s.history[k].cells[0].n)
  }

  /** What the publisher has done so far, phase by phase. */
  ghost predicate PublisherSane(s: State)
    requires WellSized(s)
  {
    && s.slots[s.active] == Last(s)
    && (Target(s.publisher).Some? ==> Target(s.publisher) != Some(s.active))
    && match s.publisher
       case Idle => Settled(s)
       case Requested(value) => Settled(s) && value == s.requested
       case Scanning(cur, value, _) => Settled(s) && cur == s.active && value == Due(s)
       case Writing(next, value, k) =>
         Settled(s) && value == Due(s) && s.slots[next].cells[..k] == value[..k]
       case WritingId(next, value) => Settled(s) && value == Due(s) && s.slots[next].cells == value
       case StoringId(next, value) =>
         && s.writeIndex == next && s.nextId == |s.history| + 1 && s.activeId == |s.history| - 1
         && value == Due(s) && s.slots[next] == Snapshot(|s.history|, value)
       case StoringActive(next, value) =>
         && s.writeIndex == next && s.nextId == |s.history| + 1 && s.activeId == |s.history|
         && value == Due(s) && s.slots[next] == Snapshot(|s.history|, value)
  }

  /** The state the publish in progress has to install. */
  ghost function Due(s: State): Cells
    requires s.history != []
  {
    WithRevision(s.requested, Last(s).cells)
  }

  ghost predicate Settled(s: State) {
    s.writeIndex == s.active && s.nextId == |s.history| && s.activeId == |s.history| - 1
  }

  /** A pinned reader sees the publish it validated, and the publisher is elsewhere. */
  ghost predicate ReaderSane(s: State, r: Reader)
    requires WellSized(s)
  {
    && !r.Repairing?
    && (r.Pinned? ==>
         && r.slot < SLOTS
         && Target(s.publisher) != Some(r.slot)
         && r.at < |s.history|
         && s.slots[r.slot] == s.history[r.at]
         && (r.id.Some? ==> r.id.value == s.history[r.at].id)
         && r.copied <= s.history[r.at].cells)
  }

  ghost predicate ReadersSane(s: State)
    requires WellSized(s)
  {
    forall r | 0 <= r < |s.readers| :: ReaderSane(s, s.readers[r])
  }

  ghost predicate Inv(s: State) {
    WellSized(s) && HistoryOrdered(s) && PinsExact(s) && PublisherSane(s) && ReadersSane(s)
  }

  // ---------------------------------------------------------------------------------------------
  // Preservation
  // ---------------------------------------------------------------------------------------------

  lemma InitInv(s: State)
    requires Init(s)
    ensures Inv(s)
  {
    forall slot | 0 <= slot < SLOTS ensures |HoldersOf(s.readers, slot)| == 0 {
      assert HoldersOf(s.readers, slot) == {};
    }
  }

  /** One reader moving changes the holders of a slot by at most itself. */
  lemma HoldersAfter(readers: seq<Reader>, r: nat, reader: Reader, slot: nat)
    requires r < |readers|
    ensures |HoldersOf(readers[r := reader], slot)|
         == |HoldersOf(readers, slot)| - (if Holds(readers[r], slot) then 1 else 0)
            + (if Holds(reader, slot) then 1 else 0)
  {
    var without := HoldersOf(readers, slot) - {r};
    assert HoldersOf(readers, slot) == if Holds(readers[r], slot) then without + {r} else without;
    assert HoldersOf(readers[r := reader], slot) == if Holds(reader, slot) then without + {r} else without;
  }

  /** The pin count stays the number of holders; in particular a release never finds it at zero. */
  lemma ReadKeepsPins(s: State, r: nat, op: ReaderOp)
    requires Inv(s) && Enabled(s, Read(r, op))
    ensures PinsExact(ReadStep(s, r, op))
    ensures op == Release ==> ReadStep(s, r, op).readers[r] == Away
  {
    var t := ReadStep(s, r, op);
    if op == Undo || op == Release {
      assert r in HoldersOf(s.readers, s.readers[r].slot);
    }
    forall slot | 0 <= slot < SLOTS ensures t.pins[slot] == |HoldersOf(t.readers, slot)| {
      HoldersAfter(s.readers, r, t.readers[r], slot);
    }
  }

  /** A reader's step touches nothing but the reader itself and the pin counts. */
  lemma ReadTouches(s: State, r: nat, op: ReaderOp)
    requires Enabled(s, Read(r, op))
    ensures var t := ReadStep(s, r, op);
            && |t.readers| == |s.readers|
            && t == s.(readers := s.readers[r := t.readers[r]], pins := t.pins)
  {
  }

  /** What the invariant says about everything else does not depend on the readers and their pins. */
  lemma PinsAside(s: State, readers: seq<Reader>, pins: seq<nat>)
    requires Inv(s) && WellSized(s.(readers := readers, pins := pins))
    ensures var t := s.(readers := readers, pins := pins);
            HistoryOrdered(t) && PublisherSane(t) && forall reader | ReaderSane(s, reader) :: ReaderSane(t, reader)
  {
    hide PinsExact, ReadersSane;
  }

  lemma ReadStaysSized(s: State, r: nat, op: ReaderOp)
    requires Enabled(s, Read(r, op))
    ensures WellSized(ReadStep(s, r, op))
  {
  }

  /** The step leaves its reader sane: a validated pin is on the active slot, hence on the newest publish. */
  lemma ReadKeepsOwnReader(s: State, r: nat, op: ReaderOp)
    requires Inv(s) && Enabled(s, Read(r, op))
    requires op == Release ==> ReadStep(s, r, op).readers[r] == Away
    ensures r < |ReadStep(s, r, op).readers| && ReaderSane(s, ReadStep(s, r, op).readers[r])
  {
    hide PinsExact, HistoryOrdered;
    assert ReaderSane(s, s.readers[r]);
  }

  lemma ReadKeepsInv(s: State, r: nat, op: ReaderOp)
    requires Inv(s) && Enabled(s, Read(r, op))
    ensures Inv(ReadStep(s, r, op))
  {
    var t := ReadStep(s, r, op);
    ReadKeepsPins(s, r, op);
    ReadTouches(s, r, op);
    ReadStaysSized(s, r, op);
    PinsAside(s, t.readers, t.pins);
    ReadKeepsOwnReader(s, r, op);
    hide WellSized, HistoryOrdered, PublisherSane, PinsExact, ReaderSane, ReadStep, Enabled;
    forall q | 0 <= q < |t.readers| ensures ReaderSane(t, t.readers[q]) {
      if q != r {
        assert ReaderSane(s, s.readers[q]);
      }
    }
  }

  /** The scan's verdict is what keeps pinned slots safe: a slot whose count is zero has no pinned reader. */
  lemma ZeroPinsMeansUnpinned(s: State, slot: nat, r: nat)
    requires Inv(s) && slot < SLOTS && s.pins[slot] == 0 && r < |s.readers| && s.readers[r].Pinned?
    ensures s.readers[r].slot != slot
  {
    assert r !in HoldersOf(s.readers, slot);
  }

  lemma PublishKeepsReaders(s: State)
    requires Inv(s) && s.publisher != Idle
    requires WellSized(PublishStep(s))
    ensures ReadersSane(PublishStep(s))
  {
    var t := PublishStep(s);
    forall r | 0 <= r < |t.readers| ensures ReaderSane(t, t.readers[r]) {
      assert ReaderSane(s, s.readers[r]);
      if Target(t.publisher).Some? && Target(s.publisher).None? && s.readers[r].Pinned? {
        ZeroPinsMeansUnpinned(s, Target(t.publisher).value, r);
      }
    }
  }

  lemma ScanKeepsWriter(s: State)
    requires Inv(s) && (s.publisher.Requested? || s.publisher.Scanning?)
    ensures WellSized(PublishStep(s)) && HistoryOrdered(PublishStep(s)) && PublisherSane(PublishStep(s))
  {
    hide PinsExact, ReadersSane;
  }

  /** Filling the slot, cell by cell: what is written so far is the prefix of the value due. */
  lemma WriteKeepsWriter(s: State)
    requires Inv(s) && s.publisher.Writing?
    ensures WellSized(PublishStep(s)) && HistoryOrdered(PublishStep(s)) && PublisherSane(PublishStep(s))
  {
    hide PinsExact, ReadersSane;
    var t, next, value, k := PublishStep(s), s.publisher.next, s.publisher.value, s.publisher.k;
    if k < Width(s) {
      assert value[..k + 1] == value[..k] + [value[k]];
      assert t.slots[next].cells[..k + 1] == s.slots[next].cells[..k] + [value[k]];
    } else {
      assert s.slots[next].cells[..Width(s)] == s.slots[next].cells && value[..Width(s)] == value;
    }
  }

  lemma InstallKeepsWriter(s: State)
    requires Inv(s) && (s.publisher.WritingId? || s.publisher.StoringId?)
    ensures WellSized(PublishStep(s)) && HistoryOrdered(PublishStep(s)) && PublisherSane(PublishStep(s))
  {
    hide PinsExact, ReadersSane;
  }

  /** The store that makes the new slot active completes the publish. */
  lemma CompletionKeepsWriter(s: State)
    requires Inv(s) && s.publisher.StoringActive?
    ensures WellSized(PublishStep(s)) && HistoryOrdered(PublishStep(s)) && PublisherSane(PublishStep(s))
  {
    hide PinsExact, ReadersSane;
  }

  lemma PublishKeepsWriter(s: State)
    requires Inv(s) && s.publisher != Idle
    ensures WellSized(PublishStep(s)) && HistoryOrdered(PublishStep(s)) && PublisherSane(PublishStep(s))
  {
    hide Inv, WellSized, HistoryOrdered, PublisherSane, PublishStep;
    if s.publisher.Requested? || s.publisher.Scanning? {
      ScanKeepsWriter(s);
    } else if s.publisher.Writing? {
      WriteKeepsWriter(s);
    } else if s.publisher.StoringActive? {
      CompletionKeepsWriter(s);
    } else {
      InstallKeepsWriter(s);
    }
  }

  lemma StepKeepsInv(s: State, step: Step)
    requires Inv(s) && Enabled(s, step)
    ensures Inv(Apply(s, step))
  {
    match step {
      case Request(value) =>
        forall r | 0 <= r < |s.readers| ensures ReaderSane(Apply(s, step), s.readers[r]) {
          assert ReaderSane(s, s.readers[r]);
        }
      case Publish =>
        PublishKeepsWriter(s);
        PublishKeepsReaders(s);
        assert PinsExact(PublishStep(s));
      case Read(r, op) =>
        ReadKeepsInv(s, r, op);
    }
  }

  lemma {:induction false} RunInv(trace: seq<State>, steps: seq<Step>, i: nat)
    requires Run(trace, steps) && i <= |steps|
    ensures Inv(trace[i])
  {
    if i == 0 {
      InitInv(trace[0]);
    } else {
      RunInv(trace, steps, i - 1);
      StepKeepsInv(trace[i - 1], steps[i - 1]);
    }
  }

  // ---------------------------------------------------------------------------------------------
  // What readers get
  // ---------------------------------------------------------------------------------------------

  /** In every reachable state the pin counts are exact and the advertised id is that of the active slot, or
      of the publish about to become active. */
  lemma ReachableBookkeeping(trace: seq<State>, steps: seq<Step>, i: nat)
    requires Run(trace, steps) && i <= |steps|
    ensures WellSized(trace[i])
    ensures forall slot | 0 <= slot < SLOTS :: trace[i].pins[slot] == |HoldersOf(trace[i].readers, slot)|
    ensures forall r | 0 <= r < |trace[i].readers| :: !trace[i].readers[r].Repairing?
    ensures trace[i].activeId != trace[i].slots[trace[i].active].id ==>
              trace[i].publisher.StoringActive?
              && trace[i].activeId == trace[i].slots[trace[i].publisher.next].id == |trace[i].history|
  {
    RunInv(trace, steps, i);
    forall r | 0 <= r < |trace[i].readers| ensures !trace[i].readers[r].Repairing? {
      assert ReaderSane(trace[i], trace[i].readers[r]);
    }
  }

  lemma StepGrowsHistory(s: State, step: Step)
    requires Enabled(s, step)
    ensures s.history <= Apply(s, step).history && |Apply(s, step).readers| == |s.readers|
  {
  }

  /** Completed publishes are never forgotten or reordered. */
  lemma {:induction false} HistoryGrows(trace: seq<State>, steps: seq<Step>, i: nat, j: nat)
    requires Run(trace, steps) && i <= j <= |steps|
    ensures trace[i].history <= trace[j].history
    ensures |trace[i].readers| == |trace[j].readers|
  {
    hide Apply, Enabled, Init;
    if i < j {
      HistoryGrows(trace, steps, i, j - 1);
      StepGrowsHistory(trace[j - 1], steps[j - 1]);
    }
  }

  /** A completing publish appends exactly the state requested, its revision raised above the previous one
      when it was not already. */
  lemma PublishInstallsRequest(trace: seq<State>, steps: seq<Step>, i: nat)
    requires Run(trace, steps) && i < |steps| && trace[i].publisher.StoringActive? && steps[i] == Publish
    ensures var prev := trace[i].history[|trace[i].history| - 1];
            trace[i + 1].history
            == trace[i].history + [Snapshot(prev.id + 1, WithRevision(trace[i].requested, prev.cells))]
    ensures trace[i + 1].slots[trace[i + 1].active] == trace[i + 1].history[|trace[i].history|]
  {
    RunInv(trace, steps, i);
    RunInv(trace, steps, i + 1);
  }

  ghost predicate PinnedThroughout(trace: seq<State>, i: nat, j: nat, r: nat) {
    i <= j < |trace| && forall k | i <= k <= j :: r < |trace[k].readers| && trace[k].readers[r].Pinned?
  }

  lemma PinnedSlotContent(s: State, r: nat)
    requires Inv(s) && r < |s.readers| && s.readers[r].Pinned?
    ensures s.readers[r].slot < SLOTS == |s.slots| && s.readers[r].at < |s.history|
    ensures s.slots[s.readers[r].slot] == s.history[s.readers[r].at]
  {
    assert ReaderSane(s, s.readers[r]);
  }

  /** No single step writes a pinned slot or moves a pin. */
  lemma StepKeepsPinnedSlot(s: State, step: Step, r: nat)
    requires Inv(s) && Enabled(s, step) && r < |s.readers| && s.readers[r].Pinned?
    requires r < |Apply(s, step).readers| && Apply(s, step).readers[r].Pinned?
    ensures |s.slots| == |Apply(s, step).slots| == SLOTS
    ensures var t := Apply(s, step);
            && t.readers[r].slot == s.readers[r].slot < SLOTS
            && t.readers[r].at == s.readers[r].at < |s.history|
            && t.slots[s.readers[r].slot] == s.slots[s.readers[r].slot] == s.history[s.readers[r].at]
  {
    assert ReaderSane(s, s.readers[r]);
    if step == Publish && s.publisher != Idle && Target(s.publisher).None?
       && Target(PublishStep(s).publisher).Some? {
      ZeroPinsMeansUnpinned(s, Target(PublishStep(s).publisher).value, r);
    }
  }

  /** From validation to release, no step of anyone writes the pinned slot. */
  lemma {:induction false} PinProtectsSlot(trace: seq<State>, steps: seq<Step>, i: nat, j: nat, r: nat)
    requires Run(trace, steps) && PinnedThroughout(trace, i, j, r)
    ensures trace[j].readers[r].slot == trace[i].readers[r].slot < SLOTS
    ensures trace[j].readers[r].at == trace[i].readers[r].at < |trace[i].history|
    ensures |trace[i].slots| == |trace[j].slots| == SLOTS
    ensures trace[j].slots[trace[i].readers[r].slot] == trace[i].slots[trace[i].readers[r].slot]
         == trace[i].history[trace[i].readers[r].at]
  {
    hide Inv, Apply, Enabled, Init;
    RunInv(trace, steps, i);
    PinnedSlotContent(trace[i], r);
    if i < j {
      PinProtectsSlot(trace, steps, i, j - 1, r);
      RunInv(trace, steps, j - 1);
      StepKeepsPinnedSlot(trace[j - 1], steps[j - 1], r);
    }
  }

  /** A validated pin is a pin on the newest completed publish; everything copied through it afterwards is
      that publish, whole. `v` is the validating step, `j` the moment the copy is complete. */
  lemma PinnedReadIsOnePublish(trace: seq<State>, steps: seq<Step>, v: nat, j: nat, r: nat)
    requires Run(trace, steps) && v < |steps| && steps[v] == Read(r, Validate)
    requires PinnedThroughout(trace, v + 1, j, r)
    ensures var newest := trace[v].history[|trace[v].history| - 1];
            var reader := trace[j].readers[r];
            && reader.copied <= newest.cells
            && (|reader.copied| == |newest.cells| ==> reader.copied == newest.cells)
            && (reader.id.Some? ==> reader.id.value == newest.id == |trace[v].history| - 1)
  {
    RunInv(trace, steps, v);
    RunInv(trace, steps, j);
    PinProtectsSlot(trace, steps, v + 1, j, r);
    HistoryGrows(trace, steps, v + 1, j);
    assert trace[v + 1] == Apply(trace[v], steps[v]);
    assert ReaderSane(trace[j], trace[j].readers[r]);
  }

  /** Reads never go back in time: of two validated pins, the later one sees the same publish or a newer one,
      with a larger revision. */
  lemma ReadsAreMonotone(trace: seq<State>, steps: seq<Step>, v: nat, w: nat, r: nat, q: nat)
    requires Run(trace, steps) && v <= w < |steps|
    requires steps[v] == Read(r, Validate) && steps[w] == Read(q, Validate)
    requires trace[v + 1].readers[r].Pinned? && trace[w + 1].readers[q].Pinned?
    ensures var a, b := trace[v + 1].readers[r], trace[w + 1].readers[q];
            && a.at <= b.at < |trace[w].history|
            && (a.at < b.at ==> trace[w].history[a.at].cells[0].n < trace[w].history[b.at].cells[0].n)
  {
    RunInv(trace, steps, v);
    RunInv(trace, steps, w);
    HistoryGrows(trace, steps, v, w);
    assert trace[v + 1] == Apply(trace[v], steps[v]);
    assert trace[w + 1] == Apply(trace[w], steps[w]);
  }
}
