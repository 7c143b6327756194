/** Eight slots suffice for six readers: a publish then always finds a slot. */
module SnapshotCapacity {
  import opened Common
  import opened Counting
  import opened SnapshotProtocol
  import opened SnapshotSafety

  /** The reader is somewhere in the pin protocol on a slot other than `cur`. */
  predicate Strays(r: Reader, cur: nat) {
    !r.Away? && r.slot != cur
  }

  /** While a scan runs the active slot is fixed, so a reader can only stay on, or leave, the stray slot it
      stood on when the scan began; and each rejected slot was such a slot. */
  ghost predicate ScanAccounted(s: State) {
    s.publisher.Scanning? ==>
      && |s.scanStart| == |s.readers|
      && (forall r | 0 <= r < |s.readers| && Strays(s.readers[r], s.publisher.cur) ::
           Strays(s.scanStart[r], s.publisher.cur) && s.scanStart[r].slot == s.readers[r].slot)
      && (forall i | 0 <= i < s.publisher.i :: Rejected(s, Candidate(s.writeIndex, i)))
  }

  ghost predicate Rejected(s: State, slot: nat)
    requires s.publisher.Scanning?
  {
    slot == s.publisher.cur || StrayAt(s.scanStart, s.publisher.cur, slot)
  }

  ghost predicate StrayAt(readers: seq<Reader>, cur: nat, slot: nat) {
    exists r :: 0 <= r < |readers| && Strays(readers[r], cur) && readers[r].slot == slot
  }

  lemma ScanUsesActive(s: State)
    requires Inv(s)
    ensures s.publisher.Scanning? ==> s.publisher.cur == s.active
  {
  }

  /** A slot the scan rejects is the active one or held by a reader that was on it when the scan began. */
  lemma ScanRejects(s: State)
    requires Inv(s) && ScanAccounted(s) && s.publisher.Scanning? && s.publisher.i < SLOTS
    requires PublishStep(s).publisher.Scanning?
    ensures Rejected(s, Candidate(s.writeIndex, s.publisher.i))
  {
    hide HistoryOrdered, PublisherSane, ReadersSane;
    var slot := Candidate(s.writeIndex, s.publisher.i);
    if slot != s.publisher.cur {
      assert HoldersOf(s.readers, slot) != {};
      var r :| r in HoldersOf(s.readers, slot);
      assert Strays(s.readers[r], s.publisher.cur);
      assert StrayAt(s.scanStart, s.publisher.cur, slot);
    }
  }

  lemma PublishKeepsScanAccounted(s: State)
    requires Inv(s) && ScanAccounted(s) && s.publisher != Idle
    ensures ScanAccounted(PublishStep(s))
  {
    var t := PublishStep(s);
    if s.publisher.Scanning? && t.publisher.Scanning? {
      ScanRejects(s);
      hide HistoryOrdered, PublisherSane, ReadersSane, PinsExact;
      forall i | 0 <= i < t.publisher.i ensures Rejected(t, Candidate(t.writeIndex, i)) {
        assert Rejected(s, Candidate(s.writeIndex, i));
      }
    }
  }

  lemma ReadKeepsScanAccounted(s: State, r: nat, op: ReaderOp)
    requires Inv(s) && ScanAccounted(s) && Enabled(s, Read(r, op))
    ensures ScanAccounted(ReadStep(s, r, op))
  {
    ScanUsesActive(s);
    ReadTouches(s, r, op);
    var t := ReadStep(s, r, op);
    assert Strays(t.readers[r], s.active) ==> Strays(s.readers[r], s.active) && t.readers[r].slot == s.readers[r].slot;
    hide HistoryOrdered, PublisherSane, ReadersSane, PinsExact, ReadStep, Enabled;
    if s.publisher.Scanning? {
      forall i | 0 <= i < t.publisher.i ensures Rejected(t, Candidate(t.writeIndex, i)) {
        assert Rejected(s, Candidate(s.writeIndex, i));
      }
    }
  }

  lemma StepKeepsScanAccounted(s: State, step: Step)
    requires Inv(s) && ScanAccounted(s) && Enabled(s, step)
    ensures ScanAccounted(Apply(s, step))
  {
    hide Inv, PublishStep, ReadStep;
    match step
    case Request(value) =>
    case Publish => PublishKeepsScanAccounted(s);
    case Read(r, op) => ReadKeepsScanAccounted(s, r, op);
  }

  lemma {:induction false} RunScanAccounted(trace: seq<State>, steps: seq<Step>, i: nat)
    requires Run(trace, steps) && i <= |steps|
    ensures ScanAccounted(trace[i])
  {
    if i > 0 {
      RunScanAccounted(trace, steps, i - 1);
      RunInv(trace, steps, i - 1);
      StepKeepsScanAccounted(trace[i - 1], steps[i - 1]);
    }
  }

  function StraySlots(readers: seq<Reader>, cur: nat): set<nat> {
    set r | 0 <= r < |readers| && Strays(readers[r], cur) :: readers[r].slot
  }

  lemma {:induction false} FewReadersFewStrays(readers: seq<Reader>, cur: nat)
    ensures |StraySlots(readers, cur)| <= |readers|
  {
    if readers == [] {
      assert StraySlots(readers, cur) == {};
    } else {
      var n := |readers| - 1;
      var init := readers[..n];
      FewReadersFewStrays(init, cur);
      assert readers == init + [readers[n]];
      var more: set<nat> := if Strays(readers[n], cur) then {readers[n].slot} else {};
      assert StraySlots(readers, cur) == StraySlots(init, cur) + more;
    }
  }

  lemma StraysAreSlots(readers: seq<Reader>, cur: nat, slot: nat)
    requires StrayAt(readers, cur, slot)
    ensures slot in StraySlots(readers, cur)
  {
    var r :| 0 <= r < |readers| && Strays(readers[r], cur) && readers[r].slot == slot;
    assert readers[r].slot in StraySlots(readers, cur);
  }

  /** A scan that runs off its end has met seven readers: when it began, each of the seven slots other than the active
      one had a reader on it. */
  lemma FailedScanNeedsSevenReaders(s: State)
    requires Inv(s) && ScanAccounted(s) && s.publisher.Scanning? && s.publisher.i == SLOTS
    ensures forall slot: nat | slot < SLOTS && slot != s.publisher.cur :: StrayAt(s.scanStart, s.publisher.cur, slot)
    ensures |s.readers| == |s.scanStart| >= SLOTS - 1
  {
    hide PinsExact, HistoryOrdered, ReadersSane, StraySlots;
    var cur := s.publisher.cur;
    var strays := StraySlots(s.scanStart, cur);
    forall slot: nat | slot < SLOTS && slot != cur ensures StrayAt(s.scanStart, cur, slot) && slot in strays {
      var i := ScanVisitsAll(s.writeIndex, slot);
      assert Rejected(s, Candidate(s.writeIndex, i));
      StraysAreSlots(s.scanStart, cur, slot);
    }
    var ints: set<int> := set x | x in strays;
    assert Range(SLOTS) - {cur} <= ints;
    SubsetSize(Range(SLOTS) - {cur}, ints);
    assert ints == strays;
    FewReadersFewStrays(s.scanStart, cur);
  }

  /** With at most six readers, no publish of any run is ever refused. */
  lemma {:induction false} PublishNeverRefused(trace: seq<State>, steps: seq<Step>, i: nat)
    requires Run(trace, steps) && i <= |steps|
    requires |trace[0].readers| <= SLOTS - 2
    ensures trace[i].refused == 0
  {
    hide Inv, ScanAccounted, Apply, Enabled;
    if i > 0 {
      PublishNeverRefused(trace, steps, i - 1);
      RunInv(trace, steps, i - 1);
      RunScanAccounted(trace, steps, i - 1);
      HistoryGrows(trace, steps, 0, i - 1);
      RefusalEndsScan(trace[i - 1], steps[i - 1]);
      if trace[i - 1].publisher.Scanning? && trace[i - 1].publisher.i == SLOTS {
        FailedScanNeedsSevenReaders(trace[i - 1]);
      }
    }
  }

  lemma RefusalEndsScan(s: State, step: Step)
    requires Enabled(s, step)
    ensures Apply(s, step).refused == s.refused || (s.publisher.Scanning? && s.publisher.i == SLOTS)
  {
  }
}
