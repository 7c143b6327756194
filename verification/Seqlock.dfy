/** The seqlock behind every read model: one writer, any number of readers, one step per load or store.
    Values are copied cell by cell, so an interleaved copy really mixes two values. */
module Seqlock {
  import opened Common

  type Value = seq<int>

  datatype Writer =
    | Resting
    | SeqLoaded(start: nat, value: Value)
    | Storing(start: nat, value: Value, k: nat)
    | Stored

  /** `began` and `at` are auxiliary: the newest completed store when the call began, and the one accepted. */
  datatype Reader =
    | Away
    | Trying(began: nat)
    | Copying(began: nat, start: nat, copied: Value)
    | Accepted(began: nat, at: nat, value: Value)
    | NotReady

  /** `guarded` storages answer only once their ready flag is set; the network and config models have none. */
  datatype State = State(
    guarded: bool,
    sequence: nat,
    ready: bool,
    cells: Value,
    writer: Writer,
    readers: seq<Reader>,
    // completed stores, the initial value first
    history: seq<Value>)

  datatype ReaderOp = Begin | LoadStart | CopyCell | LoadEnd | Return

  datatype Step = Store(value: Value) | Write | Read(r: nat, op: ReaderOp)

  ghost predicate Init(s: State) {
    && s.sequence == 0 && !s.ready && s.writer == Resting
    && (forall r | 0 <= r < |s.readers| :: s.readers[r] == Away)
    && s.history == [s.cells]
  }

  predicate WellSized(s: State) {
    && s.history != []
    && (s.writer.SeqLoaded? || s.writer.Storing? ==> |s.writer.value| == |s.cells|)
    && (s.writer.Storing? ==> s.writer.k <= |s.cells|)
  }

  predicate Enabled(s: State, step: Step) {
    WellSized(s) &&
    match step
    case Store(value) => s.writer == Resting && |value| == |s.cells|
    case Write => s.writer != Resting
    case Read(r, op) =>
      r < |s.readers| &&
      match op
      case Begin => s.readers[r].Away?
      case LoadStart => s.readers[r].Trying?
      case CopyCell => s.readers[r].Copying? && |s.readers[r].copied| < |s.cells|
      case LoadEnd => s.readers[r].Copying? && |s.readers[r].copied| == |s.cells|
      case Return => s.readers[r].Accepted? || s.readers[r].NotReady?
  }

  function WriteStep(s: State): State
    requires WellSized(s) && s.writer != Resting
  {
    match s.writer
    case SeqLoaded(start, value) => s.(sequence := start + 1, writer := Storing(start, value, 0))
    case Storing(start, value, k) =>
      if k < |s.cells| then s.(cells := s.cells[k := value[k]], writer := Storing(start, value, k + 1))
      else s.(sequence := start + 2, writer := Stored, history := s.history + [value])
    case Stored => s.(ready := s.ready || s.guarded, writer := Resting)
  }

  function ReadStep(s: State, r: nat, op: ReaderOp): State
    requires Enabled(s, Read(r, op))
  {
    var reader := s.readers[r];
    var newest: nat := |s.history| - 1;
    s.(readers := s.readers[r :=
      match op
      case Begin => if s.guarded && !s.ready then NotReady else Trying(newest)
      case LoadStart => if s.sequence % 2 == 1 then reader else Copying(reader.began, s.sequence, [])
      case CopyCell => reader.(copied := reader.copied + [s.cells[|reader.copied|]])
      case LoadEnd =>
        if s.sequence == reader.start then Accepted(reader.began, newest, reader.copied) else Trying(reader.began)
      case Return => Away])
  }

  function Apply(s: State, step: Step): State
    requires Enabled(s, step)
  {
    match step
    case Store(value) => s.(writer := SeqLoaded(s.sequence, value))
    case Write => WriteStep(s)
    case Read(r, op) => ReadStep(s, r, op)
  }

  ghost predicate Run(trace: seq<State>, steps: seq<Step>) {
    && |trace| == |steps| + 1
    && Init(trace[0])
    && (forall i | 0 <= i < |steps| :: Enabled(trace[i], steps[i]) && trace[i + 1] == Apply(trace[i], steps[i]))
  }

  function Newest(s: State): Value
    requires s.history != []
  {
    s.history[|s.history| - 1]
  }

  /** The sequence number counts completed stores twice and is odd exactly while a store is under way; outside
      a store the cells hold the newest value, inside it they hold a mix. */
  ghost predicate WriterSane(s: State) {
    && WellSized(s)
    && (forall k | 0 <= k < |s.history| :: |s.history[k]| == |s.cells|)
    && s.sequence == 2 * (|s.history| - 1) + (if s.writer.Storing? then 1 else 0)
    && (s.ready ==> |s.history| >= 2)
    && (s.writer == Stored ==> |s.history| >= 2)
    && (s.writer.SeqLoaded? ==> s.writer.start == s.sequence)
    && (if s.writer.Storing?
        then s.writer.start + 1 == s.sequence
             && s.cells == s.writer.value[..s.writer.k] + Newest(s)[s.writer.k..]
        else s.cells == Newest(s))
  }

  ghost predicate ReaderSane(s: State, r: Reader)
    requires s.history != []
  {
    match r
    case Away => true
    case NotReady => s.guarded
    case Trying(began) => began < |s.history| && (s.guarded ==> began >= 1)
    case Copying(began, start, copied) =>
      && began < |s.history| && (s.guarded ==> began >= 1)
      && start % 2 == 0 && 2 * began <= start <= s.sequence
      && |copied| <= |s.cells|
      && (start == s.sequence ==> copied <= Newest(s))
    case Accepted(began, at, value) =>
      began <= at < |s.history| && value == s.history[at] && (s.guarded ==> at >= 1)
  }

  ghost predicate Inv(s: State) {
    WriterSane(s) && forall r | 0 <= r < |s.readers| :: ReaderSane(s, s.readers[r])
  }

  lemma WriteKeepsWriterSane(s: State)
    requires WriterSane(s) && s.writer != Resting
    ensures WriterSane(WriteStep(s))
  {
    var t := WriteStep(s);
    if s.writer.Storing? {
      var k, value := s.writer.k, s.writer.value;
      if k < |s.cells| {
        assert value[..k + 1] == value[..k] + [value[k]];
        assert t.cells == value[..k + 1] + Newest(s)[k + 1..];
      } else {
        assert s.cells == value;
      }
    } else if s.writer.SeqLoaded? {
      assert t.cells == t.writer.value[..0] + Newest(t)[0..];
    }
  }

  lemma WriteKeepsReaders(s: State)
    requires Inv(s) && s.writer != Resting
    ensures forall r | 0 <= r < |s.readers| :: ReaderSane(WriteStep(s), s.readers[r])
  {
    var t := WriteStep(s);
    forall r | 0 <= r < |s.readers| ensures ReaderSane(t, s.readers[r]) {
      assert ReaderSane(s, s.readers[r]);
    }
  }

  /** An even sequence number means no store is under way, and the cells are the newest value. */
  lemma EvenMeansQuiet(s: State)
    requires WriterSane(s)
    ensures s.sequence % 2 == 0 ==> s.cells == Newest(s) && s.sequence == 2 * (|s.history| - 1)
    ensures 2 * (|s.history| - 1) <= s.sequence && |Newest(s)| == |s.cells|
  {
  }

  lemma CopyKeepsReader(s: State, r: Reader)
    requires WriterSane(s) && ReaderSane(s, r) && r.Copying? && |r.copied| < |s.cells|
    ensures ReaderSane(s, r.(copied := r.copied + [s.cells[|r.copied|]]))
  {
    EvenMeansQuiet(s);
    hide WriterSane;
  }

  /** The reader that moved is sane: what it has copied under an unchanged even sequence number is a prefix of the
      newest value. */
  lemma ReadKeepsOwnReader(s: State, r: nat, op: ReaderOp)
    requires WriterSane(s) && Enabled(s, Read(r, op)) && ReaderSane(s, s.readers[r])
    ensures ReaderSane(s, ReadStep(s, r, op).readers[r])
  {
    EvenMeansQuiet(s);
    if op == CopyCell {
      CopyKeepsReader(s, s.readers[r]);
    } else if op == Begin {
      assert s.guarded && s.ready ==> |s.history| >= 2;
    }
  }

  /** A read touches nothing but its reader, and nobody's sanity depends on other readers. */
  lemma ReadTouches(s: State, r: nat, op: ReaderOp)
    requires WriterSane(s) && Enabled(s, Read(r, op))
    ensures var t := ReadStep(s, r, op);
            && |t.readers| == |s.readers| && t == s.(readers := s.readers[r := t.readers[r]])
            && WriterSane(t) && forall reader | ReaderSane(s, reader) :: ReaderSane(t, reader)
  {
  }

  lemma ReadKeepsInv(s: State, r: nat, op: ReaderOp)
    requires Inv(s) && Enabled(s, Read(r, op))
    ensures Inv(ReadStep(s, r, op))
  {
    var t := ReadStep(s, r, op);
    ReadTouches(s, r, op);
    ReadKeepsOwnReader(s, r, op);
    hide WriterSane, ReaderSane, ReadStep, Enabled;
    forall q | 0 <= q < |t.readers| ensures ReaderSane(t, t.readers[q]) {
      if q != r {
        assert ReaderSane(s, s.readers[q]);
      }
    }
  }

  lemma StepKeepsInv(s: State, step: Step)
    requires Inv(s) && Enabled(s, step)
    ensures Inv(Apply(s, step))
  {
    match step {
      case Store(value) =>
        forall r | 0 <= r < |s.readers| ensures ReaderSane(Apply(s, step), s.readers[r]) {
          assert ReaderSane(s, s.readers[r]);
        }
      case Write =>
        WriteKeepsWriterSane(s);
        WriteKeepsReaders(s);
      case Read(r, op) =>
        ReadKeepsInv(s, r, op);
    }
  }

  lemma {:induction false} RunInv(trace: seq<State>, steps: seq<Step>, i: nat)
    requires Run(trace, steps) && i <= |steps|
    ensures Inv(trace[i])
  {
    hide Inv, Apply, Enabled, Init;
    if i > 0 {
      RunInv(trace, steps, i - 1);
      StepKeepsInv(trace[i - 1], steps[i - 1]);
    } else {
      InitInv(trace[0]);
    }
  }

  lemma InitInv(s: State)
    requires Init(s)
    ensures Inv(s)
  {
  }

  lemma {:induction false} HistoryGrows(trace: seq<State>, steps: seq<Step>, i: nat, j: nat)
    requires Run(trace, steps) && i <= j <= |steps|
    ensures trace[i].history <= trace[j].history
    ensures trace[i].guarded == trace[j].guarded
  {
    if i < j {
      HistoryGrows(trace, steps, i, j - 1);
      assert trace[j] == Apply(trace[j - 1], steps[j - 1]);
    }
  }

  /** What a read returns is one value, written completely by one store (or the initial one, never for a
      guarded storage), at least as new as the newest store completed before the read began, and still the
      newest at the moment the read is accepted. */
  lemma AcceptedReadIsOneStore(trace: seq<State>, steps: seq<Step>, i: nat, r: nat)
    requires Run(trace, steps) && i < |steps| && steps[i] == Read(r, LoadEnd)
    requires trace[i + 1].readers[r].Accepted?
    ensures var reader := trace[i + 1].readers[r];
            && reader.value == trace[i].history[|trace[i].history| - 1] == trace[i].cells
            && reader.began <= |trace[i].history| - 1
            && (trace[i].guarded ==> |trace[i].history| >= 2)
  {
    RunInv(trace, steps, i);
    RunInv(trace, steps, i + 1);
    assert trace[i + 1] == Apply(trace[i], steps[i]);
    assert ReaderSane(trace[i], trace[i].readers[r]);
    assert ReaderSane(trace[i + 1], trace[i + 1].readers[r]);
  }

  /** A read is retried only because a store ran into it: one completed since its start, or is under way. */
  lemma RetryMeansOverlap(trace: seq<State>, steps: seq<Step>, i: nat, r: nat)
    requires Run(trace, steps) && i < |steps| && steps[i] == Read(r, LoadEnd)
    ensures trace[i + 1].readers[r].Trying? <==>
              trace[i].writer.Storing? || trace[i].readers[r].start < 2 * (|trace[i].history| - 1)
  {
    RunInv(trace, steps, i);
    assert ReaderSane(trace[i], trace[i].readers[r]);
    assert trace[i + 1] == Apply(trace[i], steps[i]);
  }

  /** Of two accepted reads, in whatever threads, the later never returns an older value: both values are completed
      stores, and the later read's stands no earlier in the history. */
  lemma ReadsAreMonotone(trace: seq<State>, steps: seq<Step>, i: nat, j: nat, r: nat, q: nat)
    requires Run(trace, steps) && i <= j < |steps|
    requires steps[i] == Read(r, LoadEnd) && steps[j] == Read(q, LoadEnd)
    requires trace[i + 1].readers[r].Accepted? && trace[j + 1].readers[q].Accepted?
    ensures var first, second := trace[i + 1].readers[r], trace[j + 1].readers[q];
            && first.at <= second.at < |trace[j].history|
            && first.value == trace[j].history[first.at] && second.value == trace[j].history[second.at]
  {
    AcceptedReadIsOneStore(trace, steps, i, r);
    AcceptedReadIsOneStore(trace, steps, j, q);
    HistoryGrows(trace, steps, i, j);
    assert trace[i + 1] == Apply(trace[i], steps[i]);
    assert trace[j + 1] == Apply(trace[j], steps[j]);
  }

  /** A reader already past its check of a guarded storage can rely on a completed store; a refusal is only
      ever given by a guarded storage. */
  lemma ReadyMeansStored(trace: seq<State>, steps: seq<Step>, i: nat)
    requires Run(trace, steps) && i <= |steps|
    ensures trace[i].ready ==> |trace[i].history| >= 2
    ensures forall r | 0 <= r < |trace[i].readers| && trace[i].readers[r].NotReady? :: trace[i].guarded
  {
    RunInv(trace, steps, i);
    forall r | 0 <= r < |trace[i].readers| && trace[i].readers[r].NotReady? ensures trace[i].guarded {
      assert ReaderSane(trace[i], trace[i].readers[r]);
    }
  }

  // ---------------------------------------------------------------------------------------------
  // When a read is answered
  // ---------------------------------------------------------------------------------------------

  /** Step `j` is the last step of a store: the one after its sequence number became even again. */
  ghost predicate FinishesStore(trace: seq<State>, steps: seq<Step>, j: nat)
    requires |trace| == |steps| + 1 && j < |steps|
  {
    steps[j] == Write && trace[j].writer == Stored && trace[j + 1].writer == Resting
  }

  lemma GuardedNeverChanges(trace: seq<State>, steps: seq<Step>, i: nat, j: nat)
    requires Run(trace, steps) && i <= j <= |steps|
    ensures trace[i].guarded == trace[j].guarded
  {
    HistoryGrows(trace, steps, i, j);
  }

  /** The ready flag of a guarded storage is up exactly when some store has finished. */
  lemma {:induction false} ReadyIffFinished(trace: seq<State>, steps: seq<Step>, i: nat)
    requires Run(trace, steps) && i <= |steps| && trace[0].guarded
    ensures trace[i].ready <==> exists j :: 0 <= j < i && FinishesStore(trace, steps, j)
  {
    if i > 0 {
      ReadyIffFinished(trace, steps, i - 1);
      GuardedNeverChanges(trace, steps, 0, i - 1);
      ReadyStep(trace[i - 1], steps[i - 1]);
      assert trace[i] == Apply(trace[i - 1], steps[i - 1]);
      assert FinishesStore(trace, steps, i - 1) <==> steps[i - 1] == Write && trace[i - 1].writer == Stored;
      hide Apply, Enabled;
    }
  }

  lemma ReadyStep(s: State, step: Step)
    requires Enabled(s, step)
    ensures var t := Apply(s, step);
            && (step == Write && s.writer == Stored ==> t.writer == Resting && t.ready == (s.ready || s.guarded))
            && (!(step == Write && s.writer == Stored) ==> t.ready == s.ready)
  {
  }

  /** A load is turned away exactly when the storage is guarded and no store has finished before; so once one has,
      every load goes ahead. */
  lemma RefusedIffNothingFinished(trace: seq<State>, steps: seq<Step>, i: nat, r: nat)
    requires Run(trace, steps) && i < |steps| && steps[i] == Read(r, Begin)
    ensures r < |trace[i + 1].readers|
    ensures trace[i + 1].readers[r].NotReady? <==>
              trace[0].guarded && !exists j :: 0 <= j < i && FinishesStore(trace, steps, j)
    ensures !trace[i + 1].readers[r].NotReady? ==> trace[i + 1].readers[r].Trying?
  {
    GuardedNeverChanges(trace, steps, 0, i);
    if trace[0].guarded {
      ReadyIffFinished(trace, steps, i);
    }
    assert trace[i + 1] == Apply(trace[i], steps[i]);
  }

  /** A try starts copying exactly when no store is under way. */
  lemma CopyStartsIffQuiet(trace: seq<State>, steps: seq<Step>, i: nat, r: nat)
    requires Run(trace, steps) && i < |steps| && steps[i] == Read(r, LoadStart)
    ensures r < |trace[i + 1].readers|
    ensures trace[i + 1].readers[r].Copying? <==> !trace[i].writer.Storing?
    ensures !trace[i + 1].readers[r].Copying? ==> trace[i + 1] == trace[i]
  {
    RunInv(trace, steps, i);
    assert trace[i + 1] == Apply(trace[i], steps[i]);
    assert trace[i].readers[r := trace[i].readers[r]] == trace[i].readers;
  }

  // ---------------------------------------------------------------------------------------------
  // A store and a load, each left alone
  // ---------------------------------------------------------------------------------------------

  /** The state in which a store of `value` has finished. */
  function StoreDone(s: State, value: Value): State {
    s.(sequence := s.sequence + 2, cells := value, history := s.history + [value], ready := s.ready || s.guarded)
  }

  function WriteTimes(s: State, n: nat): State
    decreases n
  {
    if n == 0 || !WellSized(s) || s.writer == Resting then s else WriteTimes(WriteStep(s), n - 1)
  }

  lemma {:induction false} CellsGetWritten(s: State) returns (n: nat)
    requires WellSized(s) && s.writer.Storing? && s.cells[..s.writer.k] == s.writer.value[..s.writer.k]
    ensures WriteTimes(s, n)
            == s.(cells := s.writer.value, sequence := s.writer.start + 2, writer := Resting,
                  history := s.history + [s.writer.value], ready := s.ready || s.guarded)
    decreases |s.cells| - s.writer.k
  {
    var t := WriteStep(s);
    if s.writer.k < |s.cells| {
      assert s.writer.value[..s.writer.k + 1] == s.writer.value[..s.writer.k] + [s.writer.value[s.writer.k]];
      assert t.cells[..s.writer.k + 1] == s.cells[..s.writer.k] + [s.writer.value[s.writer.k]];
      var rest := CellsGetWritten(t);
      n := rest + 1;
    } else {
      assert s.cells[..s.writer.k] == s.cells && s.writer.value[..s.writer.k] == s.writer.value;
      n := 2;
      assert WriteTimes(WriteStep(t), 0) == WriteStep(t);
      assert WriteTimes(t, 1) == WriteStep(t);
    }
  }

  /** Left alone, a store ends with its value in the cells, and a guarded storage ready. */
  lemma StoreCompletes(s: State, value: Value) returns (n: nat)
    requires Inv(s) && s.writer == Resting && |value| == |s.cells|
    ensures Enabled(s, Store(value))
    ensures WriteTimes(Apply(s, Store(value)), n) == StoreDone(s, value)
  {
    var a := Apply(s, Store(value));
    var b := WriteStep(a);
    assert b.cells[..0] == b.writer.value[..0];
    var rest := CellsGetWritten(b);
    n := rest + 1;
  }

  function CopyTimes(s: State, r: nat, n: nat): State
    decreases n
  {
    if n == 0 || !Enabled(s, Read(r, CopyCell)) then s else CopyTimes(ReadStep(s, r, CopyCell), r, n - 1)
  }

  lemma {:induction false} CellsGetCopied(s: State, r: nat) returns (n: nat)
    requires WellSized(s) && r < |s.readers| && s.readers[r].Copying? && s.readers[r].copied <= s.cells
    ensures CopyTimes(s, r, n) == s.(readers := s.readers[r := s.readers[r].(copied := s.cells)])
    decreases |s.cells| - |s.readers[r].copied|
  {
    if |s.readers[r].copied| < |s.cells| {
      var t := ReadStep(s, r, CopyCell);
      assert t == s.(readers := s.readers[r := t.readers[r]]) && t.readers[r].copied <= s.cells;
      var rest := CellsGetCopied(t, r);
      n := rest + 1;
      var done := s.readers[r].(copied := s.cells);
      assert t.readers[r].(copied := s.cells) == done;
      assert t.readers[r := done] == s.readers[r := done];
      assert CopyTimes(s, r, n) == CopyTimes(t, r, rest);
    } else {
      n := 0;
      assert s.readers[r].copied == s.cells && s.readers[r].(copied := s.cells) == s.readers[r];
      assert s.readers[r := s.readers[r]] == s.readers;
      assert s.(readers := s.readers) == s;
    }
  }

  /** Left alone, a load that has begun while the writer rests is accepted at the first try, with the newest value. */
  lemma LoadCompletes(s: State, r: nat) returns (n: nat)
    requires Inv(s) && s.writer == Resting && r < |s.readers| && s.readers[r].Trying?
    ensures Enabled(s, Read(r, LoadStart))
    ensures var copied := CopyTimes(ReadStep(s, r, LoadStart), r, n);
            && Enabled(copied, Read(r, LoadEnd))
            && ReadStep(copied, r, LoadEnd).readers[r]
               == Accepted(s.readers[r].began, |s.history| - 1, s.history[|s.history| - 1])
  {
    var t := ReadStep(s, r, LoadStart);
    n := CellsGetCopied(t, r);
  }
}
