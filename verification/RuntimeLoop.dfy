/** The service loop: pop an event, reduce, publish, execute effects; and why the published state is the
    fold of the reducer over the events popped. */
module RuntimeLoop {
  import opened Common
  import opened Counting
  import opened CoreTypes
  import opened Reducer
  import opened ReducerRefinement
  import opened ReducerTracking
  import opened SnapshotProtocol
  import opened Ring
  import R = CoreRegistry

  const EVENT_QUEUE_CAPACITY: nat := 32
  const MAX_EVENTS_PER_CYCLE: nat := 64

  /** The readers' pin counts, one per slot. */
  type Pins = p: seq<nat> | |p| == SLOTS witness [0, 0, 0, 0, 0, 0, 0, 0]

  /** An event popped, and the pins standing when its result is published: between two turns readers come and go
      as they like. */
  datatype Popped = Popped(event: CoreEvent, pins: Pins)

  function WithPins(m: R.Memory, pins: Pins): (n: R.Memory)
    requires m.WellSized()
    ensures n.WellSized() && n.Current() == m.Current()
  {
    R.Memory(m.slots, pins, m.active, m.activeId, m.writeIndex, m.nextId)
  }

  /** One event taken through reducer and registry: the memory afterwards, and the effects executed. */
  function Turn(m: R.Memory, e: CoreEvent): (r: (R.Memory, seq<CoreEffect>))
    requires m.WellSized()
    ensures r.0.WellSized()
  {
    var (next, effects) := Reduce(m.Current(), e);
    if next.revision != m.Current().revision then (R.Published(m, next).0, effects) else (m, effects)
  }

  function TurnAll(m: R.Memory, turns: seq<Popped>): (r: (R.Memory, seq<CoreEffect>))
    requires m.WellSized()
    ensures r.0.WellSized()
    decreases |turns|
  {
    if turns == [] then (m, [])
    else
      var before := TurnAll(m, turns[..|turns| - 1]);
      var last := Turn(WithPins(before.0, turns[|turns| - 1].pins), turns[|turns| - 1].event);
      (last.0, before.1 + last.1)
  }

  /** Whether every publish the events ask for finds a slot. */
  predicate NoPublishFails(m: R.Memory, turns: seq<Popped>)
    requires m.WellSized()
    decreases |turns|
  {
    turns != [] ==>
      var n := |turns| - 1;
      && NoPublishFails(m, turns[..n])
      && TurnPublishes(WithPins(TurnAll(m, turns[..n]).0, turns[n].pins), turns[n].event)
  }

  predicate TurnPublishes(m: R.Memory, e: CoreEvent)
    requires m.WellSized()
  {
    var next := Reduce(m.Current(), e).0;
    next.revision != m.Current().revision ==> R.Published(m, next).1
  }

  function EventsOf(turns: seq<Popped>): (events: seq<CoreEvent>)
    ensures |events| == |turns|
    ensures forall i | 0 <= i < |turns| :: events[i] == turns[i].event
  {
    if turns == [] then [] else EventsOf(turns[..|turns| - 1]) + [turns[|turns| - 1].event]
  }

  function Flattened(batches: seq<seq<CoreEvent>>): seq<CoreEvent> {
    if batches == [] then [] else Flattened(batches[..|batches| - 1]) + batches[|batches| - 1]
  }

  lemma FlattenedSnoc(batches: seq<seq<CoreEvent>>, last: seq<CoreEvent>)
    ensures Flattened(batches + [last]) == Flattened(batches) + last
  {
    assert (batches + [last])[..|batches|] == batches;
  }

  /** What turn `t` took in of what arrived in it, cut short only when enough had come in by then, with the `queued`
      events that were waiting at first, to fill the queue. */
  ghost predicate TakenIn(queued: nat, taken: seq<CoreEvent>, arriving: seq<CoreEvent>, soFar: nat) {
    taken <= arriving && (taken != arriving ==> queued + soFar >= EVENT_QUEUE_CAPACITY)
  }

  function Arriving(feed: seq<seq<CoreEvent>>, t: nat): seq<CoreEvent> {
    if t < |feed| then feed[t] else []
  }

  /** So it is with every turn. */
  ghost predicate RefusedOnlyWhenFull(queued: nat, accepted: seq<seq<CoreEvent>>, feed: seq<seq<CoreEvent>>) {
    accepted != [] ==>
      var n := |accepted| - 1;
      && RefusedOnlyWhenFull(queued, accepted[..n], feed)
      && TakenIn(queued, accepted[n], Arriving(feed, n), |Flattened(accepted)|)
  }

  lemma RefusedStep(queued: nat, accepted: seq<seq<CoreEvent>>, feed: seq<seq<CoreEvent>>, more: seq<CoreEvent>)
    requires RefusedOnlyWhenFull(queued, accepted, feed)
    requires TakenIn(queued, more, Arriving(feed, |accepted|), |Flattened(accepted)| + |more|)
    ensures RefusedOnlyWhenFull(queued, accepted + [more], feed)
  {
    FlattenedSnoc(accepted, more);
    hide Flattened, TakenIn, Arriving;
    var after := accepted + [more];
    assert after[..|after| - 1] == accepted && after[|after| - 1] == more;
  }

  class ServiceRuntime {
    const queue: Ring<CoreEvent>
    const registry: R.CoreRegistry

    ghost predicate Valid()
      reads this, queue, queue.buffer, registry, registry.slots, registry.pins
    {
      && queue.Valid() && queue.buffer.Length == EVENT_QUEUE_CAPACITY
      && registry.Valid()
      && (queue.buffer as object) != (registry.slots as object)
      && (queue.buffer as object) != (registry.pins as object)
      && (registry.slots as object) != (registry.pins as object)
    }

    constructor ()
      ensures Valid() && fresh(queue) && fresh(queue.buffer)
      ensures fresh(registry) && fresh(registry.slots) && fresh(registry.pins)
      ensures queue.Contents() == [] && registry.Model() == R.INITIAL
    {
      queue := new Ring(EVENT_QUEUE_CAPACITY, DEFAULT_EVENT);
      registry := new R.CoreRegistry();
    }

    /** What managers, drains and other threads post between two pops; a full queue refuses. */
    method PushAll(batch: seq<CoreEvent>) returns (accepted: seq<CoreEvent>)
      requires Valid()
      modifies queue, queue.buffer
      ensures Valid()
      ensures queue.Contents() == old(queue.Contents()) + accepted
      ensures accepted <= batch
      ensures |accepted| < |batch| ==> |queue.Contents()| == EVENT_QUEUE_CAPACITY
    {
      hide Unrolled, R.CoreRegistry.Model, R.Memory.WellSized;
      accepted := [];
      var i := 0;
      while i < |batch|
        invariant 0 <= i <= |batch| && Valid()
        invariant queue.Contents() == old(queue.Contents()) + accepted
        invariant |accepted| <= i && accepted == batch[..|accepted|]
        invariant |accepted| < i ==> |queue.Contents()| == EVENT_QUEUE_CAPACITY
      {
        var ok := queue.Push(batch[i]);
        if ok {
          accepted := accepted + [batch[i]];
        }
        i := i + 1;
      }
    }

    /** Where the readers stand by now: interference, not a step of the loop. */
    method ReadersMove(pins: Pins)
      requires Valid()
      modifies registry.pins
      ensures Valid() && queue.Contents() == old(queue.Contents())
      ensures registry.Model() == WithPins(old(registry.Model()), pins)
    {
      forall i | 0 <= i < SLOTS {
        registry.pins[i] := pins[i];
      }
      assert registry.pins[..] == pins;
    }

    /** Reduce one popped event against the current snapshot and publish the result; by the time it is published the
        readers' pins are `pins`. */
    method ApplyEvent(event: CoreEvent, pins: Pins) returns (effects: seq<CoreEffect>)
      requires Valid()
      modifies registry, registry.slots, registry.pins
      ensures Valid() && queue.Contents() == old(queue.Contents())
      ensures (registry.Model(), effects) == Turn(WithPins(old(registry.Model()), pins), event)
    {
      hide Reduce, R.Published, Unrolled;
      var prev := registry.SnapshotCopy();
      ReadersMove(pins);
      var next;
      next, effects := CoreReduce(prev, event);
      if next.revision != prev.revision {
        var published := registry.Publish(next);
      }
    }

    /** `process_pending`: at most 64 events, and a turn that neither drained nor popped anything ends it; so with less
        than 64 events everything that arrives is taken in and nothing is left behind. `feed[t]` is what arrives in
        turn `t`, `readers(t)` the pins standing when its event is published. Returns the events popped and the effects
        executed, in order, and what the queue accepted in each turn. */
    method ProcessPending(feed: seq<seq<CoreEvent>>, readers: nat -> Pins)
      returns (popped: seq<Popped>, executed: seq<CoreEffect>, accepted: seq<seq<CoreEvent>>)
      requires Valid()
      modifies queue, queue.buffer, registry, registry.slots, registry.pins
      ensures Valid() && |popped| <= MAX_EVENTS_PER_CYCLE
      ensures |popped| < MAX_EVENTS_PER_CYCLE ==> queue.Contents() == [] && |accepted| >= |feed|
      ensures RefusedOnlyWhenFull(|old(queue.Contents())|, accepted, feed)
      ensures old(queue.Contents()) + Flattened(accepted) == EventsOf(popped) + queue.Contents()
      ensures (registry.Model(), executed) == TurnAll(old(registry.Model()), popped)
    {
      hide R.Published, Unrolled, Turn, TurnAll, Reduce, R.CoreRegistry.Model, Accounted;
      ghost var start := queue.Contents();
      NothingTurned(registry.Model());
      NothingArrived(start, feed);
      popped, executed, accepted := [], [], [];
      while |popped| < MAX_EVENTS_PER_CYCLE
        invariant Valid() && |popped| <= MAX_EVENTS_PER_CYCLE
        invariant Accounted(start, accepted, feed, popped, queue.Contents())
        invariant (registry.Model(), executed) == TurnAll(old(registry.Model()), popped)
        decreases MAX_EVENTS_PER_CYCLE - |popped|, |feed| - |accepted|
      {
        var madeProgress := |accepted| < |feed|;
        var pins := readers(|accepted|);
        ghost var before := queue.Contents();
        var event, effects, more := RunTurn(Arriving(feed, |accepted|), pins);
        Account(start, accepted, feed, popped, before, more, event, pins, queue.Contents());
        accepted := accepted + [more];
        if event == None {
          if !madeProgress {
            break;
          }
          continue;
        }
        TurnAllSnoc(old(registry.Model()), popped, Popped(event.value, pins));
        popped := popped + [Popped(event.value, pins)];
        executed := executed + effects;
      }
      WhatIsAccounted(start, accepted, feed, popped, queue.Contents());
    }

    /** One turn of the loop: arrivals, at most one pop, and that event's reduction. */
    method RunTurn(batch: seq<CoreEvent>, pins: Pins)
      returns (event: Option<CoreEvent>, effects: seq<CoreEffect>, accepted: seq<CoreEvent>)
      requires Valid()
      modifies queue, queue.buffer, registry, registry.slots, registry.pins
      ensures Valid()
      ensures accepted <= batch
      ensures |accepted| < |batch| ==> |old(queue.Contents())| + |accepted| == EVENT_QUEUE_CAPACITY
      ensures event == None ==> registry.Model() == old(registry.Model()) && effects == []
      ensures event == None ==> old(queue.Contents()) + accepted == [] && queue.Contents() == []
      ensures event.Some? ==> [event.value] + queue.Contents() == old(queue.Contents()) + accepted
      ensures event.Some? ==> (registry.Model(), effects) == Turn(WithPins(old(registry.Model()), pins), event.value)
    {
      hide R.Published, Unrolled, Turn, Reduce;
      effects := [];
      accepted := PushAll(batch);
      ghost var queued := queue.Contents();
      event := queue.Pop();
      if event.Some? {
        assert queued == [event.value] + queue.Contents();
        effects := ApplyEvent(event.value, pins);
      }
    }
  }

  lemma NothingTurned(m: R.Memory)
    requires m.WellSized()
    ensures TurnAll(m, []) == (m, [])
  {
  }

  /** What came in is what went out and what is still queued, and nothing was refused without cause. */
  ghost predicate Accounted(start: seq<CoreEvent>, accepted: seq<seq<CoreEvent>>, feed: seq<seq<CoreEvent>>,
                            popped: seq<Popped>, queued: seq<CoreEvent>)
  {
    start + Flattened(accepted) == EventsOf(popped) + queued && RefusedOnlyWhenFull(|start|, accepted, feed)
  }

  lemma NothingArrived(start: seq<CoreEvent>, feed: seq<seq<CoreEvent>>)
    ensures Accounted(start, [], feed, [], start)
  {
    assert start + [] == start == [] + start;
  }

  lemma WhatIsAccounted(start: seq<CoreEvent>, accepted: seq<seq<CoreEvent>>, feed: seq<seq<CoreEvent>>,
                        popped: seq<Popped>, queued: seq<CoreEvent>)
    requires Accounted(start, accepted, feed, popped, queued)
    ensures start + Flattened(accepted) == EventsOf(popped) + queued && RefusedOnlyWhenFull(|start|, accepted, feed)
  {
  }

  /** One turn further. */
  lemma Account(start: seq<CoreEvent>, accepted: seq<seq<CoreEvent>>, feed: seq<seq<CoreEvent>>, popped: seq<Popped>,
                before: seq<CoreEvent>, more: seq<CoreEvent>, event: Option<CoreEvent>, pins: Pins,
                after: seq<CoreEvent>)
    requires Accounted(start, accepted, feed, popped, before)
    requires before + more == if event.Some? then [event.value] + after else []
    requires event == None ==> after == []
    requires more <= Arriving(feed, |accepted|)
    requires |more| < |Arriving(feed, |accepted|)| ==> |before| + |more| == EVENT_QUEUE_CAPACITY
    ensures Accounted(start, accepted + [more], feed,
                      if event.Some? then popped + [Popped(event.value, pins)] else popped, after)
  {
    hide RefusedOnlyWhenFull, Arriving, Flattened, EventsOf;
    var came, went := Flattened(accepted), EventsOf(popped);
    assert |before| <= |start + came| == |start| + |came|;
    FlattenedSnoc(accepted, more);
    RefusedStep(|start|, accepted, feed, more);
    Regroup(start, came, more);
    Regroup(went, before, more);
    if event.Some? {
      EventsOfSnoc(popped, Popped(event.value, pins));
      Regroup(went, [event.value], after);
    } else {
      assert before + more == after == [];
    }
  }

  lemma EventsOfSnoc(turns: seq<Popped>, turn: Popped)
    ensures EventsOf(turns + [turn]) == EventsOf(turns) + [turn.event]
  {
    assert (turns + [turn])[..|turns|] == turns;
  }

  lemma TurnAllSnoc(m: R.Memory, turns: seq<Popped>, turn: Popped)
    requires m.WellSized()
    ensures var before := TurnAll(m, turns);
            var last := Turn(WithPins(before.0, turn.pins), turn.event);
            TurnAll(m, turns + [turn]) == (last.0, before.1 + last.1)
  {
    hide Turn;
    var all := turns + [turn];
    assert all[..|all| - 1] == turns && all[|all| - 1] == turn;
  }

  // ---------------------------------------------------------------------------------------------
  // The fold
  // ---------------------------------------------------------------------------------------------

  /** One turn installs exactly the reduced state, and persists exactly the revision it published; when the
      publish is refused the state stays and the persisted revision is one nobody will read. */
  lemma TurnInstallsReduced(m: R.Memory, e: CoreEvent)
    requires m.WellSized()
    ensures Turn(m, e).0.Current() == if TurnPublishes(m, e) then Reduce(m.Current(), e).0 else m.Current()
    ensures forall k | 0 <= k < |Turn(m, e).1| && Turn(m, e).1[k].kind == PersistState ::
              Turn(m, e).1[k].argU32 == Turn(m, e).0.Current().revision <==> TurnPublishes(m, e)
  {
    hide Reduce;
    var s := m.Current();
    RevisionTracksChange(s, e);
    PersistExactlyOnChange(s, e);
    R.PublishedInstalls(m, Reduce(s, e).0);
  }

  /** With no refused publish, the current state is the fold of the reducer over the events popped, and the
      effects executed are those of that fold, however readers pin and release between the turns. */
  lemma {:induction false} CurrentIsFold(m: R.Memory, turns: seq<Popped>)
    requires m.WellSized() && NoPublishFails(m, turns)
    ensures TurnAll(m, turns).0.Current() == ReduceAll(m.Current(), EventsOf(turns))
    ensures TurnAll(m, turns).1 == EffectsOf(m.Current(), EventsOf(turns))
    decreases |turns|
  {
    hide Reduce, Turn, TurnPublishes, WithPins;
    if turns != [] {
      var front, last := turns[..|turns| - 1], turns[|turns| - 1];
      CurrentIsFold(m, front);
      var start := WithPins(TurnAll(m, front).0, last.pins);
      TurnInstallsReduced(start, last.event);
      TurnEffects(start, last.event);
      assert EventsOf(turns)[..|turns| - 1] == EventsOf(front);
    }
  }

  lemma TurnEffects(m: R.Memory, e: CoreEvent)
    requires m.WellSized()
    ensures Turn(m, e).1 == Reduce(m.Current(), e).1
  {
  }

  function PinnedSlots(pins: seq<nat>): set<int> {
    set i | 0 <= i < |pins| && pins[i] != 0
  }

  lemma SixPinsLeaveRoom(m: R.Memory, state: CoreState)
    requires m.WellSized() && state.WellFormed() && |PinnedSlots(m.pins)| <= SLOTS - 2
    ensures R.Published(m, state).1
  {
    R.RefusedIffAllPinned(m, state);
    if !R.Published(m, state).1 {
      assert Range(SLOTS) - {m.active} <= PinnedSlots(m.pins);
      SubsetSize(Range(SLOTS) - {m.active}, PinnedSlots(m.pins));
    }
  }

  /** When readers never hold more than six slots at a time, whichever these are from turn to turn, no publish of the
      loop fails, so the fold is unconditional. */
  lemma {:induction false} SixPinsNeverFail(m: R.Memory, turns: seq<Popped>)
    requires m.WellSized() && forall k | 0 <= k < |turns| :: |PinnedSlots(turns[k].pins)| <= SLOTS - 2
    ensures NoPublishFails(m, turns)
    decreases |turns|
  {
    hide Reduce, Turn;
    if turns != [] {
      var n := |turns| - 1;
      SixPinsNeverFail(m, turns[..n]);
      var start := WithPins(TurnAll(m, turns[..n]).0, turns[n].pins);
      SixPinsLeaveRoom(start, Reduce(start.Current(), turns[n].event).0);
    }
  }
}
