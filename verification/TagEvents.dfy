/**
 * The event latch of a tag: tag_raise_event() of lib/tag.h sets flags, plc_tag_generic_handle_event_callbacks()
 * of lib/lib.c hands them to the callback and clears them, and callbacks come and go.
 */
module TagEvents {
  import opened Basics

  datatype Event =
    | ReadStarted | ReadCompleted | WriteStarted | WriteCompleted | Aborted | Destroyed | Created | Unsupported

  /** An event flag with its status. */
  datatype Slot = Slot(raised: bool, status: int)

  const CLEAR: Slot := Slot(false, PLCTAG_STATUS_OK)

  /** The event fields of a tag. */
  datatype Latches = Latches(callback: bool, hadCreated: bool, readEnable: bool, writeEnable: bool,
                             created: Slot, readStarted: Slot, writeStarted: Slot, aborted: Slot,
                             readCompleted: Slot, writeCompleted: Slot, destroyed: Slot)

  const ZEROED: Latches :=
    Latches(false, false, false, false, CLEAR, CLEAR, CLEAR, CLEAR, CLEAR, CLEAR, CLEAR)

  datatype Delivery = Delivery(event: Event, status: int)

  // ---- the specification of the two operations, latch by latch

  /** Does raising e latch k? */
  predicate Latching(v: Latches, e: Event, k: Event) {
    v.callback &&
    match k
    case Created => !v.hadCreated && (e.Created? || e.Aborted? || e.ReadCompleted? || e.WriteCompleted?)
    case ReadCompleted => e.ReadCompleted? && v.readEnable
    case WriteCompleted => e.WriteCompleted? && v.writeEnable
    case Unsupported => false
    case _ => e == k
  }

  function Raised(v: Latches, e: Event, status: int): Latches {
    var on := Slot(true, status);
    Latches(v.callback, v.hadCreated || Latching(v, e, Created),
            (v.readEnable || Latching(v, e, ReadStarted)) && !Latching(v, e, ReadCompleted),
            (v.writeEnable || Latching(v, e, WriteStarted)) && !Latching(v, e, WriteCompleted),
            if Latching(v, e, Created) then on else v.created,
            if Latching(v, e, ReadStarted) then on else v.readStarted,
            if Latching(v, e, WriteStarted) then on else v.writeStarted,
            if Latching(v, e, Aborted) then on else v.aborted,
            if Latching(v, e, ReadCompleted) then on else v.readCompleted,
            if Latching(v, e, WriteCompleted) then on else v.writeCompleted,
            if Latching(v, e, Destroyed) then on else v.destroyed)
  }

  function Pending(e: Event, s: Slot): seq<Delivery> {
    if s.raised then [Delivery(e, s.status)] else []
  }

  /** What one round of the dispatcher hands to the callback, in order. */
  function Deliveries(v: Latches): seq<Delivery> {
    if !v.callback then [] else
      Pending(Created, v.created) + Pending(ReadStarted, v.readStarted) + Pending(WriteStarted, v.writeStarted)
      + Pending(Aborted, v.aborted) + Pending(ReadCompleted, v.readCompleted)
      + Pending(WriteCompleted, v.writeCompleted) + Pending(Destroyed, v.destroyed)
  }

  function Cleared(s: Slot): Slot {
    if s.raised then CLEAR else s
  }

  function Dispatched(v: Latches): Latches {
    if !v.callback then v else
      Latches(v.callback, v.hadCreated, v.readEnable, v.writeEnable, Cleared(v.created), Cleared(v.readStarted),
              Cleared(v.writeStarted), Cleared(v.aborted), Cleared(v.readCompleted), Cleared(v.writeCompleted),
              Cleared(v.destroyed))
  }

  /** The latches that one event touches. */
  lemma RaisedByCase(v: Latches, e: Event, status: int)
    requires v.callback
    ensures var on := Slot(true, status);
      var w := if v.hadCreated then v else v.(hadCreated := true, created := on);
      Raised(v, e, status) ==
      match e
      case Aborted => w.(aborted := on)
      case Created => w
      case Destroyed => v.(destroyed := on)
      case ReadCompleted => if v.readEnable then w.(readCompleted := on, readEnable := false) else w
      case ReadStarted => v.(readStarted := on, readEnable := true)
      case WriteCompleted => if v.writeEnable then w.(writeCompleted := on, writeEnable := false) else w
      case WriteStarted => v.(writeStarted := on, writeEnable := true)
      case Unsupported => v
  {
  }

  lemma RaisedWithoutCallback(v: Latches, e: Event, status: int)
    requires !v.callback
    ensures Raised(v, e, status) == v
  {
  }

  // ---- the code

  /** The event part of plc_tag_t. */
  class Tag {
    var callback: bool
    var hadCreatedEvent: bool
    var readCompleteEnable: bool
    var writeCompleteEnable: bool
    var creationComplete: Slot
    var readStarted: Slot
    var writeStarted: Slot
    var operationAborted: Slot
    var readComplete: Slot
    var writeComplete: Slot
    var deletionStarted: Slot

    ghost function View(): Latches
      reads this
    {
      Latches(callback, hadCreatedEvent, readCompleteEnable, writeCompleteEnable, creationComplete, readStarted,
              writeStarted, operationAborted, readComplete, writeComplete, deletionStarted)
    }

    constructor ()
      ensures View() == ZEROED
    {
      callback, hadCreatedEvent, readCompleteEnable, writeCompleteEnable := false, false, false, false;
      creationComplete, readStarted, writeStarted, operationAborted := CLEAR, CLEAR, CLEAR, CLEAR;
      readComplete, writeComplete, deletionStarted := CLEAR, CLEAR, CLEAR;
    }

    method SetCallback(present: bool)
      modifies this
      ensures View() == old(View()).(callback := present)
    {
      callback := present;
    }

    method RaiseEvent(event: Event, status: int)
      modifies this
      ensures View() == Raised(old(View()), event, status)
    {
      hide Raised, Latching;
      if !callback {
        RaisedWithoutCallback(View(), event, status);
        return;
      }
      RaisedByCase(View(), event, status);
      match event {
        case Aborted =>
          operationAborted := Slot(true, status);
          if !hadCreatedEvent {
            hadCreatedEvent := true;
            creationComplete := Slot(true, status);
          }
        case Created =>
          if !hadCreatedEvent {
            creationComplete := Slot(true, status);
            hadCreatedEvent := true;
          }
        case Destroyed =>
          deletionStarted := Slot(true, status);
        case ReadCompleted =>
          if !hadCreatedEvent {
            hadCreatedEvent := true;
            creationComplete := Slot(true, status);
          }
          if readCompleteEnable {
            readComplete := Slot(true, status);
            readCompleteEnable := false;
          }
        case ReadStarted =>
          readStarted := Slot(true, status);
          readCompleteEnable := true;
        case WriteCompleted =>
          if !hadCreatedEvent {
            hadCreatedEvent := true;
            creationComplete := Slot(true, status);
          }
          if writeCompleteEnable {
            writeComplete := Slot(true, status);
            writeCompleteEnable := false;
          }
        case WriteStarted =>
          writeStarted := Slot(true, status);
          writeCompleteEnable := true;
        case Unsupported =>
      }
    }

    /** One flag of the dispatcher: call the callback, clear the flag and its status. */
    method CallBack(event: Event, slot: Slot, calls: seq<Delivery>) returns (now: Slot, allCalls: seq<Delivery>)
      ensures now == Cleared(slot) && allCalls == calls + Pending(event, slot)
    {
      now, allCalls := slot, calls;
      if slot.raised {
        allCalls := calls + [Delivery(event, slot.status)];
        now := CLEAR;
      }
    }

    /** The first four flags of a round: the creation, the two starts and the abort. */
    method HandleStartsAndAbort(calls0: seq<Delivery>) returns (calls: seq<Delivery>)
      modifies `creationComplete, `readStarted, `writeStarted, `operationAborted
      ensures creationComplete == Cleared(old(creationComplete)) && readStarted == Cleared(old(readStarted))
      ensures writeStarted == Cleared(old(writeStarted)) && operationAborted == Cleared(old(operationAborted))
      ensures calls == calls0 + Pending(Created, old(creationComplete)) + Pending(ReadStarted, old(readStarted))
                       + Pending(WriteStarted, old(writeStarted)) + Pending(Aborted, old(operationAborted))
    {
      hide Pending, Cleared;
      calls := calls0;
      creationComplete, calls := CallBack(Created, creationComplete, calls);
      readStarted, calls := CallBack(ReadStarted, readStarted, calls);
      writeStarted, calls := CallBack(WriteStarted, writeStarted, calls);
      operationAborted, calls := CallBack(Aborted, operationAborted, calls);
    }

    /** The calls that one round of the dispatcher makes, in order. */
    method HandleEventCallbacks() returns (calls: seq<Delivery>)
      modifies this
      ensures View() == Dispatched(old(View())) && calls == Deliveries(old(View()))
    {
      hide Pending, Cleared;
      calls := [];
      if callback {
        assert [] + Pending(Created, creationComplete) == Pending(Created, creationComplete);
        calls := HandleStartsAndAbort(calls);
        readComplete, calls := CallBack(ReadCompleted, readComplete, calls);
        writeComplete, calls := CallBack(WriteCompleted, writeComplete, calls);
        deletionStarted, calls := CallBack(Destroyed, deletionStarted, calls);
      }
    }
  }

  // ---- whole runs, from a zeroed tag

  datatype Move = Raise(event: Event, status: int) | Dispatch | SetCallback(present: bool)

  function Next(v: Latches, m: Move): Latches {
    match m
    case Raise(e, status) => Raised(v, e, status)
    case Dispatch => Dispatched(v)
    case SetCallback(present) => v.(callback := present)
  }

  function After(ms: seq<Move>): Latches {
    if ms == [] then ZEROED else Next(After(ms[..|ms| - 1]), ms[|ms| - 1])
  }

  /** Does the i-th move of the run latch event k? */
  predicate LatchedAt(ms: seq<Move>, i: nat, k: Event)
    requires i < |ms|
  {
    ms[i].Raise? && Latching(After(ms[..i]), ms[i].event, k)
  }

  lemma AfterOneMore(ms: seq<Move>, i: nat)
    requires i < |ms|
    ensures After(ms[..i + 1]) == Next(After(ms[..i]), ms[i])
  {
    assert ms[..i + 1][..i] == ms[..i];
  }

  /** The created flag's memory: set exactly when creation has been latched. */
  lemma {:induction false} HadCreatedIff(ms: seq<Move>, i: nat)
    requires i <= |ms|
    ensures After(ms[..i]).hadCreated <==> exists j :: 0 <= j < i && LatchedAt(ms, j, Created)
  {
    if i > 0 {
      AfterOneMore(ms, i - 1);
      HadCreatedIff(ms, i - 1);
      hide LatchedAt;
      assert After(ms[..i]).hadCreated <==> After(ms[..i - 1]).hadCreated || LatchedAt(ms, i - 1, Created) by {
        HadStep(ms, i - 1);
      }
    }
  }

  lemma HadStep(ms: seq<Move>, i: nat)
    requires i < |ms|
    ensures After(ms[..i + 1]).hadCreated <==> After(ms[..i]).hadCreated || LatchedAt(ms, i, Created)
  {
    AfterOneMore(ms, i);
  }

  /** Creation is latched at most once. */
  lemma CreationLatchedOnce(ms: seq<Move>, i: nat, j: nat)
    requires i < j < |ms| && LatchedAt(ms, i, Created)
    ensures !LatchedAt(ms, j, Created)
  {
    HadCreatedIff(ms, j);
  }

  predicate CompletionOrAbort(k: Event) {
    k.ReadCompleted? || k.WriteCompleted? || k.Aborted?
  }

  /** Creation is latched no later than the first completion or abort. */
  lemma CreationNotLate(ms: seq<Move>, i: nat, k: Event)
    requires i < |ms| && CompletionOrAbort(k) && LatchedAt(ms, i, k)
    ensures exists j :: 0 <= j <= i && LatchedAt(ms, j, Created)
  {
    HadCreatedIff(ms, i);
    assert LatchedAt(ms, i, Created) || After(ms[..i]).hadCreated;
  }

  // ---- reads and writes: the same two latches twice

  function Start(write: bool): Event {
    if write then WriteStarted else ReadStarted
  }

  function Done(write: bool): Event {
    if write then WriteCompleted else ReadCompleted
  }

  function Enabled(v: Latches, write: bool): bool {
    if write then v.writeEnable else v.readEnable
  }

  lemma EnabledStep(ms: seq<Move>, i: nat, write: bool)
    requires i < |ms|
    ensures Enabled(After(ms[..i + 1]), write) <==>
            LatchedAt(ms, i, Start(write)) || (Enabled(After(ms[..i]), write) && !LatchedAt(ms, i, Done(write)))
  {
    AfterOneMore(ms, i);
  }

  /** A completion can be latched exactly when a start has been latched since the last completion. */
  lemma {:induction false} EnabledIff(ms: seq<Move>, j: nat, write: bool)
    requires j <= |ms|
    ensures Enabled(After(ms[..j]), write) <==> exists k: nat :: StartOpen(ms, k, j, write)
  {
    if j > 0 {
      EnabledIff(ms, j - 1, write);
      EnabledStep(ms, j - 1, write);
      OpenStep(ms, j - 1, j, write);
    }
  }

  lemma OpenStep(ms: seq<Move>, j: nat, next: nat, write: bool)
    requires j < |ms| && next == j + 1
    ensures (exists k: nat :: StartOpen(ms, k, next, write)) <==>
            LatchedAt(ms, j, Start(write))
            || ((exists k: nat :: StartOpen(ms, k, j, write)) && !LatchedAt(ms, j, Done(write)))
  {
    StartThenDone(ms, j, write);
    hide LatchedAt, Start, Done;
    if k: nat :| StartOpen(ms, k, next, write) {
      assert k < j ==> StartOpen(ms, k, j, write);
    }
    if LatchedAt(ms, j, Start(write)) {
      assert StartOpen(ms, j, next, write);
    }
    if k: nat :| StartOpen(ms, k, j, write) && !LatchedAt(ms, j, Done(write)) {
      assert StartOpen(ms, k, next, write);
    }
  }

  lemma StartThenDone(ms: seq<Move>, i: nat, write: bool)
    requires i < |ms|
    ensures !(LatchedAt(ms, i, Start(write)) && LatchedAt(ms, i, Done(write)))
  {
  }

  /** A start latched at k with no completion latched between it and j. */
  ghost predicate StartOpen(ms: seq<Move>, k: nat, j: nat, write: bool)
    requires j <= |ms|
  {
    k < j && LatchedAt(ms, k, Start(write)) && forall i :: k < i < j ==> !LatchedAt(ms, i, Done(write))
  }

  /** Between any two latched completions, and before the first, a start was latched. */
  lemma StartBetween(ms: seq<Move>, i: nat, j: nat, write: bool)
    requires j < |ms| && LatchedAt(ms, j, Done(write))
    ensures exists k :: 0 <= k < j && LatchedAt(ms, k, Start(write))
    ensures i < j && LatchedAt(ms, i, Done(write)) ==> exists k :: i < k < j && LatchedAt(ms, k, Start(write))
  {
    EnabledIff(ms, j, write);
    var k: nat :| StartOpen(ms, k, j, write);
    if i < j && LatchedAt(ms, i, Done(write)) {
      StartThenDone(ms, i, write);
      assert k > i;
    }
  }

  // ---- counting

  function CountLatched(ms: seq<Move>, k: Event): nat {
    if ms == [] then 0
    else CountLatched(ms[..|ms| - 1], k) + if LatchedAt(ms, |ms| - 1, k) then 1 else 0
  }

  /** Latched completions never exceed latched starts. */
  lemma {:induction false} CompletionsNeverExceedStarts(ms: seq<Move>, write: bool)
    ensures CountLatched(ms, Done(write)) + (if Enabled(After(ms), write) then 1 else 0) <= CountLatched(ms, Start(write))
  {
    if ms != [] {
      var n := |ms| - 1;
      CompletionsNeverExceedStarts(ms[..n], write);
      assert ms[..n + 1] == ms;
      EnabledStep(ms, n, write);
      StartThenDone(ms, n, write);
    }
  }

  // ---- reads do not depend on writes, nor writes on reads

  predicate Touches(m: Move, write: bool) {
    m.Raise? && (m.event == Start(write) || m.event == Done(write))
  }

  /** The run without the starts and completions of one kind. */
  function Without(ms: seq<Move>, write: bool): seq<Move> {
    if ms == [] then []
    else Without(ms[..|ms| - 1], write) + if Touches(ms[|ms| - 1], write) then [] else [ms[|ms| - 1]]
  }

  /** What a tag remembers about its reads, or about its writes. */
  datatype Half = Half(callback: bool, enable: bool, started: Slot, completed: Slot)

  function HalfOf(v: Latches, write: bool): Half {
    if write then Half(v.callback, v.writeEnable, v.writeStarted, v.writeCompleted)
    else Half(v.callback, v.readEnable, v.readStarted, v.readCompleted)
  }

  lemma HalfStep(v: Latches, w: Latches, m: Move, write: bool)
    requires HalfOf(v, write) == HalfOf(w, write)
    ensures Touches(m, !write) ==> HalfOf(Next(v, m), write) == HalfOf(v, write)
    ensures HalfOf(Next(v, m), write) == HalfOf(Next(w, m), write)
    ensures m.Raise? ==> Latching(v, m.event, Done(write)) == Latching(w, m.event, Done(write))
    ensures m.Raise? && Touches(m, !write) ==> !Latching(v, m.event, Done(write))
  {
  }

  /** Leaving out one kind of operation changes neither the state nor the completions of the other. */
  lemma {:induction false} HalvesAreIndependent(ms: seq<Move>, write: bool)
    ensures HalfOf(After(Without(ms, !write)), write) == HalfOf(After(ms), write)
    ensures CountLatched(Without(ms, !write), Done(write)) == CountLatched(ms, Done(write))
  {
    if ms != [] {
      var n := |ms| - 1;
      var m, before := ms[n], Without(ms[..n], !write);
      HalvesAreIndependent(ms[..n], write);
      HalfStep(After(ms[..n]), After(before), m, write);
      assert ms[..n + 1] == ms;
      if Touches(m, !write) {
        assert before + [] == before;
      } else {
        assert (before + [m])[..|before|] == before;
      }
    }
  }

  // ---- what the callback sees

  /** All calls of the callback during the run. */
  function Delivered(ms: seq<Move>): seq<Delivery> {
    if ms == [] then []
    else Delivered(ms[..|ms| - 1])
         + if ms[|ms| - 1].Dispatch? then Deliveries(After(ms[..|ms| - 1])) else []
  }

  function Count(ds: seq<Delivery>, k: Event): nat {
    if ds == [] then 0 else Count(ds[..|ds| - 1], k) + if ds[|ds| - 1].event == k then 1 else 0
  }

  function SlotOf(v: Latches, k: Event): Slot {
    match k
    case ReadStarted => v.readStarted
    case ReadCompleted => v.readCompleted
    case WriteStarted => v.writeStarted
    case WriteCompleted => v.writeCompleted
    case Aborted => v.aborted
    case Destroyed => v.destroyed
    case Created => v.created
    case Unsupported => CLEAR
  }

  function IsPending(v: Latches, k: Event): nat {
    if SlotOf(v, k).raised then 1 else 0
  }

  lemma {:induction false} CountConcat(a: seq<Delivery>, b: seq<Delivery>, k: Event)
    ensures Count(a + b, k) == Count(a, k) + Count(b, k)
    decreases |b|
  {
    if b == [] {
      assert a + b == a;
    } else {
      assert (a + b)[..|a + b| - 1] == a + b[..|b| - 1];
      CountConcat(a, b[..|b| - 1], k);
    }
  }

  lemma CountPending(a: seq<Delivery>, e: Event, s: Slot, k: Event)
    ensures Count(a + Pending(e, s), k) == Count(a, k) + if s.raised && e == k then 1 else 0
  {
    CountConcat(a, Pending(e, s), k);
    if s.raised {
      assert Pending(e, s)[..0] == [];
    }
  }

  /** One round delivers each pending event once. */
  lemma CountDeliveries(v: Latches, k: Event)
    ensures Count(Deliveries(v), k) == if v.callback then IsPending(v, k) else 0
  {
    hide Pending;
    if v.callback {
      var d0 := Pending(Created, v.created);
      var d1 := d0 + Pending(ReadStarted, v.readStarted);
      var d2 := d1 + Pending(WriteStarted, v.writeStarted);
      var d3 := d2 + Pending(Aborted, v.aborted);
      var d4 := d3 + Pending(ReadCompleted, v.readCompleted);
      var d5 := d4 + Pending(WriteCompleted, v.writeCompleted);
      assert [] + d0 == d0;
      CountPending([], Created, v.created, k);
      CountPending(d0, ReadStarted, v.readStarted, k);
      CountPending(d1, WriteStarted, v.writeStarted, k);
      CountPending(d2, Aborted, v.aborted, k);
      CountPending(d3, ReadCompleted, v.readCompleted, k);
      CountPending(d4, WriteCompleted, v.writeCompleted, k);
      CountPending(d5, Destroyed, v.destroyed, k);
    }
  }

  /** Move i latches k while an earlier k still waits: the two will be delivered as one. */
  predicate OverwrittenAt(ms: seq<Move>, i: nat, k: Event)
    requires i < |ms|
  {
    LatchedAt(ms, i, k) && SlotOf(After(ms[..i]), k).raised
  }

  function CountOverwritten(ms: seq<Move>, k: Event): nat {
    if ms == [] then 0
    else CountOverwritten(ms[..|ms| - 1], k) + if OverwrittenAt(ms, |ms| - 1, k) then 1 else 0
  }

  /** A latch is raised by what latches it and cleared by a round of the dispatcher. */
  lemma PendingStep(ms: seq<Move>, i: nat, k: Event)
    requires i < |ms|
    ensures SlotOf(After(ms[..i + 1]), k).raised <==>
            LatchedAt(ms, i, k) || (SlotOf(After(ms[..i]), k).raised && !(ms[i].Dispatch? && After(ms[..i]).callback))
  {
    AfterOneMore(ms, i);
  }

  lemma DeliveredStep(ms: seq<Move>, k: Event)
    requires ms != []
    ensures var v := After(ms[..|ms| - 1]);
      Count(Delivered(ms), k)
      == Count(Delivered(ms[..|ms| - 1]), k) + if ms[|ms| - 1].Dispatch? && v.callback then IsPending(v, k) else 0
  {
    var v := After(ms[..|ms| - 1]);
    hide Deliveries, After, Count, IsPending;
    assert Delivered(ms[..|ms| - 1]) + [] == Delivered(ms[..|ms| - 1]);
    CountConcat(Delivered(ms[..|ms| - 1]), Deliveries(v), k);
    CountDeliveries(v, k);
  }

  /** Each event latched is delivered, waits, or was latched over by a later one: nothing else happens to it. */
  lemma {:induction false} LatchedAreAccountedFor(ms: seq<Move>, k: Event)
    ensures Count(Delivered(ms), k) + IsPending(After(ms), k) + CountOverwritten(ms, k) == CountLatched(ms, k)
  {
    if ms == [] {
      NothingYet(k);
    } else {
      hide Delivered, After, LatchedAt, Count, SlotOf;
      var n := |ms| - 1;
      LatchedAreAccountedFor(ms[..n], k);
      DeliveredStep(ms, k);
      assert ms[..n + 1] == ms;
      PendingStep(ms, n, k);
      DispatchLatchesNothing(ms, n, k);
    }
  }

  lemma NothingYet(k: Event)
    ensures Count(Delivered([]), k) == 0 && IsPending(After([]), k) == 0
  {
  }

  lemma DispatchLatchesNothing(ms: seq<Move>, i: nat, k: Event)
    requires i < |ms|
    ensures ms[i].Dispatch? ==> !LatchedAt(ms, i, k)
  {
  }

  /** The callback hears of a creation, and only then of completions and aborts. */
  ghost predicate CreatedFirst(ds: seq<Delivery>) {
    forall j :: 0 <= j < |ds| && CompletionOrAbort(ds[j].event) ==> Count(ds[..j], Created) > 0
  }

  /** A completion or abort can only be waiting once creation has been latched. */
  lemma {:induction false} PendingNeedsCreated(ms: seq<Move>, k: Event)
    requires CompletionOrAbort(k) && SlotOf(After(ms), k).raised
    ensures After(ms).hadCreated
  {
    var n := |ms| - 1;
    if SlotOf(After(ms[..n]), k).raised {
      PendingNeedsCreated(ms[..n], k);
    }
  }

  /** Once latched, a creation is waiting or has been delivered. */
  lemma {:induction false} CreatedIsKept(ms: seq<Move>)
    ensures Count(Delivered(ms), Created) + IsPending(After(ms), Created) == if After(ms).hadCreated then 1 else 0
  {
    if ms != [] {
      var n := |ms| - 1;
      CreatedIsKept(ms[..n]);
      CountDeliveries(After(ms[..n]), Created);
      CountConcat(Delivered(ms[..n]), Deliveries(After(ms[..n])), Created);
      assert Delivered(ms[..n]) + [] == Delivered(ms[..n]);
    }
  }

  lemma {:induction false} CountPositive(ds: seq<Delivery>, j: nat)
    requires j < |ds|
    ensures Count(ds, ds[j].event) > 0
  {
    var n := |ds| - 1;
    if j < n {
      assert ds[..n][j] == ds[j];
      CountPositive(ds[..n], j);
    }
  }

  lemma CreatedLeads(v: Latches, j: nat)
    requires j < |Deliveries(v)| && v.created.raised && !Deliveries(v)[j].event.Created?
    ensures Count(Deliveries(v)[..j], Created) > 0
  {
    assert Deliveries(v)[0] == Delivery(Created, v.created.status);
    CountPositive(Deliveries(v)[..j], 0);
  }

  /** In one round, what precedes a completion or abort has announced the creation, if that was still to be done. */
  lemma RoundIsCreatedFirst(ms: seq<Move>, j: nat)
    requires j < |Deliveries(After(ms))| && CompletionOrAbort(Deliveries(After(ms))[j].event)
    ensures Count(Delivered(ms), Created) + Count(Deliveries(After(ms))[..j], Created) > 0
  {
    var v := After(ms);
    var k := Deliveries(v)[j].event;
    CountPositive(Deliveries(v), j);
    CountDeliveries(v, k);
    PendingNeedsCreated(ms, k);
    CreatedIsKept(ms);
    if v.created.raised {
      CreatedLeads(v, j);
    }
  }

  /** A delivery of one more round: what the runs so far promise of the earlier ones, and the round of itself. */
  lemma DeliveryAfterCreated(ms: seq<Move>, j: nat)
    requires CreatedFirst(Delivered(ms)) && j < |Delivered(ms) + Deliveries(After(ms))|
    requires CompletionOrAbort((Delivered(ms) + Deliveries(After(ms)))[j].event)
    ensures Count((Delivered(ms) + Deliveries(After(ms)))[..j], Created) > 0
  {
    hide Delivered, Deliveries, After, Count;
    var before, round := Delivered(ms), Deliveries(After(ms));
    if j < |before| {
      assert (before + round)[..j] == before[..j];
    } else {
      var t := j - |before|;
      assert (before + round)[..j] == before + round[..t];
      CountConcat(before, round[..t], Created);
      RoundIsCreatedFirst(ms, t);
    }
  }

  /** The callback is told of the creation at most once, and before any completion or abort. */
  lemma {:induction false} CreatedIsDeliveredFirst(ms: seq<Move>)
    ensures Count(Delivered(ms), Created) <= 1
    ensures CreatedFirst(Delivered(ms))
  {
    hide Deliveries, After, Count;
    CreatedIsKept(ms);
    if ms != [] {
      var before := ms[..|ms| - 1];
      CreatedIsDeliveredFirst(before);
      assert Delivered(before) + [] == Delivered(before);
      forall j | 0 <= j < |Delivered(ms)| && ms[|ms| - 1].Dispatch? && CompletionOrAbort(Delivered(ms)[j].event)
        ensures Count(Delivered(ms)[..j], Created) > 0
      {
        DeliveryAfterCreated(before, j);
      }
    }
  }

  // ---- delivered completions and delivered starts

  /** Delivered completions are never more than latched starts. */
  lemma DeliveredCompletionsAreBounded(ms: seq<Move>, write: bool)
    ensures Count(Delivered(ms), Done(write)) <= CountLatched(ms, Start(write))
  {
    LatchedAreAccountedFor(ms, Done(write));
    CompletionsNeverExceedStarts(ms, write);
  }

  /** They are no more than the delivered starts exactly when what was latched over or still waits makes up for it. */
  lemma DeliveredCompletionsIff(ms: seq<Move>, write: bool)
    ensures Count(Delivered(ms), Done(write)) <= Count(Delivered(ms), Start(write))
       <==> CountLatched(ms, Done(write)) + CountOverwritten(ms, Start(write)) + IsPending(After(ms), Start(write))
            <= CountLatched(ms, Start(write)) + CountOverwritten(ms, Done(write)) + IsPending(After(ms), Done(write))
  {
    LatchedAreAccountedFor(ms, Done(write));
    LatchedAreAccountedFor(ms, Start(write));
  }

  /**
   * A start is lost when it is latched over one that still waits although the operation of that one has completed:
   * the callback will hear of one start and, in the end, of two completions.
   */
  predicate LostAt(ms: seq<Move>, i: nat, write: bool)
    requires i < |ms|
  {
    OverwrittenAt(ms, i, Start(write)) && !Enabled(After(ms[..i]), write)
  }

  function CountLost(ms: seq<Move>, write: bool): nat {
    if ms == [] then 0
    else CountLost(ms[..|ms| - 1], write) + if LostAt(ms, |ms| - 1, write) then 1 else 0
  }

  /** A start is spare when an earlier one was delivered and its completion is still open: two starts, one completion. */
  predicate SpareAt(ms: seq<Move>, i: nat, write: bool)
    requires i < |ms|
  {
    LatchedAt(ms, i, Start(write)) && Enabled(After(ms[..i]), write) && !SlotOf(After(ms[..i]), Start(write)).raised
  }

  function CountSpare(ms: seq<Move>, write: bool): nat {
    if ms == [] then 0
    else CountSpare(ms[..|ms| - 1], write) + if SpareAt(ms, |ms| - 1, write) then 1 else 0
  }

  function IsEnabled(v: Latches, write: bool): nat {
    if Enabled(v, write) then 1 else 0
  }

  /** The exact balance of starts and completions in what the callback has heard. */
  lemma {:induction false} StartsAndCompletionsBalance(ms: seq<Move>, write: bool)
    ensures Count(Delivered(ms), Start(write)) + IsPending(After(ms), Start(write)) + CountLost(ms, write)
         == Count(Delivered(ms), Done(write)) + IsPending(After(ms), Done(write)) + CountOverwritten(ms, Done(write))
            + IsEnabled(After(ms), write) + CountSpare(ms, write)
  {
    if ms == [] {
      NothingYet(Start(write));
      NothingYet(Done(write));
    } else {
      hide Delivered, After, LatchedAt, Count, SlotOf, Start, Done, Enabled;
      var n := |ms| - 1;
      StartsAndCompletionsBalance(ms[..n], write);
      DeliveredStep(ms, Start(write));
      DeliveredStep(ms, Done(write));
      assert ms[..n + 1] == ms;
      PendingStep(ms, n, Start(write));
      PendingStep(ms, n, Done(write));
      DispatchLatchesNothing(ms, n, Start(write));
      DispatchLatchesNothing(ms, n, Done(write));
      EnabledStep(ms, n, write);
      StartThenDone(ms, n, write);
      DoneNeedsEnabled(ms, n, write);
    }
  }

  lemma DoneNeedsEnabled(ms: seq<Move>, i: nat, write: bool)
    requires i < |ms|
    ensures LatchedAt(ms, i, Done(write)) ==> Enabled(After(ms[..i]), write)
  {
  }

  /** While a start waits, its completion can still be latched or waits as well. */
  lemma {:induction false} WaitingStartIsOpen(ms: seq<Move>, write: bool)
    ensures SlotOf(After(ms), Start(write)).raised ==>
              Enabled(After(ms), write) || SlotOf(After(ms), Done(write)).raised
  {
    if ms != [] {
      hide LatchedAt;
      var n := |ms| - 1;
      WaitingStartIsOpen(ms[..n], write);
      assert ms[..n + 1] == ms;
      PendingStep(ms, n, Start(write));
      PendingStep(ms, n, Done(write));
      EnabledStep(ms, n, write);
    }
  }

  /** As long as no start is lost, delivered completions never exceed delivered starts. */
  lemma NoStartLost(ms: seq<Move>, write: bool)
    requires CountLost(ms, write) == 0
    ensures Count(Delivered(ms), Done(write)) <= Count(Delivered(ms), Start(write))
  {
    StartsAndCompletionsBalance(ms, write);
    WaitingStartIsOpen(ms, write);
  }

  /** Without one start latched over another it is the same. */
  lemma NoStartOverwritten(ms: seq<Move>, write: bool)
    requires CountOverwritten(ms, Start(write)) == 0
    ensures Count(Delivered(ms), Done(write)) <= Count(Delivered(ms), Start(write))
  {
    LostIsOverwritten(ms, write);
    NoStartLost(ms, write);
  }

  lemma {:induction false} LostIsOverwritten(ms: seq<Move>, write: bool)
    ensures CountLost(ms, write) <= CountOverwritten(ms, Start(write))
  {
    if ms != [] {
      LostIsOverwritten(ms[..|ms| - 1], write);
    }
  }

  /** Each start is followed by a round of the dispatcher at once, as in plc_tag_read(). */
  ghost predicate DispatchesStarts(ms: seq<Move>, write: bool) {
    forall i {:trigger LatchedAt(ms, i, Start(write))} ::
      0 <= i < |ms| - 1 && LatchedAt(ms, i, Start(write)) ==> ms[i + 1].Dispatch?
  }

  /** Then a start waits only right after it was latched. */
  lemma {:induction false} WaitsOnlyOneMove(ms: seq<Move>, i: nat, write: bool)
    requires DispatchesStarts(ms, write) && i <= |ms|
    requires SlotOf(After(ms[..i]), Start(write)).raised
    ensures i > 0 && LatchedAt(ms, i - 1, Start(write))
  {
    assert i == 0 ==> ms[..i] == [];
    NothingYet(Start(write));
    if i > 0 {
      PendingStep(ms, i - 1, Start(write));
      if !LatchedAt(ms, i - 1, Start(write)) {
        WaitsOnlyOneMove(ms, i - 1, write);
        LatchingNeedsCallback(ms, i - 2, Start(write));
      }
    }
  }

  lemma LatchingNeedsCallback(ms: seq<Move>, i: nat, k: Event)
    requires i < |ms| && LatchedAt(ms, i, k)
    ensures After(ms[..i + 1]).callback
  {
    AfterOneMore(ms, i);
  }

  lemma {:induction false} NothingIsOverwritten(ms: seq<Move>, n: nat, write: bool)
    requires DispatchesStarts(ms, write) && n <= |ms|
    ensures CountOverwritten(ms[..n], Start(write)) == 0
  {
    if n > 0 {
      NothingIsOverwritten(ms, n - 1, write);
      assert ms[..n][..n - 1] == ms[..n - 1];
      if OverwrittenAt(ms[..n], n - 1, Start(write)) {
        WaitsOnlyOneMove(ms, n - 1, write);
      }
    }
  }

  /** So the callback of such a caller never hears of more completions than starts. */
  lemma DispatchingStartsIsEnough(ms: seq<Move>, write: bool)
    requires DispatchesStarts(ms, write)
    ensures Count(Delivered(ms), Done(write)) <= Count(Delivered(ms), Start(write))
  {
    assert ms[..|ms|] == ms;
    NothingIsOverwritten(ms, |ms|, write);
    NoStartOverwritten(ms, write);
  }

  /** How a run is brought to rest: deliver what waits, let the operation complete, deliver that. */
  function Settle(write: bool): seq<Move> {
    [Dispatch, Raise(Done(write), PLCTAG_STATUS_OK), Dispatch]
  }

  lemma Append(ms: seq<Move>, m: Move)
    ensures After(ms + [m]) == Next(After(ms), m)
    ensures Delivered(ms + [m]) == if m.Dispatch? then Delivered(ms) + Deliveries(After(ms)) else Delivered(ms)
  {
    assert (ms + [m])[..|ms|] == ms;
    assert Delivered(ms) + [] == Delivered(ms);
  }

  lemma CountAfterDispatch(ms: seq<Move>, k: Event)
    ensures Count(Delivered(ms + [Dispatch]), k)
         == Count(Delivered(ms), k) + if After(ms).callback then IsPending(After(ms), k) else 0
  {
    Append(ms, Dispatch);
    CountConcat(Delivered(ms), Deliveries(After(ms)), k);
    CountDeliveries(After(ms), k);
  }

  lemma CountsWhenSettled(ms: seq<Move>, write: bool)
    requires After(ms).callback
    ensures Count(Delivered(ms + Settle(write)), Start(write))
         == Count(Delivered(ms), Start(write)) + IsPending(After(ms), Start(write))
    ensures Count(Delivered(ms + Settle(write)), Done(write))
         == Count(Delivered(ms), Done(write)) + IsPending(After(ms), Done(write)) + IsEnabled(After(ms), write)
  {
    hide Delivered, Deliveries, Count, After;
    var m1 := ms + [Dispatch];
    var m2 := m1 + [Raise(Done(write), PLCTAG_STATUS_OK)];
    assert ms + Settle(write) == m2 + [Dispatch];
    Append(ms, Dispatch);
    Append(m1, Raise(Done(write), PLCTAG_STATUS_OK));
    CountAfterDispatch(ms, Start(write));
    CountAfterDispatch(ms, Done(write));
    CountAfterDispatch(m2, Start(write));
    CountAfterDispatch(m2, Done(write));
  }

  /**
   * Once the run has come to rest, the callback has heard of more completions than starts exactly when the lost
   * starts outnumber the spare ones and the completions latched over.
   */
  lemma SettledIff(ms: seq<Move>, write: bool)
    requires After(ms).callback
    ensures Count(Delivered(ms + Settle(write)), Done(write)) > Count(Delivered(ms + Settle(write)), Start(write))
       <==> CountLost(ms, write) > CountSpare(ms, write) + CountOverwritten(ms, Done(write))
  {
    CountsWhenSettled(ms, write);
    StartsAndCompletionsBalance(ms, write);
  }

  /** So one start lost when the delivered counts are equal is enough: the run then comes to rest with too many. */
  lemma LostStartShows(ms: seq<Move>, write: bool)
    requires ms != [] && LostAt(ms, |ms| - 1, write)
    ensures Count(Delivered(ms + Settle(write)), Done(write)) > Count(Delivered(ms + Settle(write)), Start(write))
       <==> Count(Delivered(ms), Done(write)) >= Count(Delivered(ms), Start(write))
  {
    var n := |ms| - 1;
    assert ms[..n + 1] == ms;
    hide Delivered, Count, LatchedAt;
    LostLeavesBothWaiting(ms, write);
    CountsWhenSettled(ms, write);
  }

  lemma LostLeavesBothWaiting(ms: seq<Move>, write: bool)
    requires ms != [] && LostAt(ms, |ms| - 1, write)
    ensures var v := After(ms);
      v.callback && SlotOf(v, Start(write)).raised && SlotOf(v, Done(write)).raised && Enabled(v, write)
  {
    WaitingStartIsOpen(ms[..|ms| - 1], write);
  }

  /** A read started, completed and started again before the first round, then completed. */
  const LOST_START_RUN: seq<Move> :=
    [SetCallback(true), Raise(ReadStarted, 0), Raise(ReadCompleted, 0), Raise(ReadStarted, 0)]

  /** This run comes to rest with two completions delivered for one start. */
  lemma MoreCompletionsThanStartsDelivered()
    ensures Count(Delivered(LOST_START_RUN + Settle(false)), ReadStarted) == 1
    ensures Count(Delivered(LOST_START_RUN + Settle(false)), ReadCompleted) == 2
  {
    LostStartState();
    NoDispatchNoDelivery(LOST_START_RUN);
    hide After, Delivered;
    CountsWhenSettled(LOST_START_RUN, false);
  }

  lemma LostStartState()
    ensures var on := Slot(true, 0);
      After(LOST_START_RUN) == Latches(true, true, true, false, on, on, CLEAR, CLEAR, on, CLEAR, CLEAR)
  {
    hide Delivered, After;
    EmptyRun();
    var m1 := [SetCallback(true)];
    var m2 := m1 + [Raise(ReadStarted, 0)];
    var m3 := m2 + [Raise(ReadCompleted, 0)];
    assert [] + [SetCallback(true)] == m1;
    assert m3 + [Raise(ReadStarted, 0)] == LOST_START_RUN;
    Append([], SetCallback(true));
    Append(m1, Raise(ReadStarted, 0));
    Append(m2, Raise(ReadCompleted, 0));
    Append(m3, Raise(ReadStarted, 0));
  }

  lemma EmptyRun()
    ensures After([]) == ZEROED
  {
  }

  lemma {:induction false} NoDispatchNoDelivery(ms: seq<Move>)
    requires forall i :: 0 <= i < |ms| ==> !ms[i].Dispatch?
    ensures Delivered(ms) == []
  {
    if ms != [] {
      NoDispatchNoDelivery(ms[..|ms| - 1]);
    }
  }

  // ---- what each call of the callback says

  /** A callback is registered exactly when the latest SetCallback registered one. */
  lemma {:induction false} CallbackIff(ms: seq<Move>)
    ensures After(ms).callback <==>
            exists j :: 0 <= j < |ms| && ms[j] == SetCallback(true) && forall i :: j < i < |ms| ==> !ms[i].SetCallback?
  {
    if ms != [] {
      var n := |ms| - 1;
      var before := ms[..n];
      CallbackIff(before);
      if ms[n].SetCallback? {
        assert ms[n].present ==> ms[n] == SetCallback(true);
      } else {
        assert After(ms).callback == After(before).callback;
        if j :| 0 <= j < n && before[j] == SetCallback(true) && forall i :: j < i < n ==> !before[i].SetCallback? {
          assert ms[j] == SetCallback(true);
          assert forall i :: j < i < n ==> ms[i] == before[i];
        }
        if j :| 0 <= j < |ms| && ms[j] == SetCallback(true) && forall i :: j < i < |ms| ==> !ms[i].SetCallback? {
          assert before[j] == SetCallback(true);
        }
      }
    }
  }

  /** Which moves latch an event, in terms of the moves before. */
  lemma LatchedIff(ms: seq<Move>, i: nat, k: Event)
    requires i < |ms|
    ensures LatchedAt(ms, i, k) <==>
            && ms[i].Raise? && After(ms[..i]).callback
            && match k
               case Created =>
                 && (ms[i].event.Created? || CompletionOrAbort(ms[i].event))
                 && forall j :: 0 <= j < i ==> !LatchedAt(ms, j, Created)
               case ReadCompleted => ms[i].event.ReadCompleted? && exists j: nat :: StartOpen(ms, j, i, false)
               case WriteCompleted => ms[i].event.WriteCompleted? && exists j: nat :: StartOpen(ms, j, i, true)
               case Unsupported => false
               case _ => ms[i].event == k
  {
    hide StartOpen, After;
    EnabledIff(ms, i, false);
    EnabledIff(ms, i, true);
    HadCreatedIff(ms, i);
  }

  /** The place of an event among the calls of one round. */
  function Rank(k: Event): nat {
    match k
    case Created => 0
    case ReadStarted => 1
    case WriteStarted => 2
    case Aborted => 3
    case ReadCompleted => 4
    case WriteCompleted => 5
    case Destroyed => 6
    case Unsupported => 7
  }

  ghost predicate InRankOrder(ds: seq<Delivery>) {
    forall i, j :: 0 <= i < j < |ds| ==> Rank(ds[i].event) < Rank(ds[j].event)
  }

  ghost predicate OnlyBelow(ds: seq<Delivery>, rank: nat) {
    forall i :: 0 <= i < |ds| ==> Rank(ds[i].event) < rank
  }

  lemma PendingInOrder(ds: seq<Delivery>, e: Event, s: Slot)
    requires InRankOrder(ds) && OnlyBelow(ds, Rank(e))
    ensures InRankOrder(ds + Pending(e, s)) && OnlyBelow(ds + Pending(e, s), Rank(e) + 1)
  {
  }

  /** The calls of one round come in a fixed order, each kind at most once. */
  lemma RoundIsInOrder(v: Latches)
    ensures InRankOrder(Deliveries(v))
  {
    hide Pending, InRankOrder, OnlyBelow;
    NoneInOrder();
    if v.callback {
      var d0 := Pending(Created, v.created);
      var d1 := d0 + Pending(ReadStarted, v.readStarted);
      var d2 := d1 + Pending(WriteStarted, v.writeStarted);
      var d3 := d2 + Pending(Aborted, v.aborted);
      var d4 := d3 + Pending(ReadCompleted, v.readCompleted);
      var d5 := d4 + Pending(WriteCompleted, v.writeCompleted);
      assert [] + d0 == d0;
      PendingInOrder([], Created, v.created);
      PendingInOrder(d0, ReadStarted, v.readStarted);
      PendingInOrder(d1, WriteStarted, v.writeStarted);
      PendingInOrder(d2, Aborted, v.aborted);
      PendingInOrder(d3, ReadCompleted, v.readCompleted);
      PendingInOrder(d4, WriteCompleted, v.writeCompleted);
      PendingInOrder(d5, Destroyed, v.destroyed);
    }
  }

  lemma NoneInOrder()
    ensures InRankOrder([]) && OnlyBelow([], 0)
  {
  }

  /** A round makes just the calls of the raised flags, each with the status of its flag. */
  lemma DeliveredIff(v: Latches, d: Delivery)
    ensures d in Deliveries(v) <==> v.callback && SlotOf(v, d.event) == Slot(true, d.status)
  {
    hide Pending;
    InPending(d, Created, v.created);
    InPending(d, ReadStarted, v.readStarted);
    InPending(d, WriteStarted, v.writeStarted);
    InPending(d, Aborted, v.aborted);
    InPending(d, ReadCompleted, v.readCompleted);
    InPending(d, WriteCompleted, v.writeCompleted);
    InPending(d, Destroyed, v.destroyed);
  }

  lemma InPending(d: Delivery, e: Event, s: Slot)
    ensures d in Pending(e, s) <==> d.event == e && s == Slot(true, d.status)
  {
  }

  /** Move j latched k, and since then k has neither been latched again nor handed to a callback. */
  ghost predicate LatestOf(ms: seq<Move>, j: nat, k: Event) {
    && j < |ms| && LatchedAt(ms, j, k)
    && forall i :: j < i < |ms| ==> !LatchedAt(ms, i, k) && !DispatchedAt(ms, i)
  }

  /** Move i is a round of the dispatcher that finds a callback. */
  predicate DispatchedAt(ms: seq<Move>, i: nat)
    requires i < |ms|
  {
    ms[i].Dispatch? && After(ms[..i]).callback
  }

  lemma LatchStep(ms: seq<Move>, i: nat, k: Event)
    requires i < |ms|
    ensures SlotOf(After(ms[..i + 1]), k)
         == if LatchedAt(ms, i, k) then Slot(true, ms[i].status)
            else if DispatchedAt(ms, i) then Cleared(SlotOf(After(ms[..i]), k))
            else SlotOf(After(ms[..i]), k)
  {
    AfterOneMore(ms, i);
  }

  lemma SamePast(ms: seq<Move>, n: nat, i: nat, k: Event)
    requires i < n <= |ms|
    ensures LatchedAt(ms[..n], i, k) == LatchedAt(ms, i, k) && DispatchedAt(ms[..n], i) == DispatchedAt(ms, i)
  {
    assert ms[..n][..i] == ms[..i];
  }

  /** What waits carries the status of the move that latched it last. */
  lemma {:induction false} WaitingStatus(ms: seq<Move>, k: Event) returns (j: nat)
    requires SlotOf(After(ms), k).raised
    ensures LatestOf(ms, j, k) && ms[j].status == SlotOf(After(ms), k).status
  {
    hide LatchedAt, DispatchedAt, Next;
    var n := |ms| - 1;
    assert ms != [] by { NothingYet(k); }
    assert ms[..n + 1] == ms;
    LatchStep(ms, n, k);
    if LatchedAt(ms, n, k) {
      j := n;
    } else {
      j := WaitingStatus(ms[..n], k);
      SamePast(ms, n, j, k);
      forall i | j < i < |ms|
        ensures !LatchedAt(ms, i, k) && !DispatchedAt(ms, i)
      {
        if i < n {
          SamePast(ms, n, i, k);
        }
      }
    }
  }

  /**
   * In a round, the callback hears of each event with the status of the raise that latched it last: for a creation
   * that no one announced, that is the status of the completion or abort that stood in for it.
   */
  lemma RoundTellsStatus(ms: seq<Move>, d: Delivery) returns (j: nat)
    requires d in Deliveries(After(ms))
    ensures LatestOf(ms, j, d.event) && ms[j].Raise? && ms[j].status == d.status
  {
    hide After, Deliveries;
    DeliveredIff(After(ms), d);
    j := WaitingStatus(ms, d.event);
  }

  /** The same for every call of a whole run: there is a round that made it, and the raise before the round. */
  lemma {:induction false} EveryCallTellsStatus(ms: seq<Move>, x: nat) returns (j: nat, r: nat)
    requires x < |Delivered(ms)|
    ensures j < r < |ms| && ms[r].Dispatch? && After(ms[..r]).callback
    ensures LatestOf(ms[..r], j, Delivered(ms)[x].event) && ms[j].Raise? && ms[j].status == Delivered(ms)[x].status
  {
    hide After, Deliveries, LatestOf;
    var n := |ms| - 1;
    var before := ms[..n];
    if x < |Delivered(before)| {
      j, r := EveryCallTellsStatus(before, x);
      assert before[..r] == ms[..r];
    } else {
      var d := Delivered(ms)[x];
      assert d in Deliveries(After(before)) by {
        assert d == Deliveries(After(before))[x - |Delivered(before)|];
      }
      r := n;
      DeliveredIff(After(before), d);
      j := RoundTellsStatus(before, d);
      LatestIsEarlier(before, j, d.event);
    }
  }

  lemma LatestIsEarlier(ms: seq<Move>, j: nat, k: Event)
    requires LatestOf(ms, j, k)
    ensures j < |ms|
  {
  }
}
