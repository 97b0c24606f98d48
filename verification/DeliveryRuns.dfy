/** Whole runs of the delivery queue: one sender that lists a batch, attempts it concurrently and joins
    it before listing again, beside enqueues, cleanup batches, webhook deletions and crashes. */
module DeliveryRuns {
  import opened Common
  import opened Deliveries

  /** What a delivery is, whatever rowid it has: one event for one webhook. */
  datatype Ident = Ident(hook: int, eventId: string)

  function Of(d: Delivery): Ident { Ident(d.hook, d.eventId) }

  /** The delivery whose row has the id. */
  function Target(rows: Table, id: int): Option<Ident> {
    if rows == [] then None
    else if rows[0].id == id then Some(Of(rows[0]))
    else Target(rows[1..], id)
  }

  lemma {:induction false} TargetIs(rows: Table, id: int)
    requires Ordered(rows)
    ensures Target(rows, id).None? <==> forall d | d in rows :: d.id != id
    ensures forall d | d in rows && d.id == id :: Target(rows, id) == Some(Of(d))
  {
    if rows != [] {
      assert rows == [rows[0]] + rows[1..];
      TargetIs(rows[1..], id);
    }
  }

  /** A result that was written: the listed row it was for, what the receiver said, when, and the
      delivery whose row the overwrite hit, if any. */
  datatype Entry = Entry(snap: Delivery, accepted: bool, at: int, landed: Option<Ident>)

  datatype Step =
    | Tick(now: int)
    | Enqueue(hook: int, eventId: string, eventType: string, payload: string, ts: int)
    | List(limit: nat, at: int)
    | Finish(id: int, accepted: bool, at: int)
    | Lose(id: int)
    | Purge(before: int, limit: nat, victims: set<int>)
    | DropHook(hook: int)
    | Crash

  /** `batch` holds the listed rows whose attempts have not been recorded or abandoned yet. */
  datatype State = State(clock: int, rows: Table, batch: map<int, Delivery>, log: seq<Entry>, seen: set<Ident>)

  function Start(clock: int): State {
    State(clock, [], map[], [], {})
  }

  function Index(due: Table): map<int, Delivery> {
    if due == [] then map[] else Index(due[1..])[due[0].id := due[0]]
  }

  predicate Enabled(s: State, step: Step) {
    match step
    case Tick(now) => now >= s.clock
    case Enqueue(hook, eventId, _, _, ts) => Ident(hook, eventId) !in s.seen && ts <= s.clock
    case List(_, at) => s.batch == map[] && at <= s.clock
    case Finish(id, _, at) => id in s.batch && at <= s.clock
    case Lose(id) => id in s.batch
    case Purge(before, limit, victims) =>
      var settled := SettledIds(s.rows, before);
      victims <= settled && |victims| == if |settled| <= limit then |settled| else limit
    case DropHook(_) => true
    case Crash => true
  }

  function Apply(s: State, step: Step): State
    requires Enabled(s, step)
  {
    match step
    case Tick(now) => s.(clock := now)
    case Enqueue(hook, eventId, eventType, payload, ts) =>
      s.(rows := EnqueueDelivery(s.rows, hook, eventId, eventType, payload, ts),
         seen := s.seen + {Ident(hook, eventId)})
    case List(limit, at) => s.(batch := Index(DueDeliveries(s.rows, at, limit)))
    case Finish(id, accepted, at) =>
      s.(rows := RecordResult(s.rows, id, AttemptOutcome(s.batch[id].attempt + 1, accepted, at)),
         batch := s.batch - {id}, log := s.log + [Entry(s.batch[id], accepted, at, Target(s.rows, id))])
    case Lose(id) => s.(batch := s.batch - {id})
    case Purge(_, _, victims) => s.(rows := Without(s.rows, victims))
    case DropHook(hook) => s.(rows := WithoutHook(s.rows, hook))
    case Crash => s.(batch := map[])
  }

  predicate Runs(clock: int, steps: seq<Step>)
    decreases |steps|, 0
  {
    steps == [] ||
    (var n := |steps| - 1;
     Runs(clock, steps[..n]) && Enabled(Final(clock, steps[..n]), steps[n]))
  }

  function Final(clock: int, steps: seq<Step>): State
    requires Runs(clock, steps)
    decreases |steps|, 1
  {
    if steps == [] then Start(clock)
    else var n := |steps| - 1; Apply(Final(clock, steps[..n]), steps[n])
  }

  lemma {:induction false} IndexIs(due: Table)
    ensures forall id | id in Index(due) :: Index(due)[id] in due && Index(due)[id].id == id
  {
    if due != [] {
      IndexIs(due[1..]);
      assert forall d | d in due[1..] :: d in due;
    }
  }

  lemma {:induction false} IndexHolds(due: Table)
    ensures Index(due).Keys == Ids(due)
  {
    if due != [] {
      assert due == [due[0]] + due[1..];
      IndexHolds(due[1..]);
      assert Ids(due) == {due[0].id} + Ids(due[1..]);
    }
  }

  // ---- Every row is pending, delivered or given up, and a success is final ---------------------

  predicate WellShaped(d: Delivery) {
    && (Pending(d) ==> d.attempt < MAX_ATTEMPTS)
    && (GaveUp(d) ==> d.attempt == MAX_ATTEMPTS)
    && (Delivered(d) ==> d.nextRetry.None? && 1 <= d.attempt <= MAX_ATTEMPTS)
  }

  ghost predicate RowsInv(rows: Table, seen: set<Ident>) {
    && Ordered(rows)
    && (forall d | d in rows :: WellShaped(d) && Of(d) in seen)
    && (forall d, e | d in rows && e in rows && Of(d) == Of(e) :: d == e)
  }

  ghost predicate BatchInv(rows: Table, batch: map<int, Delivery>, seen: set<Ident>) {
    && (forall id | id in batch ::
          batch[id].id == id && Pending(batch[id]) && WellShaped(batch[id]) && Of(batch[id]) in seen)
    && (forall id, d | id in batch && d in rows :: d.id == id ==> Pending(d))
    && (forall id, d | id in batch && d in rows :: Of(d) == Of(batch[id]) ==> d.id == id)
  }

  ghost predicate Inv(s: State) {
    RowsInv(s.rows, s.seen) && BatchInv(s.rows, s.batch, s.seen)
  }

  lemma OrderedIdsAreDistinct(rows: Table, d: Delivery, e: Delivery)
    requires Ordered(rows) && d in rows && e in rows && d.id == e.id
    ensures d == e
  {
    var i :| 0 <= i < |rows| && rows[i] == d;
    var j :| 0 <= j < |rows| && rows[j] == e;
  }

  lemma RecordForward(rows: Table, id: int, o: Outcome, d: Delivery)
    requires d in rows
    ensures (if d.id == id then Settle(d, o) else d) in RecordResult(rows, id, o)
  {
    RecordAt(rows, id, o);
    var i :| 0 <= i < |rows| && rows[i] == d;
    assert RecordResult(rows, id, o)[i] in RecordResult(rows, id, o);
  }

  /** The row a row of the next table comes from. */
  lemma Origin(rows: Table, id: int, o: Outcome, e: Delivery) returns (d: Delivery)
    requires e in RecordResult(rows, id, o)
    ensures d in rows && e == if d.id == id then Settle(d, o) else d
  {
    RecordAt(rows, id, o);
    var i :| 0 <= i < |RecordResult(rows, id, o)| && RecordResult(rows, id, o)[i] == e;
    d := rows[i];
  }

  lemma EnqueueKeepsInv(s: State, step: Step)
    requires Inv(s) && Enabled(s, step) && step.Enqueue?
    ensures Inv(Apply(s, step))
  {
    EnqueueKeeps(s.rows, step.hook, step.eventId, step.eventType, step.payload, step.ts);
  }

  /** Purging and cascading only remove rows. */
  lemma ShrinkKeepsInv(s: State, step: Step)
    requires Inv(s) && Enabled(s, step) && (step.Purge? || step.DropHook?)
    ensures Inv(Apply(s, step))
    ensures forall d | d in Apply(s, step).rows :: d in s.rows
  {
    if step.Purge? {
      WithoutKeeps(s.rows, step.victims);
    } else {
      WithoutHookKeeps(s.rows, step.hook);
    }
  }

  lemma ListKeepsInv(s: State, step: Step)
    requires Inv(s) && Enabled(s, step) && step.List?
    ensures Inv(Apply(s, step))
    ensures forall id | id in Apply(s, step).batch ::
      Apply(s, step).batch[id] in s.rows && IsDue(Apply(s, step).batch[id], step.at)
  {
    var due := DueDeliveries(s.rows, step.at, step.limit);
    DueListIsExact(s.rows, step.at, step.limit);
    IndexIs(due);
    var batch := Index(due);
    forall id, d | id in batch && d in s.rows && d.id == id ensures Pending(d) {
      OrderedIdsAreDistinct(s.rows, d, batch[id]);
    }
  }

  /** A result for a listed attempt lands on a pending row, if on any, and leaves a well shaped one. */
  lemma ResultKeepsRows(s: State, id: int, o: Outcome)
    requires Inv(s) && id in s.batch
    requires forall d | d in s.rows && d.id == id :: WellShaped(Settle(d, o))
    ensures RowsInv(RecordResult(s.rows, id, o), s.seen)
  {
    var rows := RecordResult(s.rows, id, o);
    RecordKeepsOrder(s.rows, id, o);
    forall e | e in rows ensures WellShaped(e) && Of(e) in s.seen {
      var d := Origin(s.rows, id, o, e);
    }
    forall e, f | e in rows && f in rows && Of(e) == Of(f) ensures e == f {
      var d := Origin(s.rows, id, o, e);
      var c := Origin(s.rows, id, o, f);
    }
  }

  lemma FinishKeepsInv(s: State, step: Step)
    requires Inv(s) && Enabled(s, step) && step.Finish?
    ensures Inv(Apply(s, step))
  {
    var o := AttemptOutcome(s.batch[step.id].attempt + 1, step.accepted, step.at);
    var t := Apply(s, step);
    ResultKeepsRows(s, step.id, o);
    forall id, d | id in t.batch && d in t.rows
      ensures d.id == id ==> Pending(d)
      ensures Of(d) == Of(t.batch[id]) ==> d.id == id
    {
      var c := Origin(s.rows, step.id, o, d);
    }
  }

  lemma InvStep(s: State, step: Step)
    requires Inv(s) && Enabled(s, step)
    ensures Inv(Apply(s, step))
  {
    match step
    case Enqueue(_, _, _, _, _) => EnqueueKeepsInv(s, step);
    case List(_, _) => ListKeepsInv(s, step);
    case Finish(_, _, _) => FinishKeepsInv(s, step);
    case Purge(_, _, _) => ShrinkKeepsInv(s, step);
    case DropHook(_) => ShrinkKeepsInv(s, step);
    case _ =>
  }

  lemma {:induction false} InvAlways(clock: int, steps: seq<Step>)
    requires Runs(clock, steps)
    ensures Inv(Final(clock, steps))
  {
    if steps != [] {
      var n := |steps| - 1;
      InvAlways(clock, steps[..n]);
      InvStep(Final(clock, steps[..n]), steps[n]);
    }
  }

  /** Every row is exactly one of pending, delivered and given up; at most four attempts are recorded,
      all four exactly when it was given up. */
  lemma Lifetime(clock: int, steps: seq<Step>, d: Delivery)
    requires Runs(clock, steps) && d in Final(clock, steps).rows
    ensures d.attempt <= 4
    ensures Pending(d) ==> !Delivered(d) && !GaveUp(d) && d.attempt < 4
    ensures GaveUp(d) <==> !Delivered(d) && d.attempt == 4
    ensures Pending(d) || Delivered(d) || GaveUp(d)
    ensures Delivered(d) ==> d.nextRetry.None?
  {
    InvAlways(clock, steps);
  }

  /** The delivery is settled: the row, while it exists, is `d`, and nothing in flight is for it. */
  predicate Closed(s: State, d: Delivery) {
    && Of(d) in s.seen
    && (forall e | e in s.rows && Of(e) == Of(d) :: e == d)
    && (forall id | id in s.batch :: Of(s.batch[id]) != Of(d))
  }

  lemma FinishKeepsClosed(s: State, step: Step, d: Delivery)
    requires Inv(s) && Enabled(s, step) && step.Finish? && Closed(s, d) && Delivered(d)
    ensures Closed(Apply(s, step), d)
  {
    forall e | e in Apply(s, step).rows && Of(e) == Of(d) ensures e == d {
      var c := Origin(s.rows, step.id, AttemptOutcome(s.batch[step.id].attempt + 1, step.accepted, step.at), e);
    }
  }

  lemma ClosedStep(s: State, step: Step, d: Delivery)
    requires Inv(s) && Enabled(s, step) && Closed(s, d) && Delivered(d)
    ensures Closed(Apply(s, step), d)
  {
    match step
    case List(_, _) => ListKeepsInv(s, step);
    case Finish(_, _, _) =>
      FinishKeepsClosed(s, step, d);
    case Purge(_, _, _) => ShrinkKeepsInv(s, step);
    case DropHook(_) => ShrinkKeepsInv(s, step);
    case _ =>
  }

  /** A recorded success is final: from then on the row is never rewritten while it exists, it is never
      attempted again, and its webhook gets no second row for the event. */
  lemma {:induction false} DeliveredIsFinal(clock: int, steps: seq<Step>, n: nat, d: Delivery)
    requires Runs(clock, steps) && n <= |steps| && Runs(clock, steps[..n])
    requires d in Final(clock, steps[..n]).rows && Delivered(d)
    ensures Closed(Final(clock, steps), d)
  {
    if n == |steps| {
      assert steps[..n] == steps;
      InvAlways(clock, steps);
    } else {
      var m := |steps| - 1;
      assert steps[..m][..n] == steps[..n];
      DeliveredIsFinal(clock, steps[..m], n, d);
      InvAlways(clock, steps[..m]);
      ClosedStep(Final(clock, steps[..m]), steps[m], d);
    }
  }

  /** The cleanup removes no pending row. */
  lemma CleanupSparesPending(clock: int, steps: seq<Step>, step: Step, d: Delivery)
    requires Runs(clock, steps) && Enabled(Final(clock, steps), step) && step.Purge?
    requires d in Final(clock, steps).rows && Pending(d)
    ensures d in Apply(Final(clock, steps), step).rows
  {
    InvAlways(clock, steps);
    var s := Final(clock, steps);
    WithoutKeeps(s.rows, step.victims);
    forall e | e in s.rows && e.id == d.id ensures e == d {
      OrderedIdsAreDistinct(s.rows, d, e);
    }
  }
}
