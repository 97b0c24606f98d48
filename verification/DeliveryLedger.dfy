/** What the attempt counter and the stamps of a delivery row say about the receiver. This holds as long
    as no rowid is handed out again while the row that had it is in flight, and fails otherwise. */
module DeliveryLedger {
  import opened Common
  import opened Deliveries
  import opened DeliveryRuns

  /** Results written for a delivery. */
  function Recorded(log: seq<Entry>, x: Ident): nat {
    if log == [] then 0
    else Recorded(log[..|log| - 1], x) + if Of(log[|log| - 1].snap) == x then 1 else 0
  }

  /** Those the receiver accepted. */
  function Accepted(log: seq<Entry>, x: Ident): nat {
    if log == [] then 0
    else
      Accepted(log[..|log| - 1], x)
      + if Of(log[|log| - 1].snap) == x && log[|log| - 1].accepted then 1 else 0
  }

  /** When the latest of them was written. */
  function LastAt(log: seq<Entry>, x: Ident): int {
    if log == [] then 0
    else if Of(log[|log| - 1].snap) == x then log[|log| - 1].at
    else LastAt(log[..|log| - 1], x)
  }

  lemma AppendCounts(log: seq<Entry>, e: Entry, x: Ident)
    ensures Recorded(log + [e], x) == Recorded(log, x) + if Of(e.snap) == x then 1 else 0
    ensures Accepted(log + [e], x) == Accepted(log, x) + if Of(e.snap) == x && e.accepted then 1 else 0
    ensures LastAt(log + [e], x) == if Of(e.snap) == x then e.at else LastAt(log, x)
  {
    assert (log + [e])[..|log|] == log;
  }

  /** A row whose id is in flight is still the row that was listed. */
  predicate Matched(s: State) {
    forall id, d | id in s.batch && d in s.rows :: d.id == id ==> d == s.batch[id]
  }

  /** The enqueue takes the rowid of a listed row that is gone. */
  predicate Reuses(s: State, step: Step) {
    step.Enqueue? && NextId(s.rows) in s.batch
  }

  predicate NoReuse(clock: int, steps: seq<Step>)
    requires Runs(clock, steps)
  {
    steps == [] ||
    (var n := |steps| - 1; NoReuse(clock, steps[..n]) && !Reuses(Final(clock, steps[..n]), steps[n]))
  }

  /** Exactly one kind of step can detach an in-flight attempt from its row. */
  lemma OnlyReuseDetaches(s: State, step: Step)
    requires Inv(s) && Matched(s) && Enabled(s, step)
    ensures Matched(Apply(s, step)) <==> !Reuses(s, step)
  {
    var t := Apply(s, step);
    match step
    case Enqueue(_, _, _, _, _) =>
      var d := t.rows[|s.rows|];
      assert d in t.rows && d.id == NextId(s.rows);
      if NextId(s.rows) in s.batch {
        assert Of(d) !in s.seen && Of(s.batch[d.id]) in s.seen;
      }
    case List(_, _) =>
      ListKeepsInv(s, step);
      forall id, d | id in t.batch && d in t.rows && d.id == id ensures d == t.batch[id] {
        OrderedIdsAreDistinct(s.rows, d, t.batch[id]);
      }
    case Finish(_, _, _) => FinishKeepsMatched(s, step);
    case Purge(_, _, _) => ShrinkKeepsInv(s, step);
    case DropHook(_) => ShrinkKeepsInv(s, step);
    case _ =>
  }

  lemma FinishKeepsMatched(s: State, step: Step)
    requires Inv(s) && Matched(s) && Enabled(s, step) && step.Finish?
    ensures Matched(Apply(s, step))
  {
    var t := Apply(s, step);
    forall id, d | id in t.batch && d in t.rows && d.id == id ensures d == t.batch[id] {
      var c := Origin(s.rows, step.id, AttemptOutcome(s.batch[step.id].attempt + 1, step.accepted, step.at), d);
    }
  }

  predicate Accounted(log: seq<Entry>, d: Delivery) {
    && d.attempt == Recorded(log, Of(d))
    && Accepted(log, Of(d)) == (if Delivered(d) then 1 else 0)
    && (Delivered(d) ==> d.deliveredAt == Some(LastAt(log, Of(d))))
    && (Pending(d) && 1 <= d.attempt <= |RETRY_SCHEDULE| ==>
          RetryAt(d) == LastAt(log, Of(d)) + RETRY_SCHEDULE[d.attempt - 1])
  }

  ghost predicate LedgerInv(s: State) {
    && Inv(s) && Matched(s)
    && (forall i, j | i in s.batch && j in s.batch && Of(s.batch[i]) == Of(s.batch[j]) :: i == j)
    && (forall d | d in s.rows :: Accounted(s.log, d))
    && (forall id | id in s.batch :: Accounted(s.log, s.batch[id]) && RetryAt(s.batch[id]) <= s.clock)
    && (forall x | x !in s.seen :: Recorded(s.log, x) == 0 && Accepted(s.log, x) == 0)
  }

  lemma SettledIsAccounted(log: seq<Entry>, e: Entry)
    requires Accounted(log, e.snap) && Pending(e.snap) && e.snap.attempt < MAX_ATTEMPTS
    ensures Accounted(log + [e], Settle(e.snap, AttemptOutcome(e.snap.attempt + 1, e.accepted, e.at)))
  {
    AppendCounts(log, e, Of(e.snap));
  }

  lemma FinishedRowAccounted(s: State, step: Step, d: Delivery)
    requires LedgerInv(s) && Enabled(s, step) && step.Finish? && d in Apply(s, step).rows
    ensures Accounted(Apply(s, step).log, d)
  {
    hide RecordResult, Ordered, Target, Recorded, Accepted, LastAt;
    var snap := s.batch[step.id];
    var o := AttemptOutcome(snap.attempt + 1, step.accepted, step.at);
    var c := Origin(s.rows, step.id, o, d);
    if c.id == step.id {
      assert c == snap;
      SettledIsAccounted(s.log, Entry(snap, step.accepted, step.at, Target(s.rows, step.id)));
    } else {
      AppendCounts(s.log, Entry(snap, step.accepted, step.at, Target(s.rows, step.id)), Of(d));
    }
  }

  lemma FinishKeepsLedger(s: State, step: Step)
    requires LedgerInv(s) && Enabled(s, step) && step.Finish?
    ensures LedgerInv(Apply(s, step))
  {
    var t, entry := Apply(s, step), Entry(s.batch[step.id], step.accepted, step.at, Target(s.rows, step.id));
    FinishKeepsInv(s, step);
    FinishKeepsMatched(s, step);
    forall x | x !in t.seen ensures Recorded(t.log, x) == 0 && Accepted(t.log, x) == 0 {
      AppendCounts(s.log, entry, x);
    }
    forall d | d in t.rows ensures Accounted(t.log, d) {
      FinishedRowAccounted(s, step, d);
    }
    forall id | id in t.batch ensures Accounted(t.log, t.batch[id]) {
      AppendCounts(s.log, entry, Of(t.batch[id]));
    }
  }

  lemma LedgerStep(s: State, step: Step)
    requires LedgerInv(s) && Enabled(s, step) && !Reuses(s, step)
    ensures LedgerInv(Apply(s, step))
  {
    InvStep(s, step);
    OnlyReuseDetaches(s, step);
    match step
    case Enqueue(_, _, _, _, _) => EnqueueKeepsInv(s, step);
    case List(_, _) => ListKeepsInv(s, step);
    case Finish(_, _, _) => FinishKeepsLedger(s, step);
    case Purge(_, _, _) => ShrinkKeepsInv(s, step);
    case DropHook(_) => ShrinkKeepsInv(s, step);
    case _ =>
  }

  lemma {:induction false} LedgerAlways(clock: int, steps: seq<Step>)
    requires Runs(clock, steps) && NoReuse(clock, steps)
    ensures LedgerInv(Final(clock, steps))
  {
    if steps != [] {
      var n := |steps| - 1;
      LedgerAlways(clock, steps[..n]);
      LedgerStep(Final(clock, steps[..n]), steps[n]);
    }
  }

  /** The attempt counter is the number of results written for that very delivery; it is stamped
      delivered exactly when its receiver accepted it, once, and it gives up exactly at four refusals. */
  lemma DeliveryAccounting(clock: int, steps: seq<Step>, d: Delivery)
    requires Runs(clock, steps) && NoReuse(clock, steps) && d in Final(clock, steps).rows
    ensures var log := Final(clock, steps).log;
      && d.attempt == Recorded(log, Of(d)) <= MAX_ATTEMPTS
      && (Delivered(d) <==> Accepted(log, Of(d)) == 1)
      && (GaveUp(d) <==> Recorded(log, Of(d)) - Accepted(log, Of(d)) == MAX_ATTEMPTS)
  {
    LedgerAlways(clock, steps);
  }

  /** Whatever is being attempted for the second, third or fourth time has waited out the schedule since
      the refusal before it. */
  lemma RetriesWait(clock: int, steps: seq<Step>, id: int)
    requires Runs(clock, steps) && NoReuse(clock, steps) && id in Final(clock, steps).batch
    ensures var s := Final(clock, steps); var d := s.batch[id];
      && d.attempt == Recorded(s.log, Of(d)) < MAX_ATTEMPTS
      && (d.attempt >= 1 ==> s.clock >= LastAt(s.log, Of(d)) + RETRY_SCHEDULE[d.attempt - 1])
  {
    LedgerAlways(clock, steps);
  }

  /** Every reuse can mislead: if the attempt whose id was taken then succeeds, the new delivery is stamped
      delivered and counts an attempt, although no result was ever written for it. */
  lemma ReuseMisleads(s: State, step: Step) returns (next: Step, d: Delivery)
    requires LedgerInv(s) && Enabled(s, step) && Reuses(s, step)
    ensures next == Finish(NextId(s.rows), true, s.clock) && Enabled(Apply(s, step), next)
    ensures var t := Apply(Apply(s, step), next);
      && d in t.rows && Of(d) == Ident(step.hook, step.eventId)
      && Delivered(d) && d.attempt >= 1 && Recorded(t.log, Of(d)) == 0 && Accepted(t.log, Of(d)) == 0
  {
    hide RecordResult, Ordered, Target, WellShaped, Accounted, Recorded, Accepted, LastAt;
    var id, mid := NextId(s.rows), Apply(s, step);
    next := Finish(id, true, s.clock);
    var row := mid.rows[|s.rows|];
    assert row in mid.rows && row.id == id && Of(row) !in s.seen;
    var snap := s.batch[id];
    var o := AttemptOutcome(snap.attempt + 1, true, s.clock);
    RecordForward(mid.rows, id, o, row);
    d := Settle(row, o);
    AppendCounts(s.log, Entry(snap, true, s.clock, Target(mid.rows, id)), Of(d));
  }

  /** The accounts survive a step, and whatever result is written next, if and only if the step does not
      reuse an id in flight. */
  lemma AccountsSurvive(s: State, step: Step)
    requires LedgerInv(s) && Enabled(s, step)
    ensures !Reuses(s, step) <==>
      (forall next: Step | next.Finish? && Enabled(Apply(s, step), next) :: AllAccounted(Apply(Apply(s, step), next)))
  {
    if Reuses(s, step) {
      var next, d := ReuseMisleads(s, step);
    } else {
      LedgerStep(s, step);
      forall next: Step | next.Finish? && Enabled(Apply(s, step), next)
        ensures AllAccounted(Apply(Apply(s, step), next))
      {
        FinishKeepsLedger(Apply(s, step), next);
      }
    }
  }

  predicate AllAccounted(s: State) { forall d | d in s.rows :: Accounted(s.log, d) }

  // ---- The delay of a row, whatever ids are reused ----------------------------------------------

  /** When a result last landed on the row of a delivery. */
  function LandedAt(log: seq<Entry>, x: Ident): Option<int> {
    if log == [] then None
    else if log[|log| - 1].landed == Some(x) then Some(log[|log| - 1].at)
    else LandedAt(log[..|log| - 1], x)
  }

  /** The row is due again the scheduled time after the result it carries. */
  predicate Scheduled(log: seq<Entry>, d: Delivery) {
    Pending(d) && 1 <= d.attempt <= |RETRY_SCHEDULE| ==>
      LandedAt(log, Of(d)) == Some(RetryAt(d) - RETRY_SCHEDULE[d.attempt - 1])
  }

  ghost predicate ScheduleInv(s: State) {
    && Inv(s)
    && (forall d | d in s.rows :: Scheduled(s.log, d))
    && (forall id | id in s.batch :: Scheduled(s.log, s.batch[id]) && RetryAt(s.batch[id]) <= s.clock)
  }

  lemma AppendLanded(log: seq<Entry>, e: Entry, x: Ident)
    ensures LandedAt(log + [e], x) == if e.landed == Some(x) then Some(e.at) else LandedAt(log, x)
  {
    assert (log + [e])[..|log|] == log;
  }

  /** A result lands on a row exactly when the row has its id. */
  lemma LandsUnderId(rows: Table, seen: set<Ident>, id: int, d: Delivery)
    requires RowsInv(rows, seen) && d in rows
    ensures Target(rows, id) == Some(Of(d)) <==> d.id == id
  {
    TargetIs(rows, id);
    if Target(rows, id).Some? {
      var e :| e in rows && e.id == id;
    }
  }

  lemma FinishedRowScheduled(s: State, step: Step, d: Delivery)
    requires ScheduleInv(s) && Enabled(s, step) && step.Finish? && d in Apply(s, step).rows
    ensures Scheduled(Apply(s, step).log, d)
  {
    hide RowsInv, Target, RecordResult, Ordered;
    var snap := s.batch[step.id];
    var c := Origin(s.rows, step.id, AttemptOutcome(snap.attempt + 1, step.accepted, step.at), d);
    LandsUnderId(s.rows, s.seen, step.id, c);
    AppendLanded(s.log, Entry(snap, step.accepted, step.at, Target(s.rows, step.id)), Of(d));
  }

  lemma FinishedSnapScheduled(s: State, step: Step, id: int)
    requires ScheduleInv(s) && Enabled(s, step) && step.Finish? && id in s.batch && id != step.id
    ensures Scheduled(Apply(s, step).log, s.batch[id])
  {
    var e := Entry(s.batch[step.id], step.accepted, step.at, Target(s.rows, step.id));
    TargetIs(s.rows, step.id);
    AppendLanded(s.log, e, Of(s.batch[id]));
  }

  lemma FinishKeepsSchedule(s: State, step: Step)
    requires ScheduleInv(s) && Enabled(s, step) && step.Finish?
    ensures ScheduleInv(Apply(s, step))
  {
    hide Scheduled, Target, RecordResult, RowsInv, BatchInv;
    var t := Apply(s, step);
    FinishKeepsInv(s, step);
    forall d | d in t.rows ensures Scheduled(t.log, d) {
      FinishedRowScheduled(s, step, d);
    }
    forall id | id in t.batch ensures Scheduled(t.log, t.batch[id]) {
      FinishedSnapScheduled(s, step, id);
    }
  }

  lemma ScheduleStep(s: State, step: Step)
    requires ScheduleInv(s) && Enabled(s, step)
    ensures ScheduleInv(Apply(s, step))
  {
    match step
    case Enqueue(_, _, _, _, _) => EnqueueKeepsInv(s, step);
    case List(_, _) => ListKeepsInv(s, step);
    case Finish(_, _, _) => FinishKeepsSchedule(s, step);
    case Purge(_, _, _) => ShrinkKeepsInv(s, step);
    case DropHook(_) => ShrinkKeepsInv(s, step);
    case _ =>
  }

  lemma {:induction false} ScheduleAlways(clock: int, steps: seq<Step>)
    requires Runs(clock, steps)
    ensures ScheduleInv(Final(clock, steps))
  {
    if steps != [] {
      var n := |steps| - 1;
      ScheduleAlways(clock, steps[..n]);
      ScheduleStep(Final(clock, steps[..n]), steps[n]);
    }
  }

  /** In every run, what is being attempted for the second, third or fourth time has waited out the
      schedule since a result was last written to its row. */
  lemma RowsWait(clock: int, steps: seq<Step>, id: int)
    requires Runs(clock, steps) && id in Final(clock, steps).batch
    ensures var s := Final(clock, steps); var d := s.batch[id];
      && d.attempt < MAX_ATTEMPTS
      && (d.attempt >= 1 ==>
            && LandedAt(s.log, Of(d)).Some?
            && s.clock >= LandedAt(s.log, Of(d)).value + RETRY_SCHEDULE[d.attempt - 1])
  {
    ScheduleAlways(clock, steps);
  }

  // ---- When rowids are not reused ---------------------------------------------------------------

  /** No webhook is deleted while one of its deliveries is being attempted. */
  predicate CarefulDrops(clock: int, steps: seq<Step>)
    requires Runs(clock, steps)
  {
    steps == [] ||
    (var n := |steps| - 1;
     && CarefulDrops(clock, steps[..n])
     && (steps[n].DropHook? ==>
           var batch := Final(clock, steps[..n]).batch; forall id | id in batch :: batch[id].hook != steps[n].hook))
  }

  predicate Present(s: State) {
    forall id | id in s.batch :: s.batch[id] in s.rows
  }

  lemma PresentStep(s: State, step: Step)
    requires Inv(s) && Present(s) && Enabled(s, step)
    requires step.DropHook? ==> forall id | id in s.batch :: s.batch[id].hook != step.hook
    ensures Present(Apply(s, step)) && !Reuses(s, step)
  {
    match step
    case Enqueue(hook, eventId, eventType, payload, ts) => EnqueueKeeps(s.rows, hook, eventId, eventType, payload, ts);
    case List(_, _) => ListKeepsInv(s, step);
    case Finish(_, _, _) =>
      forall id | id in Apply(s, step).batch ensures s.batch[id] in Apply(s, step).rows {
        var o := AttemptOutcome(s.batch[step.id].attempt + 1, step.accepted, step.at);
        RecordForward(s.rows, step.id, o, s.batch[id]);
      }
    case Purge(before, _, victims) =>
      WithoutKeeps(s.rows, victims);
      forall id | id in s.batch ensures s.batch[id].id !in victims {
        forall e | e in s.rows && e.id == id ensures e == s.batch[id] {
          OrderedIdsAreDistinct(s.rows, s.batch[id], e);
        }
      }
    case DropHook(hook) => WithoutHookKeeps(s.rows, hook);
    case _ =>
  }

  lemma {:induction false} PresentAlways(clock: int, steps: seq<Step>)
    requires Runs(clock, steps) && CarefulDrops(clock, steps)
    ensures Present(Final(clock, steps)) && NoReuse(clock, steps)
  {
    if steps != [] {
      var n := |steps| - 1;
      PresentAlways(clock, steps[..n]);
      InvAlways(clock, steps[..n]);
      PresentStep(Final(clock, steps[..n]), steps[n]);
    }
  }

  /** While no webhook is deleted under its own in-flight attempts, rowids are never reused under one,
      so the accounting above holds. */
  lemma CarefulDropsKeepAccounts(clock: int, steps: seq<Step>, d: Delivery)
    requires Runs(clock, steps) && CarefulDrops(clock, steps) && d in Final(clock, steps).rows
    ensures d.attempt == Recorded(Final(clock, steps).log, Of(d))
    ensures Delivered(d) <==> Accepted(Final(clock, steps).log, Of(d)) == 1
  {
    PresentAlways(clock, steps);
    DeliveryAccounting(clock, steps, d);
  }

  // ---- And when they are --------------------------------------------------------------------------

  lemma Extend(clock: int, steps: seq<Step>, step: Step)
    requires Runs(clock, steps) && Enabled(Final(clock, steps), step)
    ensures Runs(clock, steps + [step])
    ensures Final(clock, steps + [step]) == Apply(Final(clock, steps), step)
  {
    assert (steps + [step])[..|steps|] == steps;
  }

  /** A webhook is deleted while its only delivery is being posted; the next enqueue, for another
      webhook, takes the same rowid; the first post then succeeds. The second delivery is stamped
      delivered although nothing was ever posted for it, and it will never be. */
  lemma StaleResultLandsElsewhere() returns (steps: seq<Step>, d: Delivery)
    ensures Runs(0, steps) && d in Final(0, steps).rows
    ensures Delivered(d) && d.attempt == 1
    ensures Recorded(Final(0, steps).log, Of(d)) == 0
    ensures Closed(Final(0, steps), d)
  {
    var a := Delivery(1, 1, "evt_a", "token.created", "{}", 0, Some(0), None, 0);
    var b := Delivery(1, 2, "evt_b", "token.created", "{}", 0, Some(0), None, 0);
    steps := [];
    var s1 := Enqueue(1, "evt_a", "token.created", "{}", 0);
    Extend(0, steps, s1);
    steps := steps + [s1];
    assert Final(0, steps).rows == [a];
    assert DueRows([a], 0) == [a] by { assert DueRows([a][1..], 0) == []; }
    assert ByRetry([a]) == [a] by { assert ByRetry([a][1..]) == []; }
    assert Index([a]) == map[1 := a] by { assert Index([a][1..]) == map[]; }
    Extend(0, steps, List(50, 0));
    steps := steps + [List(50, 0)];
    assert Final(0, steps).batch == map[1 := a];
    Extend(0, steps, DropHook(1));
    steps := steps + [DropHook(1)];
    assert Final(0, steps).rows == [] by { assert WithoutHook([a][1..], 1) == []; }
    var s4 := Enqueue(2, "evt_b", "token.created", "{}", 0);
    Extend(0, steps, s4);
    steps := steps + [s4];
    assert Final(0, steps).rows == [b];
    Extend(0, steps, Finish(1, true, 0));
    steps := steps + [Finish(1, true, 0)];
    d := Settle(b, AttemptOutcome(1, true, 0));
    assert Final(0, steps).rows == [d] by {
      assert RecordResult([b][1..], 1, AttemptOutcome(1, true, 0)) == [];
    }
    var e := Entry(a, true, 0, Some(Of(b)));
    assert Final(0, steps).log == [] + [e];
    AppendCounts([], e, Of(d));
    DeliveredIsFinal(0, steps, |steps|, d) by { assert steps[..|steps|] == steps; }
  }
}
