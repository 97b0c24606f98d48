/** A round of the sender is a run of the delivery machine, so what holds over all runs of the machine
    holds of the sender. */
module SendRuns {
  import D = Deliveries
  import R = DeliveryRuns
  import L = DeliveryLedger
  import opened SendRounds

  /** Every recorded result carries a time up to `late`. */
  ghost predicate OverBy(w: World, late: int) {
    forall id :: w.fate(id).Recorded? ==> w.fate(id).at <= late
  }

  predicate NoEnqueue(steps: seq<R.Step>) { forall step | step in steps :: !step.Enqueue? }

  /** A step that is no enqueue extends a run and takes no id. */
  lemma Continue(clock: int, steps: seq<R.Step>, step: R.Step)
    requires R.Runs(clock, steps) && R.Enabled(R.Final(clock, steps), step) && !step.Enqueue?
    ensures R.Runs(clock, steps + [step])
    ensures R.Final(clock, steps + [step]) == R.Apply(R.Final(clock, steps), step)
    ensures L.NoReuse(clock, steps) ==> L.NoReuse(clock, steps + [step])
  {
    assert (steps + [step])[..|steps|] == steps;
  }

  /** How one listed delivery leaves the batch. */
  function Leave(w: World, d: D.Delivery): R.Step {
    if Settles(w, d) then R.Finish(d.id, FateOf(w, d).accepted, FateOf(w, d).at) else R.Lose(d.id)
  }

  lemma LeaveActs(w: World, s: R.State, rows: D.Table, done: set<int>, d: D.Delivery)
    requires D.Ordered(rows) && s.rows == AfterAttempts(w, rows, done)
    requires d in rows && d.id !in done && d.id in s.batch && s.batch[d.id] == d && OverBy(w, s.clock)
    ensures R.Enabled(s, Leave(w, d))
    ensures var t := R.Apply(s, Leave(w, d));
      t.rows == AfterAttempts(w, rows, done + {d.id}) && t.batch == s.batch - {d.id} && t.clock == s.clock
  {
    assert FateOf(w, d).Recorded? ==> w.fate(d.id).at <= s.clock;
    if Settles(w, d) {
      RecordAttempts(w, rows, done, d);
    } else {
      UnsettledDoNotCount(w, rows, done, done + {d.id}) by {
        forall e | e in rows && Settles(w, e) ensures e.id in done <==> e.id in done + {d.id} {
          if e.id == d.id { R.OrderedIdsAreDistinct(rows, d, e); }
        }
      }
    }
  }

  /** The attempts of a batch can leave it one after the other until it is empty. */
  lemma {:induction false} BatchDrains(clock: int, steps: seq<R.Step>, w: World, rows: D.Table, done: set<int>)
    returns (more: seq<R.Step>)
    requires R.Runs(clock, steps) && D.Ordered(rows) && OverBy(w, R.Final(clock, steps).clock)
    requires R.Final(clock, steps).rows == AfterAttempts(w, rows, done)
    requires var batch := R.Final(clock, steps).batch;
      forall id | id in batch :: batch[id].id == id && batch[id] in rows && id !in done
    ensures R.Runs(clock, steps + more) && NoEnqueue(more)
    ensures L.NoReuse(clock, steps) ==> L.NoReuse(clock, steps + more)
    ensures var s, t := R.Final(clock, steps), R.Final(clock, steps + more);
      t.batch == map[] && t.rows == AfterAttempts(w, rows, done + s.batch.Keys)
    decreases R.Final(clock, steps).batch.Keys
  {
    hide AfterAttempts, Settles, L.NoReuse, R.Runs, R.Final, R.Apply, R.Enabled;
    var s := R.Final(clock, steps);
    var left := set d | d in rows && d.id in s.batch && s.batch[d.id] == d;
    assert forall id | id in s.batch :: s.batch[id] in left;
    if left == {} {
      more := [];
      assert steps + more == steps && done + s.batch.Keys == done;
    } else {
      var d :| d in left;
      var step := Leave(w, d);
      LeaveActs(w, s, rows, done, d);
      Continue(clock, steps, step);
      assert (s.batch - {d.id}).Keys == s.batch.Keys - {d.id};
      more := BatchDrains(clock, steps + [step], w, rows, done + {d.id});
      assert steps + [step] + more == steps + ([step] + more);
      assert done + {d.id} + (s.batch - {d.id}).Keys == done + s.batch.Keys;
      more := [step] + more;
    }
  }

  /** Whatever run led to an idle sender, listing a batch at some instant up to now and dealing with every
      delivery in it, as the round does, is a continuation of that run which ends idle again with the
      table the round leaves. */
  lemma RoundIsARun(clock: int, steps: seq<R.Step>, w: World, at: int, late: int) returns (more: seq<R.Step>)
    requires R.Runs(clock, steps) && R.Final(clock, steps).batch == map[]
    requires OverBy(w, late) && at <= R.Final(clock, steps).clock <= late
    ensures R.Runs(clock, steps + more) && NoEnqueue(more)
    ensures L.NoReuse(clock, steps) ==> L.NoReuse(clock, steps + more)
    ensures var s, t := R.Final(clock, steps), R.Final(clock, steps + more);
      t.batch == map[] && t.rows == Round(w, s.rows, at)
  {
    hide AfterAttempts, D.DueDeliveries, Settles, L.NoReuse, R.Runs, R.Final, R.BatchInv, R.WellShaped, D.IsDue;
    var s := R.Final(clock, steps);
    R.InvAlways(clock, steps);
    D.DueListIsExact(s.rows, at, SWEEP_BATCH);
    var due := D.DueDeliveries(s.rows, at, SWEEP_BATCH);
    R.IndexIs(due);
    R.IndexHolds(due);
    NoAttempts(w, s.rows);
    var list, wait := R.List(SWEEP_BATCH, at), R.Tick(late);
    Continue(clock, steps, list);
    Continue(clock, steps + [list], wait);
    var begun := steps + [list] + [wait];
    more := BatchDrains(clock, begun, w, s.rows, {});
    assert {} + R.Index(due).Keys == Batch(s.rows, at);
    assert begun + more == steps + ([list, wait] + more);
    more := [list, wait] + more;
  }
}
