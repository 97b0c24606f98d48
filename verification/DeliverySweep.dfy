/** When pruning settled deliveries is invisible to the sender: a table that is pruned and one that never
    is, each with the batch its sender has in flight. Results are recorded by rowid, rowids differ between
    the two, and pruning decides which of them an enqueue takes again. */
module DeliverySweep {
  import opened Common
  import opened Deliveries
  import R = DeliveryRuns
  import L = DeliveryLedger

  datatype World = World(pruned: R.State, full: R.State)

  function Start(clock: int): World { World(R.Start(clock), R.Start(clock)) }

  /** One event in both, or one cleanup batch on the pruned table only. An attempt ends in both under
      the rowid each has listed for it. */
  datatype Op =
    | Both(step: R.Step)
    | Finish(pruned: int, full: int, accepted: bool, at: int)
    | Lose(pruned: int, full: int)
    | Purge(before: int, limit: nat, victims: set<int>)

  function OnPruned(op: Op): R.Step {
    match op
    case Both(step) => step
    case Finish(id, _, accepted, at) => R.Finish(id, accepted, at)
    case Lose(id, _) => R.Lose(id)
    case Purge(before, limit, victims) => R.Purge(before, limit, victims)
  }

  function OnFull(op: Op): R.Step
    requires !op.Purge?
  {
    match op
    case Both(step) => step
    case Finish(_, id, accepted, at) => R.Finish(id, accepted, at)
    case Lose(_, id) => R.Lose(id)
  }

  /** The two ids are those of one delivery in flight. */
  predicate SameAttempt(w: World, i: int, j: int) {
    i in w.pruned.batch && j in w.full.batch && R.Of(w.pruned.batch[i]) == R.Of(w.full.batch[j])
  }

  predicate Legal(w: World, op: Op) {
    && R.Enabled(w.pruned, OnPruned(op))
    && (!op.Purge? ==> R.Enabled(w.full, OnFull(op)))
    && (op.Both? ==> !op.step.Finish? && !op.step.Lose? && !op.step.Purge?)
    && (op.Finish? || op.Lose? ==> SameAttempt(w, op.pruned, op.full))
  }

  function Apply(w: World, op: Op): World
    requires Legal(w, op)
  {
    World(R.Apply(w.pruned, OnPruned(op)), if op.Purge? then w.full else R.Apply(w.full, OnFull(op)))
  }

  predicate Runs(clock: int, ops: seq<Op>)
    decreases |ops|, 0
  {
    ops == [] || (var n := |ops| - 1; Runs(clock, ops[..n]) && Legal(Final(clock, ops[..n]), ops[n]))
  }

  function Final(clock: int, ops: seq<Op>): World
    requires Runs(clock, ops)
    decreases |ops|, 1
  {
    if ops == [] then Start(clock) else var n := |ops| - 1; Apply(Final(clock, ops[..n]), ops[n])
  }

  /** The delivery in flight whose rowid the next enqueue will take, if there is one. */
  function Robbed(s: R.State): Option<R.Ident> {
    if NextId(s.rows) in s.batch then Some(R.Of(s.batch[NextId(s.rows)])) else None
  }

  /** Every enqueue takes the rowid of the same delivery in flight in both tables, or of none in either. */
  predicate Agrees(clock: int, ops: seq<Op>)
    requires Runs(clock, ops)
  {
    ops == [] ||
    (var n := |ops| - 1;
     && Agrees(clock, ops[..n])
     && (ops[n].Both? && ops[n].step.Enqueue? ==>
           Robbed(Final(clock, ops[..n]).pruned) == Robbed(Final(clock, ops[..n]).full)))
  }

  /** The pending rows in id order, ids blanked. */
  function View(rows: Table): Table {
    if rows == [] then []
    else if Pending(rows[0]) then [rows[0].(id := 0)] + View(rows[1..])
    else View(rows[1..])
  }

  function Blank(rows: Table): Table {
    if rows == [] then [] else [rows[0].(id := 0)] + Blank(rows[1..])
  }

  // ---- The view determines the due list ---------------------------------------------------------

  lemma {:induction false} DueOfView(rows: Table, at: int)
    ensures Blank(DueRows(rows, at)) == DueRows(View(rows), at)
  {
    if rows != [] {
      DueOfView(rows[1..], at);
      var rest := DueRows(rows[1..], at);
      if IsDue(rows[0], at) {
        assert ([rows[0]] + rest)[1..] == rest;
      }
      if Pending(rows[0]) {
        assert ([rows[0].(id := 0)] + View(rows[1..]))[1..] == View(rows[1..]);
      }
    }
  }

  lemma {:induction false} BlankInsert(d: Delivery, queue: Table)
    ensures Blank(Insert(d, queue)) == Insert(d.(id := 0), Blank(queue))
  {
    if queue == [] || RetryAt(d) <= RetryAt(queue[0]) {
      assert ([d] + queue)[1..] == queue;
    } else {
      BlankInsert(d, queue[1..]);
      assert ([queue[0]] + Insert(d, queue[1..]))[1..] == Insert(d, queue[1..]);
      assert Blank(queue)[1..] == Blank(queue[1..]);
    }
  }

  lemma {:induction false} BlankByRetry(rows: Table)
    ensures Blank(ByRetry(rows)) == ByRetry(Blank(rows))
  {
    if rows != [] {
      BlankByRetry(rows[1..]);
      BlankInsert(rows[0], ByRetry(rows[1..]));
      assert Blank(rows)[1..] == Blank(rows[1..]);
    }
  }

  lemma {:induction false} BlankTake(rows: Table, n: nat)
    ensures |Blank(rows)| == |rows|
    ensures n <= |rows| ==> Blank(rows[..n]) == Blank(rows)[..n]
  {
    if rows != [] {
      BlankTake(rows[1..], if n > 0 then n - 1 else 0);
      if 0 < n <= |rows| {
        assert rows[..n][1..] == rows[1..][..n - 1];
      }
    }
  }

  lemma ViewDecidesDueList(rows: Table, at: int, limit: nat)
    ensures Blank(DueDeliveries(rows, at, limit)) == Take(ByRetry(DueRows(View(rows), at)), limit)
  {
    DueOfView(rows, at);
    BlankByRetry(DueRows(rows, at));
    BlankTake(ByRetry(DueRows(rows, at)), limit);
  }

  // ---- Every operation acts on the view ---------------------------------------------------------

  lemma {:induction false} ViewAppend(a: Table, b: Table)
    ensures View(a + b) == View(a) + View(b)
  {
    if a == [] {
      assert a + b == b;
    } else {
      assert (a + b)[1..] == a[1..] + b;
      ViewAppend(a[1..], b);
    }
  }

  lemma {:induction false} ViewWithoutHook(rows: Table, hook: int)
    ensures View(WithoutHook(rows, hook)) == WithoutHook(View(rows), hook)
  {
    if rows != [] {
      ViewWithoutHook(rows[1..], hook);
      var rest := WithoutHook(rows[1..], hook);
      assert ([rows[0]] + rest)[1..] == rest;
      assert ([rows[0].(id := 0)] + View(rows[1..]))[1..] == View(rows[1..]);
    }
  }

  lemma {:induction false} ViewWithout(rows: Table, ids: set<int>)
    requires forall d | d in rows && Pending(d) :: d.id !in ids
    ensures View(Without(rows, ids)) == View(rows)
  {
    if rows != [] {
      ViewWithout(rows[1..], ids);
      var rest := Without(rows[1..], ids);
      assert ([rows[0]] + rest)[1..] == rest;
    }
  }

  lemma {:induction false} RecordUnknown(rows: Table, id: int, o: Outcome)
    requires forall d | d in rows :: d.id != id
    ensures RecordResult(rows, id, o) == rows
  {
    if rows != [] { RecordUnknown(rows[1..], id, o); }
  }

  // ---- A result acts on the view by the delivery it lands on ---------------------------------------

  function SettleView(view: Table, x: R.Ident, o: Outcome): Table {
    if view == [] then []
    else (if R.Of(view[0]) == x then View([Settle(view[0], o)]) else [view[0]]) + SettleView(view[1..], x, o)
  }

  lemma BlankedView(d: Delivery)
    ensures View([d]) == View([d.(id := 0)])
  {
    assert [d][1..] == [] && [d.(id := 0)][1..] == [];
  }

  lemma {:induction false} ViewRecord(rows: Table, id: int, x: R.Ident, o: Outcome)
    requires forall d | d in rows :: d.id == id <==> R.Of(d) == x
    requires forall d | d in rows && d.id == id :: Pending(d)
    ensures View(RecordResult(rows, id, o)) == SettleView(View(rows), x, o)
  {
    if rows != [] {
      var head, rest := rows[0], rows[1..];
      assert rows == [head] + rest;
      ViewRecord(rest, id, x, o);
      var after := RecordResult(rest, id, o);
      var first := if head.id == id then Settle(head, o) else head;
      ViewAppend([first], after);
      if Pending(head) {
        assert ([head.(id := 0)] + View(rest))[1..] == View(rest);
        BlankedView(first);
        assert [first][1..] == [];
      } else {
        assert [first][1..] == [] && View([first]) == [];
      }
    }
  }

  /** What recording under the id of an attempt in flight does to the view. */
  lemma FinishView(s: R.State, id: int, o: Outcome)
    requires R.Inv(s) && id in s.batch
    ensures View(RecordResult(s.rows, id, o)) ==
      match R.Target(s.rows, id) case None => View(s.rows) case Some(x) => SettleView(View(s.rows), x, o)
  {
    R.TargetIs(s.rows, id);
    match R.Target(s.rows, id) {
      case None => RecordUnknown(s.rows, id, o);
      case Some(x) => ViewRecord(s.rows, id, x, o);
    }
  }

  // ---- What each operation does to the targets -----------------------------------------------------

  lemma {:induction false} TargetRecord(rows: Table, id: int, o: Outcome, k: int)
    ensures R.Target(RecordResult(rows, id, o), k) == R.Target(rows, k)
  {
    if rows != [] {
      TargetRecord(rows[1..], id, o, k);
    }
  }

  lemma {:induction false} TargetWithout(rows: Table, ids: set<int>, k: int)
    requires k !in ids
    ensures R.Target(Without(rows, ids), k) == R.Target(rows, k)
  {
    if rows != [] {
      TargetWithout(rows[1..], ids, k);
      var rest := Without(rows[1..], ids);
      assert ([rows[0]] + rest)[1..] == rest;
    }
  }

  lemma {:induction false} TargetWithoutHook(rows: Table, hook: int, k: int)
    requires Ordered(rows)
    ensures R.Target(WithoutHook(rows, hook), k) ==
      match R.Target(rows, k) case None => None case Some(x) => if x.hook == hook then None else Some(x)
  {
    if rows != [] {
      assert rows == [rows[0]] + rows[1..];
      TargetWithoutHook(rows[1..], hook, k);
      R.TargetIs(rows[1..], k);
      var rest := WithoutHook(rows[1..], hook);
      assert ([rows[0]] + rest)[1..] == rest;
    }
  }

  lemma {:induction false} TargetAppend(rows: Table, d: Delivery, k: int)
    ensures R.Target(rows + [d], k) ==
      if R.Target(rows, k).Some? then R.Target(rows, k) else if d.id == k then Some(R.Of(d)) else None
  {
    if rows == [] {
      assert rows + [d] == [d];
    } else {
      assert (rows + [d])[1..] == rows[1..] + [d];
      TargetAppend(rows[1..], d, k);
    }
  }

  // ---- The two stores keep in step -----------------------------------------------------------------

  /** The rows in flight as listed, ids blanked. */
  function InFlight(batch: map<int, Delivery>): set<Delivery> {
    set i | i in batch :: batch[i].(id := 0)
  }

  predicate OnePerDelivery(batch: map<int, Delivery>) {
    forall i, k | i in batch && k in batch && R.Of(batch[i]) == R.Of(batch[k]) :: i == k
  }

  /** Each result still to come would land on the same delivery in both. */
  ghost predicate SameTargets(w: World) {
    forall i, j | SameAttempt(w, i, j) :: R.Target(w.pruned.rows, i) == R.Target(w.full.rows, j)
  }

  ghost predicate Related(w: World) {
    && R.Inv(w.pruned) && R.Inv(w.full)
    && w.pruned.clock == w.full.clock && w.pruned.seen == w.full.seen
    && View(w.pruned.rows) == View(w.full.rows)
    && InFlight(w.pruned.batch) == InFlight(w.full.batch)
    && OnePerDelivery(w.pruned.batch) && OnePerDelivery(w.full.batch)
    && SameTargets(w)
  }

  /** The counterpart of an attempt is listed alike. */
  lemma PairIs(p: map<int, Delivery>, f: map<int, Delivery>, i: int, j: int)
    requires InFlight(p) == InFlight(f) && OnePerDelivery(f)
    requires i in p && j in f && R.Of(p[i]) == R.Of(f[j])
    ensures p[i].(id := 0) == f[j].(id := 0)
  {
    assert p[i].(id := 0) in InFlight(f);
    var k :| k in f && f[k].(id := 0) == p[i].(id := 0);
    assert R.Of(f[k]) == R.Of(f[j]);
  }

  lemma FlightWithout(batch: map<int, Delivery>, i: int)
    requires OnePerDelivery(batch) && i in batch
    ensures OnePerDelivery(batch - {i}) && InFlight(batch - {i}) == InFlight(batch) - {batch[i].(id := 0)}
  {
    forall k | k in batch && batch[k].(id := 0) == batch[i].(id := 0) ensures k == i {
      assert R.Of(batch[k]) == R.Of(batch[i]);
    }
    forall d | d in InFlight(batch) - {batch[i].(id := 0)} ensures d in InFlight(batch - {i}) {
      var k :| k in batch && batch[k].(id := 0) == d;
      assert k in batch - {i};
    }
  }

  lemma PairRemoved(p: map<int, Delivery>, f: map<int, Delivery>, i: int, j: int)
    requires InFlight(p) == InFlight(f) && OnePerDelivery(p) && OnePerDelivery(f)
    requires i in p && j in f && R.Of(p[i]) == R.Of(f[j])
    ensures InFlight(p - {i}) == InFlight(f - {j}) && OnePerDelivery(p - {i}) && OnePerDelivery(f - {j})
  {
    PairIs(p, f, i, j);
    FlightWithout(p, i);
    FlightWithout(f, j);
  }

  lemma FinishKeepsRelated(w: World, op: Op)
    requires Related(w) && Legal(w, op) && op.Finish?
    ensures Related(Apply(w, op))
  {
    hide View, SettleView, InFlight, OnePerDelivery, AttemptOutcome, RecordResult, R.Target, R.RowsInv, R.BatchInv;
    var w' := Apply(w, op);
    var i, j := op.pruned, op.full;
    R.InvStep(w.pruned, OnPruned(op));
    R.InvStep(w.full, OnFull(op));
    PairIs(w.pruned.batch, w.full.batch, i, j);
    PairRemoved(w.pruned.batch, w.full.batch, i, j);
    var o := AttemptOutcome(w.pruned.batch[i].attempt + 1, op.accepted, op.at);
    FinishView(w.pruned, i, o);
    FinishView(w.full, j, o);
    forall k, m | SameAttempt(w', k, m) ensures R.Target(w'.pruned.rows, k) == R.Target(w'.full.rows, m) {
      assert SameAttempt(w, k, m);
      TargetRecord(w.pruned.rows, i, o, k);
      TargetRecord(w.full.rows, j, o, m);
    }
  }

  lemma LoseKeepsRelated(w: World, op: Op)
    requires Related(w) && Legal(w, op) && op.Lose?
    ensures Related(Apply(w, op))
  {
    var w' := Apply(w, op);
    R.InvStep(w.pruned, OnPruned(op));
    R.InvStep(w.full, OnFull(op));
    PairRemoved(w.pruned.batch, w.full.batch, op.pruned, op.full);
    forall k, m | SameAttempt(w', k, m) ensures R.Target(w'.pruned.rows, k) == R.Target(w'.full.rows, m) {
      assert SameAttempt(w, k, m);
    }
  }

  lemma DropKeepsRelated(w: World, op: Op)
    requires Related(w) && Legal(w, op) && op.Both? && op.step.DropHook?
    ensures Related(Apply(w, op))
  {
    var w', hook := Apply(w, op), op.step.hook;
    R.InvStep(w.pruned, OnPruned(op));
    R.InvStep(w.full, OnFull(op));
    ViewWithoutHook(w.pruned.rows, hook);
    ViewWithoutHook(w.full.rows, hook);
    forall k, m | SameAttempt(w', k, m) ensures R.Target(w'.pruned.rows, k) == R.Target(w'.full.rows, m) {
      assert SameAttempt(w, k, m);
      TargetWithoutHook(w.pruned.rows, hook, k);
      TargetWithoutHook(w.full.rows, hook, m);
    }
  }

  lemma PurgeSparesPending(rows: Table, before: int, victims: set<int>, d: Delivery)
    requires Ordered(rows) && victims <= SettledIds(rows, before) && d in rows && Pending(d)
    ensures d.id !in victims
  {
    forall e | e in rows && e.id == d.id ensures e == d {
      R.OrderedIdsAreDistinct(rows, d, e);
    }
  }

  lemma PurgeKeepsRelated(w: World, op: Op)
    requires Related(w) && Legal(w, op) && op.Purge?
    ensures Related(Apply(w, op))
  {
    var w', rows := Apply(w, op), w.pruned.rows;
    R.InvStep(w.pruned, OnPruned(op));
    forall d | d in rows && Pending(d) ensures d.id !in op.victims {
      PurgeSparesPending(rows, op.before, op.victims, d);
    }
    ViewWithout(rows, op.victims);
    forall k, m | SameAttempt(w', k, m) ensures R.Target(w'.pruned.rows, k) == R.Target(w'.full.rows, m) {
      assert SameAttempt(w, k, m);
      TargetOfAttempt(w.pruned, op.before, op.victims, k);
    }
  }

  /** Pruning leaves the row under the id of an attempt in flight alone: whatever it is, it is pending. */
  lemma TargetOfAttempt(s: R.State, before: int, victims: set<int>, k: int)
    requires R.Inv(s) && k in s.batch && victims <= SettledIds(s.rows, before)
    ensures R.Target(Without(s.rows, victims), k) == R.Target(s.rows, k)
  {
    if k in victims {
      var d :| d in s.rows && Settled(d, before) && d.id == k;
      PurgeSparesPending(s.rows, before, victims, d);
    }
    TargetWithout(s.rows, victims, k);
  }

  /** The row an enqueue adds, under the given id. */
  function NewRow(step: R.Step, id: int): Delivery
    requires step.Enqueue?
  {
    Queued(id, step.hook, step.eventId, step.eventType, step.payload, step.ts)
  }

  lemma EnqueueView(rows: Table, step: R.Step)
    requires step.Enqueue?
    ensures View(EnqueueDelivery(rows, step.hook, step.eventId, step.eventType, step.payload, step.ts))
      == View(rows) + [NewRow(step, 0)]
  {
    var d := NewRow(step, NextId(rows));
    ViewAppend(rows, [d]);
    assert [d][1..] == [];
  }

  lemma EnqueueTarget(rows: Table, step: R.Step, k: int)
    requires step.Enqueue? && Ordered(rows)
    ensures R.Target(rows, NextId(rows)).None?
    ensures R.Target(EnqueueDelivery(rows, step.hook, step.eventId, step.eventType, step.payload, step.ts), k) ==
      if k == NextId(rows) then Some(R.Ident(step.hook, step.eventId)) else R.Target(rows, k)
  {
    EnqueueKeeps(rows, step.hook, step.eventId, step.eventType, step.payload, step.ts);
    R.TargetIs(rows, NextId(rows));
    TargetAppend(rows, NewRow(step, NextId(rows)), k);
  }

  /** What an enqueue changes of the targets. */
  lemma EnqueueTargets(w: World, op: Op, i: int, j: int)
    requires Related(w) && Legal(w, op) && op.Both? && op.step.Enqueue? && SameAttempt(w, i, j)
    ensures SameAttempt(Apply(w, op), i, j)
    ensures var a, b := R.Target(Apply(w, op).pruned.rows, i), R.Target(Apply(w, op).full.rows, j);
      a == b <==> (i == NextId(w.pruned.rows) <==> j == NextId(w.full.rows))
  {
    EnqueueTarget(w.pruned.rows, op.step, i);
    EnqueueTarget(w.full.rows, op.step, j);
  }

  /** An enqueue keeps the stores in step if and only if it takes the rowid of the same delivery in
      flight in both, or of none in either. */
  lemma EnqueueKeepsRelated(w: World, op: Op)
    requires Related(w) && Legal(w, op) && op.Both? && op.step.Enqueue?
    ensures Related(Apply(w, op)) <==> Robbed(w.pruned) == Robbed(w.full)
  {
    hide View, R.Target, R.RowsInv, R.BatchInv, InFlight;
    var w' := Apply(w, op);
    R.InvStep(w.pruned, op.step);
    R.InvStep(w.full, op.step);
    EnqueueView(w.pruned.rows, op.step);
    EnqueueView(w.full.rows, op.step);
    if Robbed(w.pruned) == Robbed(w.full) {
      forall i, j | SameAttempt(w', i, j) ensures R.Target(w'.pruned.rows, i) == R.Target(w'.full.rows, j) {
        assert SameAttempt(w, i, j);
        EnqueueTargets(w, op, i, j);
      }
    } else {
      var i, j := RobbedPair(w);
      EnqueueTargets(w, op, i, j);
    }
  }

  /** When the two enqueues take different ids, one delivery in flight loses its id in one table only. */
  lemma RobbedPair(w: World) returns (i: int, j: int)
    requires Related(w) && Robbed(w.pruned) != Robbed(w.full)
    ensures SameAttempt(w, i, j) && !(i == NextId(w.pruned.rows) <==> j == NextId(w.full.rows))
  {
    if Robbed(w.pruned).Some? {
      i := NextId(w.pruned.rows);
      assert w.pruned.batch[i].(id := 0) in InFlight(w.full.batch);
      j :| j in w.full.batch && w.full.batch[j].(id := 0) == w.pruned.batch[i].(id := 0);
    } else {
      j := NextId(w.full.rows);
      assert w.full.batch[j].(id := 0) in InFlight(w.pruned.batch);
      i :| i in w.pruned.batch && w.pruned.batch[i].(id := 0) == w.full.batch[j].(id := 0);
    }
  }

  lemma {:induction false} BlankAt(rows: Table)
    ensures |Blank(rows)| == |rows| && forall k | 0 <= k < |rows| :: Blank(rows)[k] == rows[k].(id := 0)
  {
    if rows != [] {
      BlankAt(rows[1..]);
    }
  }

  /** A freshly listed batch is its due list. */
  lemma ListedBatch(s: R.State, at: int, limit: nat)
    requires R.Inv(s)
    ensures var due := DueDeliveries(s.rows, at, limit); var batch := R.Index(due);
      && (forall d :: d in due <==> d.id in batch && batch[d.id] == d)
      && (forall id | id in batch :: batch[id].id == id && batch[id] in s.rows)
      && InFlight(batch) == (set d | d in Blank(due))
      && OnePerDelivery(batch)
  {
    var due := DueDeliveries(s.rows, at, limit);
    var batch := R.Index(due);
    DueListIsExact(s.rows, at, limit);
    R.IndexIs(due);
    R.IndexHolds(due);
    forall d | d in due ensures d.id in batch && batch[d.id] == d {
      R.OrderedIdsAreDistinct(s.rows, d, batch[d.id]);
    }
    BlankAt(due);
    forall d | d in Blank(due) ensures d in InFlight(batch) {
      var k :| 0 <= k < |due| && Blank(due)[k] == d;
      assert due[k] in due && batch[due[k].id].(id := 0) == d;
    }
    forall d | d in InFlight(batch) ensures d in Blank(due) {
      var i :| i in batch && batch[i].(id := 0) == d;
      var k :| 0 <= k < |due| && due[k] == batch[i];
      assert Blank(due)[k] == d;
    }
  }

  lemma ListKeepsRelated(w: World, op: Op)
    requires Related(w) && Legal(w, op) && op.Both? && op.step.List?
    ensures Related(Apply(w, op))
  {
    hide View, InFlight, DueDeliveries, R.RowsInv, R.BatchInv;
    var w', at, limit := Apply(w, op), op.step.at, op.step.limit;
    R.InvStep(w.pruned, op.step);
    R.InvStep(w.full, op.step);
    ListedBatch(w.pruned, at, limit);
    ListedBatch(w.full, at, limit);
    SameDueList(w.pruned.rows, w.full.rows, at, limit);
    forall i, j | SameAttempt(w', i, j) ensures R.Target(w'.pruned.rows, i) == R.Target(w'.full.rows, j) {
      InvOrdered(w.pruned);
      InvOrdered(w.full);
      R.TargetIs(w.pruned.rows, i);
      R.TargetIs(w.full.rows, j);
    }
  }

  lemma InvOrdered(s: R.State)
    requires R.Inv(s)
    ensures Ordered(s.rows)
  {
  }

  lemma SameDueList(a: Table, b: Table, at: int, limit: nat)
    requires View(a) == View(b)
    ensures Blank(DueDeliveries(a, at, limit)) == Blank(DueDeliveries(b, at, limit))
  {
    ViewDecidesDueList(a, at, limit);
    ViewDecidesDueList(b, at, limit);
  }

  lemma TickOrCrashKeepsRelated(w: World, op: Op)
    requires Related(w) && Legal(w, op) && op.Both? && (op.step.Tick? || op.step.Crash?)
    ensures Related(Apply(w, op))
  {
    R.InvStep(w.pruned, op.step);
    R.InvStep(w.full, op.step);
    forall i, j | SameAttempt(Apply(w, op), i, j) ensures SameAttempt(w, i, j) {}
  }

  lemma RelatedStep(w: World, op: Op)
    requires Related(w) && Legal(w, op)
    requires op.Both? && op.step.Enqueue? ==> Robbed(w.pruned) == Robbed(w.full)
    ensures Related(Apply(w, op))
  {
    hide View, InFlight, OnePerDelivery, R.RowsInv, R.BatchInv, R.Target, R.Apply;
    match op
    case Finish(_, _, _, _) => FinishKeepsRelated(w, op);
    case Lose(_, _) => LoseKeepsRelated(w, op);
    case Purge(_, _, _) => PurgeKeepsRelated(w, op);
    case Both(step) =>
      match step {
        case Enqueue(_, _, _, _, _) => EnqueueKeepsRelated(w, op);
        case List(_, _) => ListKeepsRelated(w, op);
        case DropHook(_) => DropKeepsRelated(w, op);
        case _ => TickOrCrashKeepsRelated(w, op);
      }
  }

  lemma {:induction false} AlwaysRelated(clock: int, ops: seq<Op>)
    requires Runs(clock, ops) && Agrees(clock, ops)
    ensures Related(Final(clock, ops))
  {
    if ops == [] {
      R.InvAlways(clock, []);
    } else {
      var n := |ops| - 1;
      AlwaysRelated(clock, ops[..n]);
      RelatedStep(Final(clock, ops[..n]), ops[n]);
    }
  }

  /** As long as no enqueue takes the rowid of a delivery in flight in one table and not in the other, the
      sender lists the same deliveries in the same order from the pruned table as from the never-pruned
      one, whatever instant and batch size it asks with. */
  lemma PruningIsInvisible(clock: int, ops: seq<Op>, at: int, limit: nat)
    requires Runs(clock, ops) && Agrees(clock, ops)
    ensures var w := Final(clock, ops);
      Blank(DueDeliveries(w.pruned.rows, at, limit)) == Blank(DueDeliveries(w.full.rows, at, limit))
  {
    AlwaysRelated(clock, ops);
    SameDueList(Final(clock, ops).pruned.rows, Final(clock, ops).full.rows, at, limit);
  }

  // ---- And when it is not invisible ----------------------------------------------------------------

  lemma {:induction false} DueAppend(rows: Table, d: Delivery, at: int)
    requires IsDue(d, at)
    ensures DueRows(rows + [d], at) == DueRows(rows, at) + [d]
  {
    if rows == [] {
      assert rows + [d] == [d];
    } else {
      assert (rows + [d])[1..] == rows[1..] + [d];
      DueAppend(rows[1..], d, at);
    }
  }

  lemma {:induction false} RecordAppended(rows: Table, d: Delivery, o: Outcome)
    requires forall e | e in rows :: e.id != d.id
    ensures RecordResult(rows + [d], d.id, o) == rows + [Settle(d, o)]
  {
    if rows == [] {
      assert rows + [d] == [d] && [d][1..] == [];
    } else {
      assert (rows + [d])[1..] == rows[1..] + [d];
      RecordAppended(rows[1..], d, o);
    }
  }

  function AfterBoth(s: R.State, step: R.Step, id: int): Table
    requires R.Enabled(s, step) && step.Enqueue? && id in s.batch
  {
    R.Apply(R.Apply(s, step), R.Finish(id, true, s.clock)).rows
  }

  lemma DeliveredAtOnce(rows: Table, d: Delivery, o: Outcome)
    requires (forall e | e in rows :: e.id != d.id) && o.deliveredAt.Some?
    ensures View(RecordResult(rows + [d], d.id, o)) == View(rows)
  {
    RecordAppended(rows, d, o);
    ViewAppend(rows, [Settle(d, o)]);
    assert [Settle(d, o)][1..] == [] && View([Settle(d, o)]) == [];
  }

  /** The attempt whose id was taken succeeds: the new row is stamped delivered and leaves the view. */
  lemma RobbedView(a: R.State, i: int, step: R.Step)
    requires R.Inv(a) && step.Enqueue? && R.Enabled(a, step) && i in a.batch && i == NextId(a.rows)
    ensures View(AfterBoth(a, step, i)) == View(a.rows)
  {
    hide View, RecordResult, R.BatchInv;
    var d := NewRow(step, i);
    EnqueueKeeps(a.rows, step.hook, step.eventId, step.eventType, step.payload, step.ts);
    DeliveredAtOnce(a.rows, d, AttemptOutcome(a.batch[i].attempt + 1, true, a.clock));
  }

  /** An attempt whose row is gone succeeds: it lands on nothing and the new row stays. */
  lemma UnrobbedView(b: R.State, j: int, step: R.Step)
    requires R.Inv(b) && step.Enqueue? && R.Enabled(b, step)
    requires j in b.batch && j != NextId(b.rows) && R.Target(b.rows, j).None?
    ensures View(AfterBoth(b, step, j))
      == View(b.rows) + [NewRow(step, 0)]
  {
    R.InvStep(b, step);
    EnqueueTarget(b.rows, step, j);
    FinishView(R.Apply(b, step), j, AttemptOutcome(b.batch[j].attempt + 1, true, b.clock));
    EnqueueView(b.rows, step);
  }

  lemma OneMoreDue(a: R.State, b: R.State, i: int, j: int, step: R.Step)
    requires R.Inv(a) && R.Inv(b) && View(a.rows) == View(b.rows) && step.Enqueue?
    requires R.Enabled(a, step) && R.Enabled(b, step)
    requires i in a.batch && i == NextId(a.rows)
    requires j in b.batch && j != NextId(b.rows) && R.Target(b.rows, j).None?
    ensures |DueRows(AfterBoth(b, step, j), step.ts)| == |DueRows(AfterBoth(a, step, i), step.ts)| + 1
  {
    hide View, R.Apply, R.RowsInv, R.BatchInv, AfterBoth, R.Target;
    var a2, b2 := AfterBoth(a, step, i), AfterBoth(b, step, j);
    RobbedView(a, i, step);
    UnrobbedView(b, j, step);
    var d := NewRow(step, 0);
    DueAppend(View(b.rows), d, step.ts);
    DueOfView(a2, step.ts);
    DueOfView(b2, step.ts);
    BlankAt(DueRows(a2, step.ts));
    BlankAt(DueRows(b2, step.ts));
  }

  /** The hypothesis is exact: whenever an enqueue takes the id of a delivery in flight in one table only,
      a success of that delivery's attempt makes the two due lists differ. */
  lemma DisagreementShows(w: World, op: Op) returns (next: Op, limit: nat)
    requires Related(w) && Legal(w, op) && op.Both? && op.step.Enqueue? && Robbed(w.pruned) != Robbed(w.full)
    ensures Legal(Apply(w, op), next) && next.Finish?
    ensures var v := Apply(Apply(w, op), next); var at := op.step.ts;
      Blank(DueDeliveries(v.pruned.rows, at, limit)) != Blank(DueDeliveries(v.full.rows, at, limit))
  {
    var i, j := RobbedPair(w);
    next := Finish(i, j, true, w.pruned.clock);
    EnqueueTarget(w.pruned.rows, op.step, i);
    EnqueueTarget(w.full.rows, op.step, j);
    if i == NextId(w.pruned.rows) {
      OneMoreDue(w.pruned, w.full, i, j, op.step);
    } else {
      OneMoreDue(w.full, w.pruned, j, i, op.step);
    }
    var v := Apply(Apply(w, op), next);
    StaysOrdered(w.pruned, op.step, OnPruned(next));
    StaysOrdered(w.full, op.step, OnFull(next));
    limit := |DueRows(v.pruned.rows, op.step.ts)| + |DueRows(v.full.rows, op.step.ts)|;
    DueListIsExact(v.pruned.rows, op.step.ts, limit);
    DueListIsExact(v.full.rows, op.step.ts, limit);
    BlankAt(DueDeliveries(v.pruned.rows, op.step.ts, limit));
    BlankAt(DueDeliveries(v.full.rows, op.step.ts, limit));
  }

  lemma StaysOrdered(s: R.State, one: R.Step, two: R.Step)
    requires R.Inv(s) && R.Enabled(s, one) && R.Enabled(R.Apply(s, one), two)
    ensures Ordered(R.Apply(R.Apply(s, one), two).rows)
  {
    R.InvStep(s, one);
    R.InvStep(R.Apply(s, one), two);
  }

  /** No webhook is deleted while one of its deliveries is being attempted. */
  predicate CarefulDrops(clock: int, ops: seq<Op>)
    requires Runs(clock, ops)
  {
    ops == [] ||
    (var n := |ops| - 1; var w := Final(clock, ops[..n]);
     && CarefulDrops(clock, ops[..n])
     && (ops[n].Both? && ops[n].step.DropHook? ==>
           && (forall id | id in w.pruned.batch :: w.pruned.batch[id].hook != ops[n].step.hook)
           && (forall id | id in w.full.batch :: w.full.batch[id].hook != ops[n].step.hook)))
  }

  /** Then no id in flight is ever taken, in either table, so pruning is invisible. */
  lemma {:induction false} CarefulDropsAgree(clock: int, ops: seq<Op>)
    requires Runs(clock, ops) && CarefulDrops(clock, ops)
    ensures Agrees(clock, ops)
    ensures var w := Final(clock, ops);
      R.Inv(w.pruned) && R.Inv(w.full) && L.Present(w.pruned) && L.Present(w.full)
  {
    if ops == [] {
      R.InvAlways(clock, []);
    } else {
      var n := |ops| - 1;
      CarefulDropsAgree(clock, ops[..n]);
      var w := Final(clock, ops[..n]);
      R.InvStep(w.pruned, OnPruned(ops[n]));
      L.PresentStep(w.pruned, OnPruned(ops[n]));
      if !ops[n].Purge? {
        R.InvStep(w.full, OnFull(ops[n]));
        L.PresentStep(w.full, OnFull(ops[n]));
      }
    }
  }

  lemma Extend(clock: int, ops: seq<Op>, op: Op)
    requires Runs(clock, ops) && Agrees(clock, ops) && Legal(Final(clock, ops), op)
    ensures Runs(clock, ops + [op]) && Final(clock, ops + [op]) == Apply(Final(clock, ops), op)
    ensures (op.Both? && op.step.Enqueue? ==> Robbed(Final(clock, ops).pruned) == Robbed(Final(clock, ops).full)) ==>
      Agrees(clock, ops + [op])
  {
    hide Legal, Apply, Robbed;
    assert (ops + [op])[..|ops|] == ops;
  }

  const FIRST := Delivery(1, 1, "evt_a", "token.created", "{}", 0, Some(0), None, 0)

  const SECOND := Delivery(2, 2, "evt_b", "token.created", "{}", 0, Some(0), None, 0)

  const SENT := Delivery(2, 2, "evt_b", "token.created", "{}", 1, None, Some(0), 0)

  lemma TwoQueued() returns (ops: seq<Op>)
    ensures Runs(0, ops) && Agrees(0, ops)
    ensures var w := Final(0, ops);
      && w.pruned == w.full && w.pruned.rows == [FIRST, SECOND] && w.pruned.batch == map[]
      && w.pruned.clock == 0 && w.pruned.seen == {R.Of(FIRST), R.Of(SECOND)}
  {
    var one := Both(R.Enqueue(1, "evt_a", "token.created", "{}", 0));
    var two := Both(R.Enqueue(2, "evt_b", "token.created", "{}", 0));
    ops := [];
    Extend(0, ops, one);
    ops := ops + [one];
    assert Final(0, ops).pruned.rows == [FIRST];
    Extend(0, ops, two);
    ops := ops + [two];
  }

  lemma ListBoth(s: R.State)
    requires s.rows == [FIRST, SECOND] && s.batch == map[] && s.clock == 0
    ensures R.Enabled(s, R.List(50, 0)) && R.Apply(s, R.List(50, 0)) == s.(batch := map[1 := FIRST, 2 := SECOND])
  {
    BothDue();
  }

  lemma FinishSecond(s: R.State)
    requires s.rows == [FIRST, SECOND] && s.batch == map[1 := FIRST, 2 := SECOND] && s.clock == 0
    ensures R.Enabled(s, R.Finish(2, true, 0))
    ensures var t := R.Apply(s, R.Finish(2, true, 0));
      t.rows == [FIRST, SENT] && t.batch == map[1 := FIRST] && t.clock == 0 && t.seen == s.seen
  {
    SecondSettles();
    assert map[1 := FIRST, 2 := SECOND] - {2} == map[1 := FIRST];
  }

  /** Two deliveries are queued and listed, and the second succeeds. */
  lemma TwoListed() returns (ops: seq<Op>)
    ensures Runs(0, ops) && Agrees(0, ops)
    ensures var w := Final(0, ops);
      && w.pruned == w.full && w.pruned.rows == [FIRST, SENT] && w.pruned.batch == map[1 := FIRST]
      && w.pruned.clock == 0 && w.pruned.seen == {R.Of(FIRST), R.Of(SECOND)}
  {
    ops := TwoQueued();
    hide Runs, Final, Agrees, R.Apply, R.Enabled;
    var list, sent := Both(R.List(50, 0)), Finish(2, 2, true, 0);
    ListBoth(Final(0, ops).pruned);
    Extend(0, ops, list);
    ops := ops + [list];
    FinishSecond(Final(0, ops).pruned);
    Extend(0, ops, sent);
    ops := ops + [sent];
  }

  lemma BothDue()
    ensures R.Index(DueDeliveries([FIRST, SECOND], 0, 50)) == map[1 := FIRST, 2 := SECOND]
  {
    var all := [FIRST, SECOND];
    assert all[1..] == [SECOND] && [SECOND][1..] == [];
    assert DueRows([SECOND], 0) == [SECOND];
    assert DueRows(all, 0) == all;
    assert ByRetry([SECOND]) == [SECOND];
    assert ByRetry(all) == all;
    assert R.Index([SECOND]) == map[2 := SECOND];
  }

  lemma SecondSettles()
    ensures RecordResult([FIRST, SECOND], 2, AttemptOutcome(1, true, 0)) == [FIRST, SENT]
  {
    assert [FIRST, SECOND][1..] == [SECOND] && [SECOND][1..] == [];
    assert RecordResult([SECOND], 2, AttemptOutcome(1, true, 0)) == [SENT];
  }

  lemma PurgeSecond(s: R.State)
    requires s.rows == [FIRST, SENT]
    ensures R.Enabled(s, R.Purge(1, 1000, {2})) && R.Apply(s, R.Purge(1, 1000, {2})) == s.(rows := [FIRST])
  {
    var rows := [FIRST, SENT];
    assert rows[1..] == [SENT] && [SENT][1..] == [];
    assert Without([SENT], {2}) == [];
    assert rows[1] in rows && forall d | d in rows :: d == FIRST || d == SENT;
    assert SettledIds(rows, 1) == {2};
  }

  lemma DropFirst(s: R.State)
    requires s.rows == [FIRST] || s.rows == [FIRST, SENT]
    ensures R.Apply(s, R.DropHook(1)) == s.(rows := if |s.rows| == 1 then [] else [SENT])
  {
    assert [FIRST][1..] == [] && [FIRST, SENT][1..] == [SENT] && [SENT][1..] == [];
    assert WithoutHook([SENT], 1) == [SENT];
  }

  /** The pruned table drops the settled second row, then the first delivery's webhook is deleted while it
      is being posted. The next enqueue takes rowid 1 in the pruned table, which is in flight, and rowid 3
      in the other. */
  lemma PruningFreesAnId() returns (ops: seq<Op>)
    ensures Runs(0, ops) && Agrees(0, ops)
    ensures var w := Final(0, ops);
      && w.pruned.clock == w.full.clock == 0 && w.pruned.seen == w.full.seen == {R.Of(FIRST), R.Of(SECOND)}
      && Robbed(w.pruned) == Some(R.Of(FIRST)) && Robbed(w.full) == None
  {
    ops := TwoListed();
    hide Runs, Final, Agrees, R.Apply;
    var purge, drop := Purge(1, 1000, {2}), Both(R.DropHook(1));
    var w := Final(0, ops);
    PurgeSecond(w.pruned);
    Extend(0, ops, purge);
    ops := ops + [purge];
    DropFirst(w.pruned.(rows := [FIRST]));
    DropFirst(w.full);
    Extend(0, ops, drop);
    ops := ops + [drop];
  }

  /** So pruning can show: a run in which the new delivery is stamped delivered in the pruned table without
      having been posted, and is due in the other. */
  lemma PruningShows() returns (ops: seq<Op>, at: int, limit: nat)
    ensures Runs(0, ops)
    ensures var w := Final(0, ops);
      Blank(DueDeliveries(w.pruned.rows, at, limit)) != Blank(DueDeliveries(w.full.rows, at, limit))
  {
    ops := PruningFreesAnId();
    AlwaysRelated(0, ops);
    hide Final, Agrees, DueDeliveries, R.Apply, Blank, Related;
    var op := Both(R.Enqueue(3, "evt_c", "token.created", "{}", 0));
    var next;
    next, limit := DisagreementShows(Final(0, ops), op);
    at := 0;
    Extend(0, ops, op);
    assert (ops + [op] + [next])[..|ops| + 1] == ops + [op];
    ops := ops + [op] + [next];
  }
}
