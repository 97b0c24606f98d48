/** What the rounds of one sweep do to the table, and exactly when a sweep comes to an end. */
module SendRounds {
  import opened Common
  import D = Deliveries

  const SWEEP_BATCH := 50

  /** What becomes of an attempt: the receiver's answer, and whether its record was written and when. */
  datatype Fate = Lost(accepted: bool) | Recorded(accepted: bool, at: int)

  /** The receivers and the database as one round meets them: the fate of each delivery's attempt, by
      id, and the webhooks that cannot be read. Failures may pass, so every round has its own. */
  datatype World = World(fate: int -> Fate, unreadable: int -> bool)

  /** What becomes of the attempt on a delivery. */
  function FateOf(w: World, d: D.Delivery): Fate { w.fate(d.id) }

  /** The attempt is made and recorded. */
  predicate Settles(w: World, d: D.Delivery) {
    !w.unreadable(d.hook) && FateOf(w, d).Recorded?
  }

  /** No record carries a time before the sweep began. */
  ghost predicate OnTime(w: World, start: int) {
    forall id :: w.fate(id).Recorded? ==> w.fate(id).at >= start
  }

  /** What the attempt writes. */
  function ResultOf(w: World, d: D.Delivery): D.Outcome
    requires FateOf(w, d).Recorded?
  {
    D.AttemptOutcome(d.attempt + 1, FateOf(w, d).accepted, FateOf(w, d).at)
  }

  function Attempted(w: World, d: D.Delivery): D.Delivery
    requires Settles(w, d)
  {
    D.Settle(d, ResultOf(w, d))
  }

  /** The table once the attempts on the given deliveries are over. */
  function AfterAttempts(w: World, rows: D.Table, ids: set<int>): D.Table {
    seq(|rows|, i requires 0 <= i < |rows| =>
      if rows[i].id in ids && Settles(w, rows[i]) then Attempted(w, rows[i]) else rows[i])
  }

  function Batch(rows: D.Table, at: int): set<int> {
    D.Ids(D.DueDeliveries(rows, at, SWEEP_BATCH))
  }

  function DueIds(rows: D.Table, at: int): set<int> {
    set d | d in rows && D.IsDue(d, at) :: d.id
  }

  /** Due deliveries whose attempt leaves no trace. */
  function Stuck(w: World, rows: D.Table, at: int): set<int> {
    set d | d in rows && D.IsDue(d, at) && !Settles(w, d) :: d.id
  }

  lemma AfterAttemptsKeeps(w: World, rows: D.Table, ids: set<int>)
    requires D.Ordered(rows)
    ensures D.Ordered(AfterAttempts(w, rows, ids)) && D.Ids(AfterAttempts(w, rows, ids)) == D.Ids(rows)
  {
    var after := AfterAttempts(w, rows, ids);
    forall id ensures id in D.Ids(after) <==> id in D.Ids(rows) {
      if id in D.Ids(rows) {
        var i :| 0 <= i < |rows| && rows[i].id == id;
        assert after[i] in after;
      }
      if id in D.Ids(after) {
        var i :| 0 <= i < |after| && after[i].id == id;
        assert rows[i] in rows;
      }
    }
  }

  /** Recording one more result moves its delivery into the attempted set. */
  lemma {:induction false} RecordAttempts(w: World, rows: D.Table, ids: set<int>, d: D.Delivery)
    requires D.Ordered(rows) && d in rows && d.id !in ids && Settles(w, d)
    ensures D.RecordResult(AfterAttempts(w, rows, ids), d.id, ResultOf(w, d))
      == AfterAttempts(w, rows, ids + {d.id})
  {
    var o := ResultOf(w, d);
    var before := AfterAttempts(w, rows, ids);
    D.RecordAt(before, d.id, o);
    var k :| 0 <= k < |rows| && rows[k] == d;
    forall i | 0 <= i < |rows| ensures D.RecordResult(before, d.id, o)[i] == AfterAttempts(w, rows, ids + {d.id})[i] {
      assert rows[i].id == d.id ==> i == k;
    }
  }

  /** An attempt that is recorded takes its delivery off the due list for at least the shortest delay. */
  lemma RecordedIsNotDue(w: World, d: D.Delivery, start: int, at: int)
    requires OnTime(w, start) && Settles(w, d) && at < start + D.RETRY_SCHEDULE[0]
    ensures !D.IsDue(Attempted(w, d), at)
  {
    assert FateOf(w, d).at >= start;
  }

  /** What is due afterwards is what was due before, less what was attempted and recorded. */
  lemma StillDue(w: World, rows: D.Table, ids: set<int>, start: int, at: int, d: D.Delivery)
    requires D.Ordered(rows) && OnTime(w, start) && at < start + D.RETRY_SCHEDULE[0]
    ensures d in AfterAttempts(w, rows, ids) && D.IsDue(d, at) <==>
      d in rows && D.IsDue(d, at) && !(d.id in ids && Settles(w, d))
  {
    var after := AfterAttempts(w, rows, ids);
    if d in after && D.IsDue(d, at) {
      var i :| 0 <= i < |after| && after[i] == d;
      assert rows[i] in rows;
      if rows[i].id in ids && Settles(w, rows[i]) {
        RecordedIsNotDue(w, rows[i], start, at);
      }
    }
    if d in rows && D.IsDue(d, at) && !(d.id in ids && Settles(w, d)) {
      var i :| 0 <= i < |rows| && rows[i] == d;
      assert after[i] == d;
    }
  }

  /** Attempts that leave no trace may be left out. */
  lemma UnsettledDoNotCount(w: World, rows: D.Table, a: set<int>, b: set<int>)
    requires forall d | d in rows && Settles(w, d) :: d.id in a <==> d.id in b
    ensures AfterAttempts(w, rows, a) == AfterAttempts(w, rows, b)
  {
    forall i | 0 <= i < |rows| ensures AfterAttempts(w, rows, a)[i] == AfterAttempts(w, rows, b)[i] {
      assert rows[i] in rows;
    }
  }

  lemma NoAttempts(w: World, rows: D.Table)
    ensures AfterAttempts(w, rows, {}) == rows
  {
  }

  /** The table once the attempt on `d` has been dealt with, recorded or not. */
  lemma AttemptDone(w: World, rows: D.Table, ids: set<int>, d: D.Delivery)
    requires D.Ordered(rows) && d in rows && d.id !in ids && !w.unreadable(d.hook)
    ensures var before := AfterAttempts(w, rows, ids);
      AfterAttempts(w, rows, ids + {d.id}) ==
        if FateOf(w, d).Recorded? then
          D.RecordResult(before, d.id, ResultOf(w, d))
        else before
  {
    if FateOf(w, d).Recorded? {
      RecordAttempts(w, rows, ids, d);
    } else {
      UnsettledDoNotCount(w, rows, ids, ids + {d.id});
    }
  }

  // ---- One round -------------------------------------------------------------------------------

  lemma {:induction false} IdsCount(rows: D.Table)
    requires D.Ordered(rows)
    ensures |D.Ids(rows)| == |rows|
  {
    if rows != [] {
      var n := |rows| - 1;
      IdsCount(rows[..n]);
      assert rows == rows[..n] + [rows[n]];
      assert D.Ids(rows) == D.Ids(rows[..n]) + {rows[n].id};
      assert forall d | d in rows[..n] :: d.id < rows[n].id;
    }
  }

  lemma {:induction false} QueueCount(queue: D.Table)
    requires D.InQueueOrder(queue)
    requires forall d, e | d in queue && e in queue && d.id == e.id :: d == e
    ensures |D.Ids(queue)| == |queue|
  {
    if queue != [] {
      assert queue == [queue[0]] + queue[1..];
      QueueCount(queue[1..]);
      assert D.Ids(queue) == {queue[0].id} + D.Ids(queue[1..]);
      forall d | d in queue[1..] ensures d.id != queue[0].id {
        assert D.Before(queue[0], d);
      }
    }
  }

  /** A batch is as many distinct due deliveries as there are, up to its size. */
  lemma BatchIs(rows: D.Table, at: int)
    requires D.Ordered(rows)
    ensures var due := D.DueDeliveries(rows, at, SWEEP_BATCH);
      && Batch(rows, at) <= DueIds(rows, at)
      && |Batch(rows, at)| == |due| <= SWEEP_BATCH
      && (|due| < SWEEP_BATCH ==> Batch(rows, at) == DueIds(rows, at))
      && (|DueIds(rows, at)| >= SWEEP_BATCH ==> |due| == SWEEP_BATCH)
  {
    var due := D.DueDeliveries(rows, at, SWEEP_BATCH);
    D.DueListIsExact(rows, at, SWEEP_BATCH);
    D.DueRowsAre(rows, at);
    IdsCount(D.DueRows(rows, at));
    assert D.Ids(D.DueRows(rows, at)) == DueIds(rows, at);
    forall d, e | d in due && e in due && d.id == e.id ensures d == e {
      assert d in rows && e in rows;
    }
    QueueCount(due);
    if |due| < SWEEP_BATCH {
      forall d | d in rows && D.IsDue(d, at) ensures d in due {
        assert d !in due ==> |due| == SWEEP_BATCH;
      }
    }
  }

  // ---- The rounds of a sweep ---------------------------------------------------------------------

  function Round(w: World, rows: D.Table, at: int): D.Table {
    AfterAttempts(w, rows, Batch(rows, at))
  }

  /** Deliveries a round posts. */
  function Posted(w: World, rows: D.Table, at: int): set<int> {
    set d | d in D.DueDeliveries(rows, at, SWEEP_BATCH) && !w.unreadable(d.hook) :: d.id
  }

  lemma PostedIsEnough(w: World, rows: D.Table, at: int)
    requires D.Ordered(rows)
    ensures AfterAttempts(w, rows, Posted(w, rows, at)) == Round(w, rows, at)
  {
    D.DueListIsExact(rows, at, SWEEP_BATCH);
    UnsettledDoNotCount(w, rows, Posted(w, rows, at), Batch(rows, at));
  }

  /** A round in terms of the columns: it posts each of the first fifty due deliveries whose webhook can be
      read, and rewrites the row of a delivery exactly when it is one of these and its attempt is recorded. */
  lemma RoundInColumns(w: World, rows: D.Table, at: int)
    requires D.Ordered(rows)
    ensures var due, after := D.DueDeliveries(rows, at, 50), Round(w, rows, at);
      && (forall id :: id in Posted(w, rows, at) <==> exists d | d in due :: d.id == id && !w.unreadable(d.hook))
      && |after| == |rows|
      && forall i | 0 <= i < |rows| ::
           var d := rows[i];
           after[i] ==
             if d in due && !w.unreadable(d.hook) && w.fate(d.id).Recorded? then
               D.Settle(d, D.AttemptOutcome(d.attempt + 1, w.fate(d.id).accepted, w.fate(d.id).at))
             else d
  {
    hide D.DueDeliveries;
    D.DueListIsExact(rows, at, SWEEP_BATCH);
    forall i | 0 <= i < |rows| ensures rows[i].id in Batch(rows, at) <==> rows[i] in D.DueDeliveries(rows, at, 50) {
      assert rows[i] in rows;
    }
  }

  lemma BatchIsPending(rows: D.Table, at: int)
    requires D.Ordered(rows)
    ensures forall d | d in rows && d.id in Batch(rows, at) :: D.Pending(d) && D.IsDue(d, at)
  {
    BatchIs(rows, at);
    forall d | d in rows && d.id in Batch(rows, at) ensures D.IsDue(d, at) {
      assert d.id in DueIds(rows, at);
    }
  }

  /** The table after `n` rounds, listed at the times the clock gives. Nothing else writes to it. */
  function Rounds(ws: nat -> World, rows: D.Table, clock: nat -> int, n: nat): D.Table {
    if n == 0 then rows else Round(ws(n - 1), Rounds(ws, rows, clock, n - 1), clock(n - 1))
  }

  /** The sweep returns in round `n`: that round's batch comes back short. */
  predicate EndsIn(ws: nat -> World, rows: D.Table, clock: nat -> int, n: nat) {
    |D.DueDeliveries(Rounds(ws, rows, clock, n), clock(n), SWEEP_BATCH)| < SWEEP_BATCH
  }

  predicate Reached(ws: nat -> World, rows: D.Table, clock: nat -> int, n: nat) {
    forall j: nat | j < n :: !EndsIn(ws, rows, clock, j)
  }

  /** Nothing that round `n` lists is recorded. */
  predicate Idle(ws: nat -> World, rows: D.Table, clock: nat -> int, n: nat) {
    var now := Rounds(ws, rows, clock, n);
    forall d | d in now && d.id in Batch(now, clock(n)) :: !Settles(ws(n), d)
  }

  ghost predicate IdleFrom(ws: nat -> World, rows: D.Table, clock: nat -> int, k: nat) {
    forall n: nat | n >= k :: Idle(ws, rows, clock, n)
  }

  /** No round up to some round `k` comes back short, and from `k` on nothing listed is recorded. */
  ghost predicate Hangs(ws: nat -> World, rows: D.Table, clock: nat -> int) {
    exists k: nat :: IdleFrom(ws, rows, clock, k) && Reached(ws, rows, clock, k + 1)
  }

  ghost predicate NeverBack(clock: nat -> int) {
    forall j: nat, k: nat | j <= k :: clock(j) <= clock(k)
  }

  lemma {:induction false} RoundsKeepOrder(ws: nat -> World, rows: D.Table, clock: nat -> int, n: nat)
    requires D.Ordered(rows)
    ensures D.Ordered(Rounds(ws, rows, clock, n))
  {
    hide AfterAttempts, Batch, D.Ordered;
    if n > 0 {
      RoundsKeepOrder(ws, rows, clock, n - 1);
      var now := Rounds(ws, rows, clock, n - 1);
      AfterAttemptsKeeps(ws(n - 1), now, Batch(now, clock(n - 1)));
    }
  }

  /** Attempts still to be made on a row, each of which may be recorded. */
  function WorkOf(d: D.Delivery): nat {
    if !D.Pending(d) then 0 else if d.attempt < D.MAX_ATTEMPTS then D.MAX_ATTEMPTS - d.attempt else 1
  }

  function Work(rows: D.Table): nat {
    if rows == [] then 0 else WorkOf(rows[0]) + Work(rows[1..])
  }

  lemma AttemptWorks(w: World, d: D.Delivery)
    requires D.Pending(d) && Settles(w, d)
    ensures WorkOf(Attempted(w, d)) < WorkOf(d)
  {
  }

  lemma {:induction false} AttemptsWork(w: World, rows: D.Table, ids: set<int>)
    requires forall d | d in rows && d.id in ids :: D.Pending(d)
    ensures Work(AfterAttempts(w, rows, ids)) <= Work(rows)
    ensures (exists d | d in rows :: d.id in ids && Settles(w, d)) ==> Work(AfterAttempts(w, rows, ids)) < Work(rows)
  {
    if rows != [] {
      var d, rest := rows[0], rows[1..];
      assert rows == [d] + rest;
      assert AfterAttempts(w, rows, ids)[1..] == AfterAttempts(w, rest, ids);
      AttemptsWork(w, rest, ids);
      if d.id in ids && Settles(w, d) {
        AttemptWorks(w, d);
      }
    }
  }

  /** Whatever the clock says, a round uses up some of the attempts left if and only if it records one. */
  lemma RoundWorks(ws: nat -> World, rows: D.Table, clock: nat -> int, n: nat)
    requires D.Ordered(rows)
    ensures var now, next := Rounds(ws, rows, clock, n), Rounds(ws, rows, clock, n + 1);
      if Idle(ws, rows, clock, n) then next == now else Work(next) < Work(now)
  {
    var w, now := ws(n), Rounds(ws, rows, clock, n);
    RoundsKeepOrder(ws, rows, clock, n);
    BatchIsPending(now, clock(n));
    AttemptsWork(w, now, Batch(now, clock(n)));
    if Idle(ws, rows, clock, n) {
      NoAttempts(w, now);
      UnsettledDoNotCount(w, now, Batch(now, clock(n)), {});
    }
  }

  lemma {:induction false} WorkFalls(ws: nat -> World, rows: D.Table, clock: nat -> int, k: nat, n: nat)
    requires D.Ordered(rows) && k <= n
    ensures Work(Rounds(ws, rows, clock, n)) <= Work(Rounds(ws, rows, clock, k))
  {
    hide Idle, Rounds;
    if k < n {
      WorkFalls(ws, rows, clock, k, n - 1);
      RoundWorks(ws, rows, clock, n - 1);
    }
  }

  /** Sooner or later there is nothing left that is ever recorded. */
  lemma {:induction false} IdleEventually(ws: nat -> World, rows: D.Table, clock: nat -> int, k: nat) returns (m: nat)
    requires D.Ordered(rows)
    ensures IdleFrom(ws, rows, clock, m)
    decreases Work(Rounds(ws, rows, clock, k))
  {
    hide Idle, Rounds;
    if IdleFrom(ws, rows, clock, k) {
      m := k;
    } else {
      var n: nat :| n >= k && !Idle(ws, rows, clock, n);
      WorkFalls(ws, rows, clock, k, n);
      RoundWorks(ws, rows, clock, n);
      m := IdleEventually(ws, rows, clock, n + 1);
    }
  }

  lemma MoreDueLater(rows: D.Table, a: int, b: int)
    requires D.Ordered(rows) && a <= b && |D.DueDeliveries(rows, a, SWEEP_BATCH)| == SWEEP_BATCH
    ensures |D.DueDeliveries(rows, b, SWEEP_BATCH)| == SWEEP_BATCH
  {
    hide D.DueDeliveries;
    BatchIs(rows, a);
    BatchIs(rows, b);
    SubsetNotLarger(Batch(rows, a), DueIds(rows, b));
  }

  /** From there on the table stands still and every batch is full. */
  lemma {:induction false} HangsForever(ws: nat -> World, rows: D.Table, clock: nat -> int, k: nat, n: nat)
    requires D.Ordered(rows) && NeverBack(clock) && k <= n
    requires IdleFrom(ws, rows, clock, k) && Reached(ws, rows, clock, k + 1)
    ensures Rounds(ws, rows, clock, n) == Rounds(ws, rows, clock, k) && !EndsIn(ws, rows, clock, n)
  {
    hide Idle, Rounds, D.DueDeliveries;
    var stuck := Rounds(ws, rows, clock, k);
    RoundsKeepOrder(ws, rows, clock, k);
    BatchIs(stuck, clock(k));
    assert !EndsIn(ws, rows, clock, k);
    if k < n {
      HangsForever(ws, rows, clock, k, n - 1);
      RoundWorks(ws, rows, clock, n - 1);
      MoreDueLater(stuck, clock(k), clock(n));
    }
  }

  lemma {:induction false} EndsUnlessHangs(ws: nat -> World, rows: D.Table, clock: nat -> int) returns (n: nat)
    requires D.Ordered(rows) && !Hangs(ws, rows, clock)
    ensures EndsIn(ws, rows, clock, n)
  {
    hide Idle, Rounds, IdleFrom, EndsIn;
    var m := IdleEventually(ws, rows, clock, 0);
    assert !Reached(ws, rows, clock, m + 1);
    n :| n < m + 1 && EndsIn(ws, rows, clock, n);
  }

  /** When no one else changes the table, a sweep never comes to an end if and only if there is a round up
      to which every batch was full and from which on nothing that is listed is recorded. */
  lemma SweepEnds(ws: nat -> World, rows: D.Table, clock: nat -> int)
    requires D.Ordered(rows) && NeverBack(clock)
    ensures (forall n: nat :: !EndsIn(ws, rows, clock, n)) <==> Hangs(ws, rows, clock)
  {
    hide Idle, Rounds, IdleFrom, EndsIn;
    if Hangs(ws, rows, clock) {
      var k: nat :| IdleFrom(ws, rows, clock, k) && Reached(ws, rows, clock, k + 1);
      forall n: nat ensures !EndsIn(ws, rows, clock, n) {
        if n >= k { HangsForever(ws, rows, clock, k, n); }
      }
    } else {
      var n := EndsUnlessHangs(ws, rows, clock);
    }
  }

  // ---- Conditions that can be checked before the sweep -------------------------------------------

  /** Some round from `from` on would not record an attempt on the delivery. */
  ghost predicate Sticks(ws: nat -> World, from: nat, d: D.Delivery) {
    exists n: nat :: n >= from && !Settles(ws(n), d)
  }

  /** Pending deliveries that may fail to be recorded from round `from` on. */
  ghost function MayStick(ws: nat -> World, rows: D.Table, from: nat): set<int> {
    set d | d in rows && D.Pending(d) && Sticks(ws, from, d) :: d.id
  }

  /** Attempts do not change how a delivery fares. */
  lemma FaresAlike(ws: nat -> World, from: nat, w: World, d: D.Delivery)
    requires Settles(w, d) && Sticks(ws, from, Attempted(w, d))
    ensures Sticks(ws, from, d)
  {
    var n: nat :| n >= from && !Settles(ws(n), Attempted(w, d));
    assert !Settles(ws(n), d);
  }

  lemma FewerMayStick(ws: nat -> World, w: World, rows: D.Table, ids: set<int>, from: nat)
    requires forall d | d in rows && d.id in ids :: D.Pending(d)
    ensures MayStick(ws, AfterAttempts(w, rows, ids), from) <= MayStick(ws, rows, from)
  {
    hide Sticks, Settles;
    var after := AfterAttempts(w, rows, ids);
    forall id | id in MayStick(ws, after, from) ensures id in MayStick(ws, rows, from) {
      var d :| d in after && D.Pending(d) && Sticks(ws, from, d) && d.id == id;
      var i :| 0 <= i < |after| && after[i] == d;
      assert rows[i] in rows;
      if rows[i].id in ids && Settles(w, rows[i]) {
        FaresAlike(ws, from, w, rows[i]);
      }
    }
  }

  lemma {:induction false} RoundsMayStick(ws: nat -> World, rows: D.Table, clock: nat -> int, n: nat, from: nat)
    requires D.Ordered(rows)
    ensures MayStick(ws, Rounds(ws, rows, clock, n), from) <= MayStick(ws, rows, from)
  {
    hide AfterAttempts, MayStick, Batch, D.Ordered;
    if n > 0 {
      RoundsMayStick(ws, rows, clock, n - 1, from);
      var now := Rounds(ws, rows, clock, n - 1);
      RoundsKeepOrder(ws, rows, clock, n - 1);
      BatchIsPending(now, clock(n - 1));
      FewerMayStick(ws, ws(n - 1), now, Batch(now, clock(n - 1)), from);
    }
  }

  /** A full batch of which nothing is recorded is fifty deliveries that may stick. */
  lemma IdleBatchSticks(ws: nat -> World, rows: D.Table, clock: nat -> int, n: nat, from: nat)
    requires D.Ordered(rows) && from <= n && Idle(ws, rows, clock, n) && !EndsIn(ws, rows, clock, n)
    ensures |MayStick(ws, rows, from)| >= SWEEP_BATCH
  {
    hide D.DueDeliveries, Rounds, Settles;
    var now := Rounds(ws, rows, clock, n);
    var batch := Batch(now, clock(n));
    RoundsKeepOrder(ws, rows, clock, n);
    RoundsMayStick(ws, rows, clock, n, from);
    BatchIs(now, clock(n));
    BatchIsPending(now, clock(n));
    forall id | id in batch ensures id in MayStick(ws, now, from) {
      var d :| d in now && D.IsDue(d, clock(n)) && d.id == id;
      assert !Settles(ws(n), d) && Sticks(ws, from, d);
    }
    SubsetNotLarger(batch, MayStick(ws, rows, from));
  }

  /** If from some round on fewer than fifty pending deliveries can fail to be recorded, the sweep ends,
      however long the attempts take and whatever failed before. */
  lemma FewCanStick(ws: nat -> World, rows: D.Table, clock: nat -> int, from: nat)
    requires D.Ordered(rows) && (from == 0 || NeverBack(clock)) && |MayStick(ws, rows, from)| < SWEEP_BATCH
    ensures !Hangs(ws, rows, clock)
  {
    hide Idle, EndsIn, MayStick;
    if Hangs(ws, rows, clock) {
      var k: nat :| IdleFrom(ws, rows, clock, k) && Reached(ws, rows, clock, k + 1);
      if k < from {
        HangsForever(ws, rows, clock, k, from);
        IdleBatchSticks(ws, rows, clock, from, from);
      } else {
        IdleBatchSticks(ws, rows, clock, k, from);
      }
    }
  }

  /** The sweep lists at times from `start` to `horizon`, before a first retry can be due. */
  ghost predicate Brief(ws: nat -> World, clock: nat -> int, start: int, horizon: int) {
    && (forall k: nat :: OnTime(ws(k), start))
    && horizon < start + D.RETRY_SCHEDULE[0]
    && forall k: nat :: start <= clock(k) <= horizon
  }

  /** Due deliveries that some round fails to record. */
  ghost function EverStuck(ws: nat -> World, rows: D.Table, at: int): set<int> {
    set d | d in rows && D.IsDue(d, at) && Sticks(ws, 0, d) :: d.id
  }

  /** What is due before a first retry can be was due from the start. */
  lemma {:induction false} DueFromTheStart(ws: nat -> World, rows: D.Table, clock: nat -> int, n: nat, start: int,
                                           at: int, d: D.Delivery)
    requires D.Ordered(rows) && (forall k: nat :: OnTime(ws(k), start)) && at < start + D.RETRY_SCHEDULE[0]
    requires d in Rounds(ws, rows, clock, n) && D.IsDue(d, at)
    ensures d in rows
  {
    hide AfterAttempts, Batch, D.Ordered, D.IsDue, OnTime;
    if n > 0 {
      var now := Rounds(ws, rows, clock, n - 1);
      RoundsKeepOrder(ws, rows, clock, n - 1);
      StillDue(ws(n - 1), now, Batch(now, clock(n - 1)), start, at, d);
      DueFromTheStart(ws, rows, clock, n - 1, start, at, d);
    }
  }

  lemma BriefIdleBatchSticks(ws: nat -> World, rows: D.Table, clock: nat -> int, n: nat, start: int, horizon: int)
    requires D.Ordered(rows) && Brief(ws, clock, start, horizon)
    requires Idle(ws, rows, clock, n) && !EndsIn(ws, rows, clock, n)
    ensures |EverStuck(ws, rows, horizon)| >= SWEEP_BATCH
  {
    hide D.DueDeliveries, Rounds, Settles, OnTime;
    var now := Rounds(ws, rows, clock, n);
    var batch := Batch(now, clock(n));
    RoundsKeepOrder(ws, rows, clock, n);
    BatchIs(now, clock(n));
    forall id | id in batch ensures id in EverStuck(ws, rows, horizon) {
      var d :| d in now && D.IsDue(d, clock(n)) && d.id == id;
      DueFromTheStart(ws, rows, clock, n, start, clock(n), d);
      assert !Settles(ws(n), d) && Sticks(ws, 0, d);
    }
    SubsetNotLarger(batch, EverStuck(ws, rows, horizon));
  }

  lemma BriefEnds(ws: nat -> World, rows: D.Table, clock: nat -> int, start: int, horizon: int)
    requires D.Ordered(rows) && Brief(ws, clock, start, horizon) && |EverStuck(ws, rows, horizon)| < SWEEP_BATCH
    ensures !Hangs(ws, rows, clock)
  {
    hide Idle, EndsIn, EverStuck, Brief;
    if Hangs(ws, rows, clock) {
      var k: nat :| IdleFrom(ws, rows, clock, k) && Reached(ws, rows, clock, k + 1);
      BriefIdleBatchSticks(ws, rows, clock, k, start, horizon);
    }
  }

  /** Every round fails to record the same deliveries as the first. */
  ghost predicate Lasting(ws: nat -> World) {
    forall n: nat, d: D.Delivery :: Settles(ws(n), d) == Settles(ws(0), d)
  }

  lemma {:induction false} StuckRemains(ws: nat -> World, rows: D.Table, clock: nat -> int, n: nat, at: int)
    requires Lasting(ws)
    ensures Stuck(ws(0), rows, at) <= DueIds(Rounds(ws, rows, clock, n), at)
    ensures forall d | d in rows && D.IsDue(d, at) && !Settles(ws(0), d) :: d in Rounds(ws, rows, clock, n)
  {
    hide Settles, Batch, D.IsDue;
    if n > 0 {
      StuckRemains(ws, rows, clock, n - 1, at);
      var now, next := Rounds(ws, rows, clock, n - 1), Rounds(ws, rows, clock, n);
      forall d | d in rows && D.IsDue(d, at) && !Settles(ws(0), d) ensures d in next {
        var i :| 0 <= i < |now| && now[i] == d;
        assert !Settles(ws(n - 1), d) && next[i] == d;
      }
    }
  }

  /** With the clock standing still and failures that last: exactly when fewer than fifty due deliveries
      are stuck at the start. */
  lemma StandingSweepEnds(ws: nat -> World, rows: D.Table, clock: nat -> int, at: int)
    requires D.Ordered(rows) && Lasting(ws) && (forall k: nat :: OnTime(ws(k), at)) && forall k: nat :: clock(k) == at
    ensures (exists n: nat :: EndsIn(ws, rows, clock, n)) <==> |Stuck(ws(0), rows, at)| < SWEEP_BATCH
  {
    hide D.DueDeliveries, Settles, D.IsDue, OnTime, Batch;
    if |Stuck(ws(0), rows, at)| < SWEEP_BATCH {
      assert EverStuck(ws, rows, at) == Stuck(ws(0), rows, at);
      BriefEnds(ws, rows, clock, at, at);
      var n := EndsUnlessHangs(ws, rows, clock);
    } else {
      forall n: nat ensures !EndsIn(ws, rows, clock, n) {
        var now := Rounds(ws, rows, clock, n);
        StuckRemains(ws, rows, clock, n, at);
        RoundsKeepOrder(ws, rows, clock, n);
        BatchIs(now, at);
        SubsetNotLarger(Stuck(ws(0), rows, at), DueIds(now, at));
      }
    }
  }

  // ---- What the loop of a sweep needs --------------------------------------------------------------

  lemma NoRounds(ws: nat -> World, rows: D.Table, clock: nat -> int)
    ensures Rounds(ws, rows, clock, 0) == rows
  {
  }

  lemma OneRound(ws: nat -> World, rows: D.Table, clock: nat -> int, n: nat)
    ensures var now := Rounds(ws, rows, clock, n);
      && Rounds(ws, rows, clock, n + 1) == Round(ws(n), now, clock(n))
      && (EndsIn(ws, rows, clock, n) <==> |D.DueDeliveries(now, clock(n), SWEEP_BATCH)| < SWEEP_BATCH)
  {
  }

  /** A round by which the sweep has returned: it is cancelled there or its batch is short. */
  lemma LastRound(ws: nat -> World, rows: D.Table, clock: nat -> int, cancelled: nat -> bool) returns (n: nat)
    requires D.Ordered(rows) && ((exists k: nat :: cancelled(k)) || !Hangs(ws, rows, clock))
    ensures cancelled(n) || EndsIn(ws, rows, clock, n)
  {
    if k: nat :| cancelled(k) {
      n := k;
    } else {
      n := EndsUnlessHangs(ws, rows, clock);
    }
  }

  /** A delivery is either still as it was after a round or was posted in it. */
  lemma KeptOrPosted(w: World, now: D.Table, at: int, d: D.Delivery)
    requires D.Ordered(now) && d in now
    ensures d in Round(w, now, at) || d.id in Posted(w, now, at)
  {
    D.DueListIsExact(now, at, SWEEP_BATCH);
    var i :| 0 <= i < |now| && now[i] == d;
    var e := Round(w, now, at)[i];
    if e != d {
      var b :| b in D.DueDeliveries(now, at, SWEEP_BATCH) && b.id == d.id;
      assert b == d;
    } else {
      assert e in Round(w, now, at);
    }
  }

  /** After a short batch everything due that can be posted has been. */
  lemma ShortRoundPosts(w: World, now: D.Table, start: int, at: int)
    requires D.Ordered(now) && start <= at && |D.DueDeliveries(now, at, SWEEP_BATCH)| < SWEEP_BATCH
    ensures forall d | d in now && D.IsDue(d, start) && !w.unreadable(d.hook) :: d.id in Posted(w, now, at)
  {
    D.DueListIsExact(now, at, SWEEP_BATCH);
  }
}
