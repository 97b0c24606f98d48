/** The `webhook_deliveries` table. `id` is an INTEGER PRIMARY KEY without AUTOINCREMENT, so a new row
    takes one more than the largest id present and the table, read by id, is a sequence that grows at
    its end. */
module Deliveries {
  import opened Common

  datatype Delivery = Delivery(id: int, hook: int, eventId: string, eventType: string, payload: string,
                               attempt: nat, nextRetry: Option<int>, deliveredAt: Option<int>, createdAt: int)

  type Table = seq<Delivery>

  predicate Delivered(d: Delivery) { d.deliveredAt.Some? }

  predicate Pending(d: Delivery) { d.deliveredAt.None? && d.nextRetry.Some? }

  predicate GaveUp(d: Delivery) { d.deliveredAt.None? && d.nextRetry.None? }

  predicate Ordered(rows: Table) {
    forall i, j | 0 <= i < j < |rows| :: rows[i].id < rows[j].id
  }

  function Ids(rows: Table): set<int> { set d | d in rows :: d.id }

  function NextId(rows: Table): int {
    if rows == [] then 1 else rows[|rows| - 1].id + 1
  }

  /** The delays before the second, third and fourth attempt, in seconds. */
  const RETRY_SCHEDULE := [30, 120, 600]

  const MAX_ATTEMPTS := 4

  /** A delivery that has just been queued: due at once, not attempted yet. */
  function Queued(id: int, hook: int, eventId: string, eventType: string, payload: string, ts: int): Delivery {
    Delivery(id, hook, eventId, eventType, payload, 0, Some(ts), None, ts)
  }

  function EnqueueDelivery(rows: Table, hook: int, eventId: string, eventType: string, payload: string,
                           ts: int): Table
  {
    rows + [Queued(NextId(rows), hook, eventId, eventType, payload, ts)]
  }

  /** What one attempt writes: its number, the next retry if any, and the time of success if any. */
  datatype Outcome = Outcome(attempt: nat, nextRetry: Option<int>, deliveredAt: Option<int>)

  function Settle(d: Delivery, o: Outcome): Delivery {
    d.(attempt := o.attempt, nextRetry := o.nextRetry, deliveredAt := o.deliveredAt)
  }

  /** The unguarded overwrite: nothing but the id is tested. */
  function RecordResult(rows: Table, id: int, o: Outcome): Table {
    if rows == [] then []
    else [if rows[0].id == id then Settle(rows[0], o) else rows[0]] + RecordResult(rows[1..], id, o)
  }

  /** What attempt `n` of a delivery writes when the receiver answers at `at`. */
  function AttemptOutcome(n: nat, accepted: bool, at: int): Outcome
    requires n >= 1
  {
    if accepted then Outcome(n, None, Some(at))
    else Outcome(n, if n <= |RETRY_SCHEDULE| then Some(at + RETRY_SCHEDULE[n - 1]) else None, None)
  }

  /** Rows other than those picked. */
  function Without(rows: Table, ids: set<int>): Table {
    if rows == [] then []
    else if rows[0].id in ids then Without(rows[1..], ids)
    else [rows[0]] + Without(rows[1..], ids)
  }

  /** The foreign key cascade of deleting a webhook. */
  function WithoutHook(rows: Table, hook: int): Table {
    if rows == [] then []
    else if rows[0].hook == hook then WithoutHook(rows[1..], hook)
    else [rows[0]] + WithoutHook(rows[1..], hook)
  }

  /** Rows the cleanup may remove. */
  predicate Settled(d: Delivery, before: int) {
    d.createdAt < before && (d.deliveredAt.Some? || d.nextRetry.None?)
  }

  function SettledIds(rows: Table, before: int): set<int> {
    set d | d in rows && Settled(d, before) :: d.id
  }

  predicate IsDue(d: Delivery, at: int) {
    d.deliveredAt.None? && d.nextRetry.Some? && d.nextRetry.value <= at
  }

  function DueRows(rows: Table, at: int): Table {
    if rows == [] then []
    else if IsDue(rows[0], at) then [rows[0]] + DueRows(rows[1..], at)
    else DueRows(rows[1..], at)
  }

  function RetryAt(d: Delivery): int { if d.nextRetry.Some? then d.nextRetry.value else 0 }

  function Insert(d: Delivery, queue: Table): Table {
    if queue == [] || RetryAt(d) <= RetryAt(queue[0]) then [d] + queue
    else [queue[0]] + Insert(d, queue[1..])
  }

  /** A stable sort by next_retry_at: on rows in id order it is `ORDER BY next_retry_at, id`. */
  function ByRetry(rows: Table): Table {
    if rows == [] then [] else Insert(rows[0], ByRetry(rows[1..]))
  }

  function Take(rows: Table, limit: nat): Table {
    if |rows| <= limit then rows else rows[..limit]
  }

  function DueDeliveries(rows: Table, at: int, limit: nat): Table {
    Take(ByRetry(DueRows(rows, at)), limit)
  }

  // ---- The due list is what the query text says ------------------------------------------------

  predicate Before(a: Delivery, b: Delivery) {
    RetryAt(a) < RetryAt(b) || (RetryAt(a) == RetryAt(b) && a.id < b.id)
  }

  predicate InQueueOrder(queue: Table) {
    queue != [] ==> (forall e | e in queue[1..] :: Before(queue[0], e)) && InQueueOrder(queue[1..])
  }

  lemma {:induction false} QueueOrderAt(queue: Table, i: nat, j: nat)
    requires InQueueOrder(queue) && i < j < |queue|
    ensures Before(queue[i], queue[j])
  {
    if i == 0 {
      assert queue[1..][j - 1] == queue[j];
    } else {
      QueueOrderAt(queue[1..], i - 1, j - 1);
    }
  }

  lemma {:induction false} PrefixInOrder(queue: Table, n: nat)
    requires InQueueOrder(queue) && n <= |queue|
    ensures InQueueOrder(queue[..n])
  {
    if n > 0 {
      PrefixInOrder(queue[1..], n - 1);
      assert queue[..n][1..] == queue[1..][..n - 1];
    }
  }

  lemma OrderedCons(d: Delivery, rows: Table)
    requires Ordered(rows) && forall e | e in rows :: d.id < e.id
    ensures Ordered([d] + rows)
  {
  }

  lemma {:induction false} DueRowsAre(rows: Table, at: int)
    requires Ordered(rows)
    ensures Ordered(DueRows(rows, at))
    ensures forall d :: d in DueRows(rows, at) <==> d in rows && IsDue(d, at)
  {
    if rows != [] {
      assert rows == [rows[0]] + rows[1..];
      DueRowsAre(rows[1..], at);
      if IsDue(rows[0], at) { OrderedCons(rows[0], DueRows(rows[1..], at)); }
    }
  }

  lemma {:induction false} InsertContents(d: Delivery, queue: Table)
    ensures multiset(Insert(d, queue)) == multiset{d} + multiset(queue)
  {
    if queue != [] {
      assert queue == [queue[0]] + queue[1..];
      InsertContents(d, queue[1..]);
    }
  }

  lemma HeadInOrder(d: Delivery, queue: Table)
    requires InQueueOrder(queue) && forall e | e in queue :: Before(d, e)
    ensures InQueueOrder([d] + queue)
  {
    assert ([d] + queue)[1..] == queue;
  }

  lemma {:induction false} InsertKeepsOrder(d: Delivery, queue: Table)
    requires InQueueOrder(queue) && forall e | e in queue :: d.id < e.id
    ensures InQueueOrder(Insert(d, queue))
  {
    if queue == [] {
    } else if RetryAt(d) <= RetryAt(queue[0]) {
      forall e | e in queue ensures Before(d, e) {
        assert e == queue[0] || e in queue[1..];
      }
      HeadInOrder(d, queue);
    } else {
      InsertKeepsOrder(d, queue[1..]);
      InsertContents(d, queue[1..]);
      var rest := Insert(d, queue[1..]);
      forall e | e in rest ensures Before(queue[0], e) {
        assert e in multiset(rest);
        assert e == d || e in queue[1..];
      }
      HeadInOrder(queue[0], rest);
    }
  }

  lemma {:induction false} ByRetrySorts(rows: Table)
    requires Ordered(rows)
    ensures InQueueOrder(ByRetry(rows))
    ensures multiset(ByRetry(rows)) == multiset(rows)
  {
    if rows != [] {
      assert rows == [rows[0]] + rows[1..];
      ByRetrySorts(rows[1..]);
      forall e | e in ByRetry(rows[1..]) ensures rows[0].id < e.id {
        assert e in multiset(rows[1..]);
      }
      InsertKeepsOrder(rows[0], ByRetry(rows[1..]));
      InsertContents(rows[0], ByRetry(rows[1..]));
    }
  }

  lemma TakeEarliest(queue: Table, limit: nat, d: Delivery)
    requires InQueueOrder(queue) && d in queue && d !in Take(queue, limit)
    ensures |Take(queue, limit)| == limit
    ensures forall e | e in Take(queue, limit) :: Before(e, d)
  {
    var due := Take(queue, limit);
    assert due == queue[..limit] && forall i | 0 <= i < limit :: due[i] == queue[i] && due[i] in due;
    var j :| 0 <= j < |queue| && queue[j] == d;
    assert j >= limit;
    forall e | e in due ensures Before(e, d) {
      var i :| 0 <= i < |due| && due[i] == e;
      QueueOrderAt(queue, i, j);
    }
  }

  lemma QueueIsDue(rows: Table, at: int)
    requires Ordered(rows)
    ensures var queue := ByRetry(DueRows(rows, at));
      && InQueueOrder(queue)
      && |queue| == |DueRows(rows, at)|
      && (forall d :: d in queue <==> d in rows && IsDue(d, at))
  {
    var all := DueRows(rows, at);
    DueRowsAre(rows, at);
    ByRetrySorts(all);
    var queue := ByRetry(all);
    assert |multiset(queue)| == |queue| && |multiset(all)| == |all|;
    forall d ensures d in queue <==> d in all {
      assert d in queue <==> d in multiset(queue);
      assert d in all <==> d in multiset(all);
    }
  }

  /** The query returns due rows only, each once, earliest first; it leaves a due row out only when the
      batch is full of rows that come before it. */
  lemma DueListIsExact(rows: Table, at: int, limit: nat)
    requires Ordered(rows)
    ensures var due := DueDeliveries(rows, at, limit);
      && InQueueOrder(due)
      && |due| == (if |DueRows(rows, at)| <= limit then |DueRows(rows, at)| else limit)
      && (forall d | d in due :: d in rows && IsDue(d, at))
      && (forall d | d in rows && IsDue(d, at) && d !in due :: |due| == limit && forall e | e in due :: Before(e, d))
  {
    QueueIsDue(rows, at);
    var queue := ByRetry(DueRows(rows, at));
    var due := DueDeliveries(rows, at, limit);
    PrefixInOrder(queue, |due|);
    assert due == queue[..|due|];
    forall d | d in rows && IsDue(d, at) && d !in due
      ensures |due| == limit && forall e | e in due :: Before(e, d)
    {
      TakeEarliest(queue, limit, d);
    }
  }

  /** The same in terms of the columns: what is listed is neither delivered nor given up and its retry time
      has come; the order is by retry time and then id. */
  lemma DueListInColumns(rows: Table, at: int, limit: nat)
    requires Ordered(rows)
    ensures var due := DueDeliveries(rows, at, limit);
      && |due| <= limit
      && (forall d | d in due ::
            d in rows && d.deliveredAt.None? && d.nextRetry.Some? && d.nextRetry.value <= at)
      && (forall i, j | 0 <= i < j < |due| ::
            || due[i].nextRetry.value < due[j].nextRetry.value
            || (due[i].nextRetry.value == due[j].nextRetry.value && due[i].id < due[j].id))
      && (forall d | d in rows && d.deliveredAt.None? && d.nextRetry.Some? && d.nextRetry.value <= at && d !in due ::
            && |due| == limit
            && forall e | e in due ::
                 || e.nextRetry.value < d.nextRetry.value
                 || (e.nextRetry.value == d.nextRetry.value && e.id < d.id))
  {
    hide DueDeliveries, Ordered;
    DueListIsExact(rows, at, limit);
    var due := DueDeliveries(rows, at, limit);
    forall i, j | 0 <= i < j < |due| ensures Before(due[i], due[j]) && due[i] in due && due[j] in due {
      QueueOrderAt(due, i, j);
    }
  }

  // ---- The table operations keep rowid order ---------------------------------------------------

  lemma {:induction false} RecordAt(rows: Table, id: int, o: Outcome)
    ensures |RecordResult(rows, id, o)| == |rows|
    ensures forall i | 0 <= i < |rows| ::
      RecordResult(rows, id, o)[i] ==
        if rows[i].id == id then
          rows[i].(attempt := o.attempt, nextRetry := o.nextRetry, deliveredAt := o.deliveredAt)
        else rows[i]
  {
    if rows != [] {
      RecordAt(rows[1..], id, o);
    }
  }

  lemma RecordKeepsOrder(rows: Table, id: int, o: Outcome)
    requires Ordered(rows)
    ensures Ordered(RecordResult(rows, id, o))
  {
    RecordAt(rows, id, o);
  }

  lemma {:induction false} WithoutKeeps(rows: Table, ids: set<int>)
    requires Ordered(rows)
    ensures Ordered(Without(rows, ids))
    ensures forall d :: d in Without(rows, ids) <==> d in rows && d.id !in ids
  {
    if rows != [] {
      assert rows == [rows[0]] + rows[1..];
      WithoutKeeps(rows[1..], ids);
    }
  }

  /** A row may be removed if and only if it is old and its delivery is over. */
  lemma SettledIsOver(rows: Table, before: int)
    requires Ordered(rows)
    ensures forall d | d in rows ::
      d.id in SettledIds(rows, before) <==> d.createdAt < before && (Delivered(d) || GaveUp(d))
  {
  }

  /** A purge removes only such rows, and leaves none when it removes fewer than it may. */
  lemma BatchIsOver(rows: Table, before: int, limit: nat, victims: set<int>)
    requires Ordered(rows) && victims <= SettledIds(rows, before)
    requires |victims| == if |SettledIds(rows, before)| <= limit then |SettledIds(rows, before)| else limit
    ensures forall d | d in rows && d.id in victims :: d.createdAt < before && (Delivered(d) || GaveUp(d))
    ensures |victims| < limit ==>
      forall d | d in rows && d.createdAt < before && (Delivered(d) || GaveUp(d)) :: d.id in victims
  {
    SettledIsOver(rows, before);
    if |victims| < limit {
      SubsetNotLarger(victims, SettledIds(rows, before));
    }
  }

  lemma {:induction false} WithoutHookKeeps(rows: Table, hook: int)
    requires Ordered(rows)
    ensures Ordered(WithoutHook(rows, hook))
    ensures forall d :: d in WithoutHook(rows, hook) <==> d in rows && d.hook != hook
  {
    if rows != [] {
      assert rows == [rows[0]] + rows[1..];
      WithoutHookKeeps(rows[1..], hook);
    }
  }

  /** A new row comes last, under the id after the largest, due at once and not attempted yet. */
  lemma EnqueueIs(rows: Table, hook: int, eventId: string, eventType: string, payload: string, ts: int)
    requires Ordered(rows)
    ensures var after := EnqueueDelivery(rows, hook, eventId, eventType, payload, ts);
      && |after| == |rows| + 1 && after[..|rows|] == rows
      && (var d := after[|rows|];
          && (forall e | e in rows :: e.id < d.id)
          && (if rows == [] then d.id == 1 else exists e | e in rows :: d.id == e.id + 1)
          && d.hook == hook && d.eventId == eventId && d.eventType == eventType && d.payload == payload
          && d.attempt == 0 && d.nextRetry == Some(ts) && d.deliveredAt.None? && d.createdAt == ts)
  {
    if rows != [] {
      assert rows[|rows| - 1] in rows;
    }
  }

  /** A success is stamped and ends the delivery; the first three refusals are followed by another attempt
      after half a minute, two minutes and ten minutes, and the fourth by none. */
  lemma OutcomeIs(n: nat, accepted: bool, at: int)
    requires n >= 1
    ensures var o := AttemptOutcome(n, accepted, at);
      && o.attempt == n
      && (o.deliveredAt == if accepted then Some(at) else None)
      && (o.nextRetry ==
            if accepted then None
            else if n == 1 then Some(at + 30)
            else if n == 2 then Some(at + 120)
            else if n == 3 then Some(at + 600)
            else None)
    ensures n == MAX_ATTEMPTS && !accepted ==> AttemptOutcome(n, accepted, at).nextRetry.None?
    ensures 1 <= n < MAX_ATTEMPTS && !accepted ==> AttemptOutcome(n, accepted, at).nextRetry.Some?
  {
  }

  lemma EnqueueKeeps(rows: Table, hook: int, eventId: string, eventType: string, payload: string, ts: int)
    requires Ordered(rows)
    ensures Ordered(EnqueueDelivery(rows, hook, eventId, eventType, payload, ts))
    ensures forall d | d in rows :: d.id < NextId(rows)
  {
  }

  /** Results of different deliveries commute, so the order in which the goroutines of a batch finish
      does not matter. */
  lemma {:induction false} ResultsCommute(rows: Table, a: int, oa: Outcome, b: int, ob: Outcome)
    requires a != b
    ensures RecordResult(RecordResult(rows, a, oa), b, ob) == RecordResult(RecordResult(rows, b, ob), a, oa)
  {
    if rows != [] {
      ResultsCommute(rows[1..], a, oa, b, ob);
    }
  }
}
