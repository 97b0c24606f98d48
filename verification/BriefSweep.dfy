/** A sweep that is over before the shortest retry delay: nothing is recorded twice. */
module BriefSweep {
  import opened Common
  import D = Deliveries
  import opened SendRounds

  /** The table once each delivery in `when` has been recorded in the round given for it. */
  function AfterRounds(ws: nat -> World, rows: D.Table, when: map<int, nat>): D.Table {
    seq(|rows|, i requires 0 <= i < |rows| =>
      if rows[i].id in when && Settles(ws(when[rows[i].id]), rows[i])
      then Attempted(ws(when[rows[i].id]), rows[i]) else rows[i])
  }

  /** Every round would record an attempt on the delivery. */
  ghost predicate Certain(ws: nat -> World, d: D.Delivery) { !Sticks(ws, 0, d) }

  /** Between the rounds of a brief sweep: each row has been recorded at most once, in the round `when`
      says; only deliveries that were due have been posted, those recorded at least once, and those that
      never fail to be recorded exactly once each. */
  ghost predicate SoFar(ws: nat -> World, rows: D.Table, now: D.Table, posts: multiset<int>, when: map<int, nat>,
                        horizon: int)
  {
    && now == AfterRounds(ws, rows, when)
    && when.Keys <= DueIds(rows, horizon)
    && (forall d | d in rows && d.id in when :: Settles(ws(when[d.id]), d))
    && (forall id | id in posts :: id in DueIds(rows, horizon))
    && (forall id | id in when :: posts[id] >= 1)
    && (forall d | d in rows && Certain(ws, d) :: posts[d.id] == if d.id in when then 1 else 0)
  }

  /** What a round records. */
  function Settled(w: World, now: D.Table, at: int): set<int> {
    set d | d in now && d.id in Batch(now, at) && Settles(w, d) :: d.id
  }

  function Recorded(w: World, now: D.Table, at: int, k: nat): map<int, nat> {
    map id | id in Settled(w, now, at) :: k
  }

  lemma Start(ws: nat -> World, rows: D.Table, horizon: int)
    ensures SoFar(ws, rows, rows, multiset{}, map[], horizon)
  {
    assert AfterRounds(ws, rows, map[]) == rows;
  }

  /** What is due afterwards is what was due at the start and has not been recorded. */
  lemma StillDueThen(ws: nat -> World, rows: D.Table, when: map<int, nat>, start: int, at: int, d: D.Delivery)
    requires D.Ordered(rows) && (forall k: nat :: OnTime(ws(k), start)) && at < start + D.RETRY_SCHEDULE[0]
    requires forall e | e in rows && e.id in when :: Settles(ws(when[e.id]), e)
    ensures d in AfterRounds(ws, rows, when) && D.IsDue(d, at) <==> d in rows && D.IsDue(d, at) && d.id !in when
  {
    var after := AfterRounds(ws, rows, when);
    if d in after && D.IsDue(d, at) {
      var i :| 0 <= i < |after| && after[i] == d;
      assert rows[i] in rows;
      if rows[i].id in when {
        RecordedIsNotDue(ws(when[rows[i].id]), rows[i], start, at);
      }
    }
    if d in rows && D.IsDue(d, at) && d.id !in when {
      var i :| 0 <= i < |rows| && rows[i] == d;
      assert after[i] == d;
    }
  }

  lemma AfterRoundsKeepsOrder(ws: nat -> World, rows: D.Table, when: map<int, nat>)
    requires D.Ordered(rows)
    ensures D.Ordered(AfterRounds(ws, rows, when))
  {
  }

  /** The deliveries a round lists: due at the start, as they were then, not recorded so far. */
  lemma ListedIsNew(ws: nat -> World, rows: D.Table, now: D.Table, posts: multiset<int>, when: map<int, nat>,
                    start: int, horizon: int, at: int)
    requires D.Ordered(rows) && (forall k: nat :: OnTime(ws(k), start)) && at <= horizon < start + D.RETRY_SCHEDULE[0]
    requires SoFar(ws, rows, now, posts, when, horizon)
    ensures D.Ordered(now)
    ensures forall d :: d in now && d.id in Batch(now, at) ==> d in rows && D.IsDue(d, horizon) && d.id !in when
    ensures forall d :: d in rows && d.id in Batch(now, at) ==> d in now
    ensures Batch(now, at) <= DueIds(rows, horizon)
  {
    AfterRoundsKeepsOrder(ws, rows, when);
    BatchIsPending(now, at);
    BatchIs(now, at);
    forall d | d in now && d.id in Batch(now, at) ensures d in rows && D.IsDue(d, horizon) && d.id !in when {
      StillDueThen(ws, rows, when, start, at, d);
    }
    forall id | id in Batch(now, at) ensures id in DueIds(rows, horizon) {
      var d :| d in now && D.IsDue(d, at) && d.id == id;
    }
    forall d | d in rows && d.id in Batch(now, at) ensures d in now {
      var e :| e in now && D.IsDue(e, at) && e.id == d.id;
      SameId(rows, d, e);
    }
  }

  lemma SameId(rows: D.Table, d: D.Delivery, e: D.Delivery)
    requires D.Ordered(rows) && d in rows && e in rows && d.id == e.id
    ensures d == e
  {
  }

  /** The rounds so far and one more. */
  lemma RoundsCompose(ws: nat -> World, rows: D.Table, now: D.Table, posts: multiset<int>, when: map<int, nat>,
                      start: int, horizon: int, at: int, k: nat)
    requires D.Ordered(rows) && (forall j: nat :: OnTime(ws(j), start)) && at <= horizon < start + D.RETRY_SCHEDULE[0]
    requires SoFar(ws, rows, now, posts, when, horizon)
    ensures Round(ws(k), now, at) == AfterRounds(ws, rows, when + Recorded(ws(k), now, at, k))
  {
    hide D.DueDeliveries, D.IsDue, OnTime, DueIds, Certain;
    ListedIsNew(ws, rows, now, posts, when, start, horizon, at);
    var w, next := ws(k), when + Recorded(ws(k), now, at, k);
    forall i | 0 <= i < |rows| ensures Round(w, now, at)[i] == AfterRounds(ws, rows, next)[i] {
      assert rows[i] in rows && now[i] in now && now[i].id == rows[i].id;
    }
  }

  lemma SettledIsPosted(w: World, now: D.Table, at: int)
    requires D.Ordered(now)
    ensures Settled(w, now, at) <= Posted(w, now, at) <= Batch(now, at)
    ensures forall d :: d in now && d.id in Batch(now, at) && Settles(w, d) ==> d.id in Settled(w, now, at)
    ensures forall id | id in Settled(w, now, at) ::
      exists d | d in now :: d.id == id && d.id in Batch(now, at) && Settles(w, d)
  {
    D.DueListIsExact(now, at, SWEEP_BATCH);
    forall d | d in now && d.id in Batch(now, at) && Settles(w, d) ensures d.id in Posted(w, now, at) {
      var e :| e in D.DueDeliveries(now, at, SWEEP_BATCH) && e.id == d.id;
      SameId(now, d, e);
    }
  }

  lemma CertainSettles(ws: nat -> World, d: D.Delivery, n: nat)
    requires Certain(ws, d)
    ensures Settles(ws(n), d)
  {
  }

  /** The posts of one more round. */
  lemma CountedAgain(ws: nat -> World, rows: D.Table, posts: multiset<int>, when: map<int, nat>, posted: set<int>,
                     more: map<int, nat>)
    requires forall id | id in when :: posts[id] >= 1
    requires forall d | d in rows && Certain(ws, d) :: posts[d.id] == if d.id in when then 1 else 0
    requires more.Keys <= posted
    requires forall d | d in rows && Certain(ws, d) && d.id in posted :: d.id in more && d.id !in when
    ensures var all := posts + multiset(posted);
      && (forall id | id in when + more :: all[id] >= 1)
      && (forall d | d in rows && Certain(ws, d) :: all[d.id] == if d.id in when + more then 1 else 0)
  {
    hide Certain;
  }

  lemma NextRound(ws: nat -> World, clock: nat -> int, rows: D.Table, now: D.Table, posts: multiset<int>,
                  when: map<int, nat>, start: int, horizon: int, k: nat)
    requires D.Ordered(rows) && Brief(ws, clock, start, horizon) && SoFar(ws, rows, now, posts, when, horizon)
    ensures SoFar(ws, rows, Round(ws(k), now, clock(k)), posts + multiset(Posted(ws(k), now, clock(k))),
                  when + Recorded(ws(k), now, clock(k), k), horizon)
  {
    hide AfterRounds, Round, Batch, Posted, Settled, OnTime, Certain, Settles, DueIds, D.IsDue, D.Ordered;
    var w, at := ws(k), clock(k);
    ListedIsNew(ws, rows, now, posts, when, start, horizon, at);
    RoundsCompose(ws, rows, now, posts, when, start, horizon, at, k);
    SettledIsPosted(w, now, at);
    forall d | d in rows && Certain(ws, d) ensures Settles(w, d) {
      CertainSettles(ws, d, k);
    }
    CountedAgain(ws, rows, posts, when, Posted(w, now, at), Recorded(w, now, at, k));
  }

  /** After a short batch, whatever was due at the start has been recorded, or the last round failed to. */
  lemma LastRound(ws: nat -> World, clock: nat -> int, rows: D.Table, now: D.Table, posts: multiset<int>,
                  when: map<int, nat>, start: int, horizon: int, k: nat)
    requires D.Ordered(rows) && Brief(ws, clock, start, horizon) && SoFar(ws, rows, now, posts, when, horizon)
    requires |D.DueDeliveries(now, clock(k), SWEEP_BATCH)| < SWEEP_BATCH
    ensures forall d | d in rows && D.IsDue(d, start) ::
      d.id in when + Recorded(ws(k), now, clock(k), k) || !Settles(ws(k), d)
    ensures forall d | d in Round(ws(k), now, clock(k)) && D.IsDue(d, start) :: !Settles(ws(k), d)
  {
    var w, at := ws(k), clock(k);
    AfterRoundsKeepsOrder(ws, rows, when);
    BatchIs(now, at);
    forall d | d in rows && D.IsDue(d, start) && d.id !in when ensures d in now && d.id in Batch(now, at) {
      StillDueThen(ws, rows, when, start, start, d);
      assert d.id in DueIds(now, at);
    }
    forall d | d in Round(w, now, at) && D.IsDue(d, start) ensures !Settles(w, d) {
      StillDue(w, now, Batch(now, at), start, start, d);
      assert d.id in DueIds(now, at);
    }
  }
}
