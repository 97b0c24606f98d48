/** Sweeping finished tokens is invisible: a store that is swept and one that never is, fed the same
    requests in the same commit order, redeem exactly the same tokens with the same results. */
module TokenSweep {
  import opened Common
  import opened Tokens

  datatype Op =
    | Call(ts: int, req: Request, swept: Answer, full: Answer)
    | Sweep(now: int, retention: int, settled: bool, limit: nat, victims: set<string>)

  datatype World = World(swept: Table, full: Table, floor: Option<int>)

  const EMPTY := World(map[], map[], None)

  predicate Timely(w: World, ts: int) {
    w.floor.Some? ==> ts + 1 >= w.floor.value
  }

  /** Values and ids are drawn at random and taken to be new to the full store. */
  predicate NewToken(w: World, req: Request)
    requires req.Create?
  {
    req.id !in w.full && forall id | id in w.full :: w.full[id].value != req.value
  }

  /** The two DELETE statements of a sweep. */
  function SweepRequest(op: Op): Request
    requires op.Sweep?
  {
    if op.settled then PurgeSettled(op.now - op.retention, op.limit) else PurgeExpired(op.now - op.retention, op.limit)
  }

  predicate Legal(w: World, op: Op) {
    match op
    case Call(ts, req, swept, full) =>
      && !req.PurgeExpired? && !req.PurgeSettled?
      && (req.Create? ==> NewToken(w, req))
      && Timely(w, ts)
      && Allowed(w.swept, ts, req, swept) && Allowed(w.full, ts, req, full)
    case Sweep(now, _, _, _, victims) => Allowed(w.swept, now, SweepRequest(op), Purged(victims))
  }

  /** Only the expiry sweep depends on its cutoff: a settled token is finished for good. */
  function Apply(w: World, op: Op): World
    requires Legal(w, op)
  {
    match op
    case Call(ts, req, swept, full) =>
      World(After(w.swept, ts, req, swept), After(w.full, ts, req, full), w.floor)
    case Sweep(now, retention, settled, _, victims) =>
      var before := now - retention;
      World(w.swept - victims, w.full,
            if settled || (w.floor.Some? && w.floor.value > before) then w.floor else Some(before))
  }

  predicate Runs(ops: seq<Op>)
    decreases |ops|, 0
  {
    ops == [] || (var n := |ops| - 1; Runs(ops[..n]) && Legal(Final(ops[..n]), ops[n]))
  }

  function Final(ops: seq<Op>): World
    requires Runs(ops)
    decreases |ops|, 1
  {
    if ops == [] then EMPTY else var n := |ops| - 1; Apply(Final(ops[..n]), ops[n])
  }

  /** Not redeemable at any moment from `floor - 1` on. */
  predicate Finished(t: Token, floor: Option<int>) {
    || t.revokedAt.Some?
    || (t.maxUses.Some? && t.used >= t.maxUses.value)
    || (floor.Some? && t.expiresAt < floor.value)
  }

  predicate Related(w: World) {
    && DistinctValues(w.full) && DistinctValues(w.swept)
    && (forall id | id in w.swept :: id in w.full && w.full[id] == w.swept[id])
    && (forall id | id in w.full && id !in w.swept :: Finished(w.full[id], w.floor))
  }

  lemma SameTargets(w: World, env: int, value: string, ts: int)
    requires Related(w) && Timely(w, ts)
    ensures Targets(w.swept, env, value, ts) == Targets(w.full, env, value, ts)
  {
  }

  /** One row after a call made to both stores. */
  lemma RowAfterCall(w: World, op: Op, id: string)
    requires Related(w) && Legal(w, op) && op.Call?
    requires var w' := Apply(w, op); id in w'.swept || id in w'.full
    ensures var w' := Apply(w, op);
      && (id in w'.swept ==> id in w'.full && w'.full[id] == w'.swept[id])
      && (id in w'.full && id !in w'.swept ==> Finished(w'.full[id], w'.floor))
  {
    if op.req.Consume? {
      SameTargets(w, op.req.env, op.req.value, op.ts);
    }
    if id in Apply(w, op).full && id in w.full {
      CommitEffect(w.full, op.ts, op.req, op.full, id);
    }
  }

  lemma CallKeepsRelated(w: World, op: Op)
    requires Related(w) && Legal(w, op) && op.Call?
    ensures Related(Apply(w, op))
  {
    hide Allowed, After, DistinctValues, Finished;
    var w' := Apply(w, op);
    DistinctValuesKept(w.full, op.ts, op.req, op.full);
    DistinctValuesKept(w.swept, op.ts, op.req, op.swept);
    forall id | id in w'.swept || id in w'.full
      ensures id in w'.swept ==> id in w'.full && w'.full[id] == w'.swept[id]
      ensures id in w'.full && id !in w'.swept ==> Finished(w'.full[id], w'.floor)
    {
      RowAfterCall(w, op, id);
    }
  }

  lemma SweepKeepsRelated(w: World, op: Op)
    requires Related(w) && Legal(w, op) && op.Sweep?
    ensures Related(Apply(w, op))
  {
    var w' := Apply(w, op);
    forall id | id in w'.full && id !in w'.swept ensures Finished(w'.full[id], w'.floor) {
      if id in w.swept {
        assert w.full[id].expiresAt < op.now - op.retention || SettledBefore(w.full[id], op.now - op.retention);
      }
    }
  }

  lemma {:induction false} AlwaysRelated(ops: seq<Op>)
    requires Runs(ops)
    ensures Related(Final(ops))
  {
    if ops != [] {
      var n := |ops| - 1;
      AlwaysRelated(ops[..n]);
      if ops[n].Call? {
        CallKeepsRelated(Final(ops[..n]), ops[n]);
      } else {
        SweepKeepsRelated(Final(ops[..n]), ops[n]);
      }
    }
  }

  /** After any run, a redemption is answered by the swept store exactly as by the never-swept one, and
      so is the creation of a token with a new id and value. */
  lemma SweepingIsInvisible(ops: seq<Op>, ts: int, req: Request, ans: Answer)
    requires Runs(ops) && Timely(Final(ops), ts)
    requires req.Consume? || (req.Create? && NewToken(Final(ops), req))
    ensures Allowed(Final(ops).swept, ts, req, ans) <==> Allowed(Final(ops).full, ts, req, ans)
  {
    AlwaysRelated(ops);
    if req.Consume? {
      SameTargets(Final(ops), req.env, req.value, ts);
    }
  }

  function Clock(op: Op): int { if op.Call? then op.ts else op.now }

  lemma {:induction false} OrderedCallsAreTimely(ops: seq<Op>, ts: int)
    requires Runs(ops)
    requires forall op | op in ops :: Clock(op) <= ts && (op.Sweep? ==> op.retention >= 0)
    ensures Timely(Final(ops), ts)
  {
    if ops != [] {
      OrderedCallsAreTimely(ops[..|ops| - 1], ts);
    }
  }

  lemma OlderCallsCanTell(before: int, ts: int, env: int, value: string)
    requires ts + 1 < before
    ensures exists rows: Table, ans ::
      && Allowed(rows, ts, Consume(env, value), ans)
      && !Allowed(rows - ExpiredRows(rows, before), ts, Consume(env, value), ans)
  {
    var t := Token(env, value, "{}", None, 0, before - 1, None, ts, None);
    var rows: Table := map["a" := t];
    var ans := Consumed("a", Redeemed(t, ts));
    assert Targets(rows, env, value, ts) == {"a"};
    assert "a" in ExpiredRows(rows, before);
    assert rows - ExpiredRows(rows, before) == map[];
    assert Allowed(rows, ts, Consume(env, value), ans);
    assert !Allowed(rows - ExpiredRows(rows, before), ts, Consume(env, value), ans);
  }
}
