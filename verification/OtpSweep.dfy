/** Sweeping dead codes is invisible: a store that is swept and one that never is, fed the same
    requests in the same commit order, give the same answers to every generate and validation. */
module OtpSweep {
  import opened Common
  import opened Otps

  /** One commit in both stores, or one cleanup batch in the swept store only. */
  datatype Op =
    | Call(ts: int, req: Request, swept: Answer, full: Answer)
    | Sweep(now: int, retention: int, limit: nat, victims: set<string>)

  /** `floor` is the latest cutoff a sweep has used. */
  datatype World = World(swept: Table, full: Table, floor: Option<int>)

  const EMPTY := World(map[], map[], None)

  /** The call did not read the clock further back than a sweep that has already run looked. */
  predicate Timely(w: World, ts: int) {
    w.floor.Some? ==> ts + 1 >= w.floor.value
  }

  predicate Legal(w: World, op: Op) {
    match op
    case Call(ts, req, swept, full) =>
      && !req.Purge?
      && (req.Generate? ==> req.id !in w.full)
      && Timely(w, ts)
      && Allowed(w.swept, ts, req, swept) && Allowed(w.full, ts, req, full)
    case Sweep(now, retention, limit, victims) =>
      Allowed(w.swept, now, Purge(now - retention, limit), Purged(victims))
  }

  function Apply(w: World, op: Op): World
    requires Legal(w, op)
  {
    match op
    case Call(ts, req, swept, full) =>
      World(After(w.swept, ts, req, swept), After(w.full, ts, req, full), w.floor)
    case Sweep(now, retention, limit, victims) =>
      var before := now - retention;
      World(w.swept - victims, w.full,
            Some(if w.floor.Some? && w.floor.value > before then w.floor.value else before))
  }

  predicate Runs(ops: seq<Op>)
    decreases |ops|, 0
  {
    ops == [] || (var n := |ops| - 1; Runs(ops[..n]) && Legal(Final(ops[..n]), ops[n]))
  }

  function Final(ops: seq<Op>): World
    requires Runs(ops)
    decreases |ops|, 1
  {
    if ops == [] then EMPTY else var n := |ops| - 1; Apply(Final(ops[..n]), ops[n])
  }

  /** The swept store is the full one without some rows no timely call can find live. */
  predicate Related(w: World) {
    && (forall id | id in w.swept :: id in w.full && w.full[id] == w.swept[id])
    && (forall id | id in w.full && id !in w.swept :: w.floor.Some? && !LiveAt(w.full[id], w.floor.value - 1))
  }

  lemma SameHits(w: World, key: Key, code: string, ts: int)
    requires Related(w) && Timely(w, ts)
    ensures Hits(w.swept, key, ts) == Hits(w.full, key, ts)
    ensures Matches(w.swept, key, code, ts) == Matches(w.full, key, code, ts)
  {
  }

  lemma SameAnswers(w: World, ts: int, req: Request, ans: Answer)
    requires Related(w) && Timely(w, ts)
    requires req.Validate? || (req.Generate? && req.id !in w.full)
    ensures Allowed(w.swept, ts, req, ans) <==> Allowed(w.full, ts, req, ans)
  {
    SameHits(w, req.key, req.code, ts);
    var hits := Hits(w.full, req.key, ts);
    forall id | id in hits ensures IsNewest(w.swept, hits, id) <==> IsNewest(w.full, hits, id) {}
  }

  /** One row after a call made to both stores. */
  lemma RowAfterCall(w: World, op: Op, id: string)
    requires Related(w) && Legal(w, op) && op.Call?
    requires var w' := Apply(w, op); id in w'.swept || id in w'.full
    ensures var w' := Apply(w, op);
      && (id in w'.swept ==> id in w'.full && w'.full[id] == w'.swept[id])
      && (id in w'.full && id !in w'.swept ==> w'.floor.Some? && !LiveAt(w'.full[id], w'.floor.value - 1))
  {
    if op.req.Validate? || op.req.Generate? {
      SameHits(w, op.req.key, op.req.code, op.ts);
    }
    if id in Apply(w, op).full && id in w.full {
      CommitEffect(w.full, op.ts, op.req, op.full, id);
    }
  }

  lemma CallKeepsRelated(w: World, op: Op)
    requires Related(w) && Legal(w, op) && op.Call?
    ensures Related(Apply(w, op))
  {
    hide Allowed, After, LiveAt;
    var w' := Apply(w, op);
    forall id | id in w'.swept || id in w'.full
      ensures id in w'.swept ==> id in w'.full && w'.full[id] == w'.swept[id]
      ensures id in w'.full && id !in w'.swept ==> w'.floor.Some? && !LiveAt(w'.full[id], w'.floor.value - 1)
    {
      RowAfterCall(w, op, id);
    }
  }

  lemma SweepKeepsRelated(w: World, op: Op)
    requires Related(w) && Legal(w, op) && op.Sweep?
    ensures Related(Apply(w, op))
  {
    var w' := Apply(w, op);
    forall id | id in w'.full && id !in w'.swept
      ensures !LiveAt(w'.full[id], w'.floor.value - 1)
    {
      if id in w.swept {
        assert DeadBefore(w.full[id], op.now - op.retention);
      }
    }
  }

  lemma {:induction false} AlwaysRelated(ops: seq<Op>)
    requires Runs(ops)
    ensures Related(Final(ops))
  {
    if ops != [] {
      var n := |ops| - 1;
      AlwaysRelated(ops[..n]);
      if ops[n].Call? {
        CallKeepsRelated(Final(ops[..n]), ops[n]);
      } else {
        SweepKeepsRelated(Final(ops[..n]), ops[n]);
      }
    }
  }

  /** After any run, the answers the swept store may give to a generate or a validation are exactly
      those the never-swept store may give. */
  lemma SweepingIsInvisible(ops: seq<Op>, ts: int, req: Request, ans: Answer)
    requires Runs(ops) && Timely(Final(ops), ts)
    requires req.Validate? || (req.Generate? && req.id !in Final(ops).full)
    ensures Allowed(Final(ops).swept, ts, req, ans) <==> Allowed(Final(ops).full, ts, req, ans)
  {
    AlwaysRelated(ops);
    SameAnswers(Final(ops), ts, req, ans);
  }

  /** The clock an operation read. */
  function Clock(op: Op): int { if op.Call? then op.ts else op.now }

  /** When timestamps do not go backwards and retention is not negative, every call is timely. */
  lemma {:induction false} OrderedCallsAreTimely(ops: seq<Op>, ts: int)
    requires Runs(ops)
    requires forall op | op in ops :: Clock(op) <= ts && (op.Sweep? ==> op.retention >= 0)
    ensures Timely(Final(ops), ts)
  {
    if ops != [] {
      OrderedCallsAreTimely(ops[..|ops| - 1], ts);
    }
  }

  /** The window is exact: for every older validation and every older generate there is a store that
      answers it differently once it has been swept. */
  lemma OlderCallsCanTell(before: int, ts: int, key: Key, code: string, issue: Request)
    requires ts + 1 < before && issue.Generate? && issue.key == key
    ensures exists rows: Table, ans ::
      && Allowed(rows, ts, Validate(key, code), ans)
      && !Allowed(rows - Purgeable(rows, before), ts, Validate(key, code), ans)
    ensures exists rows: Table, ans ::
      && Allowed(rows, ts, issue, ans)
      && !Allowed(rows - Purgeable(rows, before), ts, issue, ans)
  {
    var o := Otp(key, code, 0, 5, before - 1, None, None, ts);
    var rows: Table := map["a" := o];
    assert "a" in Purgeable(rows, before);
    assert rows - Purgeable(rows, before) == map[];
    var spent := Spent("a", o.(consumedAt := Some(ts)));
    assert Matches(rows, key, code, ts) == {"a"};
    assert Allowed(rows, ts, Validate(key, code), spent);
    assert !Allowed(rows - Purgeable(rows, before), ts, Validate(key, code), spent);
    var reused := Issued("a", o, true);
    assert Hits(rows, key, ts) == {"a"};
    assert Allowed(rows, ts, issue, reused);
    assert !Allowed(rows - Purgeable(rows, before), ts, issue, reused);
  }
}
