/** Whole runs of the token service: sampled timestamps, commits in any order, and events reported some
    time after the commit that owes them. */
module TokenRuns {
  import opened Common
  import opened Tokens

  datatype Pending = Pending(ts: int, req: Request)

  datatype Entry = Entry(ts: int, req: Request, ans: Answer)

  datatype Step =
    | Tick(now: int)
    | Begin(req: Request)
    | Commit(p: Pending, ans: Answer)
    | Abort(p: Pending)
    | Emit(e: Event)

  /** `owed` holds the events of committed changes that have not been reported yet, `ever` the last
      value of every row that was ever in the table. */
  datatype State = State(clock: int, rows: Table, inflight: multiset<Pending>, log: seq<Entry>, ever: Table,
                         owed: multiset<Event>, emitted: seq<Event>)

  function Start(clock: int): State {
    State(clock, map[], multiset{}, [], map[], multiset{}, [])
  }

  /** ValidateMaxUses: absent, or at least one. */
  predicate ValidInput(req: Request) {
    req.Create? && req.maxUses.Some? ==> req.maxUses.value >= 1
  }

  /** Ids are drawn at random; they are taken never to repeat. */
  predicate Enabled(s: State, step: Step) {
    match step
    case Tick(now) => now >= s.clock
    case Begin(req) => ValidInput(req)
    case Commit(p, ans) =>
      && p in s.inflight && Allowed(s.rows, p.ts, p.req, ans)
      && (p.req.Create? ==> p.req.id !in s.ever)
    case Abort(p) => p in s.inflight
    case Emit(e) => e in s.owed
  }

  function Apply(s: State, step: Step): State
    requires Enabled(s, step)
  {
    match step
    case Tick(now) => s.(clock := now)
    case Begin(req) => s.(inflight := s.inflight + multiset{Pending(s.clock, req)})
    case Commit(p, ans) =>
      var rows := After(s.rows, p.ts, p.req, ans);
      s.(rows := rows, inflight := s.inflight - multiset{p}, log := s.log + [Entry(p.ts, p.req, ans)],
         ever := s.ever + rows, owed := s.owed + multiset(EventsOf(p.ts, ans)))
    case Abort(p) => s.(inflight := s.inflight - multiset{p})
    case Emit(e) => s.(owed := s.owed - multiset{e}, emitted := s.emitted + [e])
  }

  predicate Runs(clock: int, steps: seq<Step>)
    decreases |steps|, 0
  {
    steps == [] ||
    (var n := |steps| - 1;
     Runs(clock, steps[..n]) && Enabled(Final(clock, steps[..n]), steps[n]))
  }

  function Final(clock: int, steps: seq<Step>): State
    requires Runs(clock, steps)
    decreases |steps|, 1
  {
    if steps == [] then Start(clock)
    else var n := |steps| - 1; Apply(Final(clock, steps[..n]), steps[n])
  }

  /** Whoever waits can be next, however long ago it read the clock. */
  lemma AnyoneCanCommit(clock: int, steps: seq<Step>, p: Pending) returns (ans: Answer)
    requires Runs(clock, steps) && p in Final(clock, steps).inflight
    requires p.req.Create? ==> p.req.id !in Final(clock, steps).ever
    ensures Runs(clock, steps + [Commit(p, ans)])
    ensures Final(clock, steps + [Commit(p, ans)]).log == Final(clock, steps).log + [Entry(p.ts, p.req, ans)]
  {
    ans := AlwaysAnswered(Final(clock, steps).rows, p.ts, p.req);
    assert (steps + [Commit(p, ans)])[..|steps|] == steps;
  }

  predicate Redeems(e: Entry, id: string) { e.req.Consume? && e.ans.Consumed? && e.ans.id == id }

  predicate Cancels(e: Entry, id: string) { e.req.Revoke? && e.ans.Cancelled? && e.ans.id == id }

  function Redemptions(log: seq<Entry>, id: string): nat {
    if log == [] then 0
    else Redemptions(log[..|log| - 1], id) + if Redeems(log[|log| - 1], id) then 1 else 0
  }

  /** Events reported for a token so far plus those still owed. */
  function Due(s: State, kind: EventKind, id: string): nat {
    s.owed[Event(kind, id)] + multiset(s.emitted)[Event(kind, id)]
  }

  function Count(b: bool): nat { if b then 1 else 0 }

  predicate Accounted(s: State, id: string) {
    && Due(s, EventConsumed, id) == Redemptions(s.log, id)
    && Due(s, EventCreated, id) == Count(id in s.ever)
    && (if id in s.ever then
          var t := s.ever[id];
          && t.used == Redemptions(s.log, id)
          && (t.maxUses.Some? ==> t.used <= t.maxUses.value && t.maxUses.value >= 1)
          && Due(s, EventExhausted, id) == Count(t.maxUses == Some(t.used))
          && Due(s, EventRevoked, id) == Count(t.revokedAt.Some?)
        else
          && Redemptions(s.log, id) == 0
          && Due(s, EventExhausted, id) == Due(s, EventRevoked, id) == 0)
  }

  /** What holds of one redemption in the log: before expiry by its own timestamp, in the token's own
      environment, under its own plaintext. */
  predicate Justified(s: State, e: Entry) {
    e.ans.Consumed? ==>
      && e.req.Consume?
      && e.ans.id in s.ever
      && e.ts < s.ever[e.ans.id].expiresAt
      && e.req.env == s.ever[e.ans.id].env
      && e.req.value == s.ever[e.ans.id].value
  }

  predicate InOrder(first: Entry, second: Entry) {
    first.ans.Cancelled? && second.ans.Consumed? ==> first.ans.id != second.ans.id
  }

  /** Each entry that cancels a token comes after every redemption of it. */
  predicate CancelledLast(s: State) {
    && (forall i, j | 0 <= i < j < |s.log| :: InOrder(s.log[i], s.log[j]))
    && (forall e | e in s.log && e.ans.Cancelled? :: e.ans.id in s.ever && s.ever[e.ans.id].revokedAt.Some?)
  }

  predicate Ledger(s: State) {
    && DistinctValues(s.rows)
    && (forall id | id in s.rows :: id in s.ever && s.ever[id] == s.rows[id])
  }

  ghost predicate Inv(s: State) {
    && Ledger(s)
    && (forall p | p in s.inflight :: ValidInput(p.req) && p.ts <= s.clock)
    && (forall e | e in s.log :: Justified(s, e))
    && CancelledLast(s)
    && (forall id: string :: Accounted(s, id))
  }

  lemma AppendCounts(log: seq<Entry>, e: Entry, id: string)
    ensures Redemptions(log + [e], id) == Redemptions(log, id) + Count(Redeems(e, id))
  {
    assert (log + [e])[..|log|] == log;
  }

  /** The last value of a row after a commit: changed only in the row the answer names. */
  predicate Recorded(before: Table, after: Table, p: Pending, ans: Answer, id: string) {
    if ans.Consumed? && ans.id == id then
      && p.req.Consume? && id in before && id in after
      && Redeemable(before[id], p.req.env, p.req.value, p.ts)
      && after[id] == ans.row == Redeemed(before[id], p.ts)
    else if ans.Cancelled? && ans.id == id then
      && p.req.Revoke? && id in before && id in after && before[id].revokedAt.None?
      && after[id] == before[id].(revokedAt := Some(p.ts))
    else if ans.Created? && ans.id == id then
      p.req.Create? && id !in before && id in after && after[id] == FreshRow(p.req, p.ts)
    else
      (id in before <==> id in after) && (id in before ==> after[id] == before[id])
  }

  lemma LedgerEffect(s: State, step: Step, id: string)
    requires Ledger(s) && Enabled(s, step) && step.Commit?
    ensures Recorded(s.ever, Apply(s, step).ever, step.p, step.ans, id)
    ensures var t := Apply(s, step); id in t.rows ==> id in t.ever && t.ever[id] == t.rows[id]
  {
    var p, ans := step.p, step.ans;
    var rows := After(s.rows, p.ts, p.req, ans);
    if id in rows {
      CommitEffect(s.rows, p.ts, p.req, ans, id);
    }
    if (ans.Consumed? || ans.Cancelled?) && ans.id == id {
      assert id in rows;
    }
  }

  lemma OwedGrows(s: State, step: Step, kind: EventKind, id: string)
    requires Enabled(s, step) && step.Commit?
    ensures Due(Apply(s, step), kind, id) == Due(s, kind, id) + Count(Event(kind, id) in EventsOf(step.p.ts, step.ans))
  {
  }

  /** The bookkeeping of one commit, from what it recorded, logged and owes. */
  lemma AccountedAfter(s: State, t: State, p: Pending, ans: Answer, id: string)
    requires Accounted(s, id) && ValidInput(p.req)
    requires Recorded(s.ever, t.ever, p, ans, id) && t.log == s.log + [Entry(p.ts, p.req, ans)]
    requires forall kind :: Due(t, kind, id) == Due(s, kind, id) + Count(Event(kind, id) in EventsOf(p.ts, ans))
    requires ans.Consumed? ==> p.req.Consume?
    ensures Accounted(t, id)
  {
    AppendCounts(s.log, Entry(p.ts, p.req, ans), id);
    var owed := EventsOf(p.ts, ans);
    assert Due(t, EventConsumed, id) == Due(s, EventConsumed, id) + Count(Event(EventConsumed, id) in owed);
  }

  lemma AccountedCommit(s: State, step: Step, id: string)
    requires Ledger(s) && Accounted(s, id) && Enabled(s, step) && step.Commit? && ValidInput(step.p.req)
    ensures Accounted(Apply(s, step), id)
  {
    var t := Apply(s, step);
    LedgerEffect(s, step, id);
    forall kind ensures Due(t, kind, id) == Due(s, kind, id) + Count(Event(kind, id) in EventsOf(step.p.ts, step.ans)) {
      OwedGrows(s, step, kind, id);
    }
    assert t.log == s.log + [Entry(step.p.ts, step.p.req, step.ans)];
    AccountedAfter(s, t, step.p, step.ans, id);
  }

  lemma EmitKeepsDue(s: State, step: Step, kind: EventKind, id: string)
    requires Enabled(s, step) && step.Emit?
    ensures Due(Apply(s, step), kind, id) == Due(s, kind, id)
  {
  }

  lemma AccountedStep(s: State, step: Step, id: string)
    requires Ledger(s) && Accounted(s, id) && Enabled(s, step)
    requires step.Commit? ==> ValidInput(step.p.req)
    ensures Accounted(Apply(s, step), id)
  {
    if step.Commit? {
      AccountedCommit(s, step, id);
    } else if step.Emit? {
      forall kind ensures Due(Apply(s, step), kind, id) == Due(s, kind, id) {
        EmitKeepsDue(s, step, kind, id);
      }
      assert Due(Apply(s, step), EventConsumed, id) == Due(s, EventConsumed, id);
    }
  }

  /** The history claims of one commit, from what it recorded and logged. */
  lemma HistoryAfter(s: State, t: State, p: Pending, ans: Answer)
    requires t.log == s.log + [Entry(p.ts, p.req, ans)]
    requires forall id :: Recorded(s.ever, t.ever, p, ans, id)
    requires CancelledLast(s) && forall e | e in s.log :: Justified(s, e)
    ensures CancelledLast(t)
    ensures forall e | e in t.log :: Justified(t, e)
  {
    var last := Entry(p.ts, p.req, ans);
    assert forall e | e in t.log :: e in s.log || e == last;
    forall e | e in t.log ensures Justified(t, e) {
      if e.ans.Consumed? {
        assert Recorded(s.ever, t.ever, p, ans, e.ans.id);
      }
    }
    forall e | e in t.log && e.ans.Cancelled?
      ensures e.ans.id in t.ever && t.ever[e.ans.id].revokedAt.Some?
    {
      assert Recorded(s.ever, t.ever, p, ans, e.ans.id);
    }
    forall i, j | 0 <= i < j < |t.log| ensures InOrder(t.log[i], t.log[j]) {
      assert t.log[i] == s.log[i];
      if j < |s.log| {
        assert t.log[j] == s.log[j];
      } else {
        assert s.log[i] in s.log && t.log[j] == last;
        if ans.Consumed? { assert Recorded(s.ever, t.ever, p, ans, ans.id); }
      }
    }
  }

  lemma HistoryStep(s: State, step: Step)
    requires Ledger(s) && Enabled(s, step) && step.Commit?
    requires CancelledLast(s) && forall e | e in s.log :: Justified(s, e)
    ensures CancelledLast(Apply(s, step))
    ensures forall e | e in Apply(s, step).log :: Justified(Apply(s, step), e)
  {
    forall id ensures Recorded(s.ever, Apply(s, step).ever, step.p, step.ans, id) {
      LedgerEffect(s, step, id);
    }
    HistoryAfter(s, Apply(s, step), step.p, step.ans);
  }

  lemma LedgerStep(s: State, step: Step)
    requires Ledger(s) && Enabled(s, step) && step.Commit?
    ensures Ledger(Apply(s, step))
    ensures forall id | id in s.ever :: id in Apply(s, step).ever && Evolves(s.ever[id], Apply(s, step).ever[id])
  {
    var t := Apply(s, step);
    DistinctValuesKept(s.rows, step.p.ts, step.p.req, step.ans);
    forall id: string
      ensures id in t.rows ==> id in t.ever && t.ever[id] == t.rows[id]
      ensures id in s.ever ==> id in t.ever && Evolves(s.ever[id], t.ever[id])
    {
      LedgerEffect(s, step, id);
    }
  }

  lemma CommitKeepsInv(s: State, step: Step)
    requires Inv(s) && Enabled(s, step) && step.Commit?
    ensures Inv(Apply(s, step))
  {
    LedgerStep(s, step);
    HistoryStep(s, step);
    forall id: string ensures Accounted(Apply(s, step), id) { AccountedStep(s, step, id); }
  }

  lemma InvStep(s: State, step: Step)
    requires Inv(s) && Enabled(s, step)
    ensures Inv(Apply(s, step))
  {
    if step.Commit? {
      CommitKeepsInv(s, step);
    } else {
      var t := Apply(s, step);
      assert t.log == s.log && t.ever == s.ever;
      forall id: string ensures Accounted(t, id) { AccountedStep(s, step, id); }
      forall e | e in t.log ensures Justified(t, e) { assert Justified(s, e); }
    }
  }

  lemma {:induction false} InvAlways(clock: int, steps: seq<Step>)
    requires Runs(clock, steps)
    ensures Inv(Final(clock, steps))
  {
    if steps == [] {
      assert forall id: string :: Accounted(Start(clock), id);
    } else {
      var n := |steps| - 1;
      InvAlways(clock, steps[..n]);
      InvStep(Final(clock, steps[..n]), steps[n]);
    }
  }

  /** Every redemption in the log sampled a time before the expiry, came from the token's environment
      with its plaintext, and was committed before any cancellation of the token. */
  lemma {:induction false} RedemptionsAreJustified(clock: int, steps: seq<Step>, j: nat)
    requires Runs(clock, steps) && j < |Final(clock, steps).log| && Final(clock, steps).log[j].ans.Consumed?
    ensures var s := Final(clock, steps); var e := s.log[j];
      && e.ans.id in s.ever
      && e.ts < s.ever[e.ans.id].expiresAt
      && e.req == Consume(s.ever[e.ans.id].env, s.ever[e.ans.id].value)
      && (forall i | 0 <= i < |s.log| && Cancels(s.log[i], e.ans.id) :: j < i)
  {
    InvAlways(clock, steps);
    var s := Final(clock, steps);
    assert s.log[j] in s.log && Justified(s, s.log[j]);
    forall i | 0 <= i < |s.log| && Cancels(s.log[i], s.log[j].ans.id) ensures j < i {
      assert i < j ==> InOrder(s.log[i], s.log[j]);
    }
  }

  /** Events reported plus events still owed: one `consumed` per redemption, one `exhausted` exactly
      when the limit has been reached, one `revoked` exactly when cancelled, one `created`. */
  lemma {:induction false} EventAccounting(clock: int, steps: seq<Step>, id: string)
    requires Runs(clock, steps) && id in Final(clock, steps).ever
    ensures var s := Final(clock, steps); var t := s.ever[id];
      && Due(s, EventConsumed, id) == Redemptions(s.log, id) == t.used
      && Due(s, EventExhausted, id) == Count(t.maxUses == Some(Redemptions(s.log, id)))
      && Due(s, EventRevoked, id) == Count(t.revokedAt.Some?)
      && Due(s, EventCreated, id) == 1
  {
    InvAlways(clock, steps);
    assert Accounted(Final(clock, steps), id);
  }

  /** One step keeps every recorded token on its way. */
  lemma StepEvolves(s: State, step: Step, id: string)
    requires Inv(s) && Enabled(s, step)
    ensures s.clock <= Apply(s, step).clock
    ensures id in s.ever ==> id in Apply(s, step).ever && Evolves(s.ever[id], Apply(s, step).ever[id])
  {
    if step.Commit? {
      LedgerStep(s, step);
    }
  }

  /** Between any two moments of a run every token only evolves. */
  lemma {:induction false} RowsEvolve(clock: int, steps: seq<Step>, n: nat, id: string)
    requires Runs(clock, steps) && n <= |steps|
    ensures Runs(clock, steps[..n])
    ensures var s, t := Final(clock, steps[..n]), Final(clock, steps);
      s.clock <= t.clock && (id in s.ever ==> id in t.ever && Evolves(s.ever[id], t.ever[id]))
  {
    hide Inv, Apply, Enabled;
    if n == |steps| {
      assert steps[..n] == steps;
    } else {
      var m := |steps| - 1;
      RowsEvolve(clock, steps[..m], n, id);
      assert steps[..m][..n] == steps[..n];
      InvAlways(clock, steps[..m]);
      StepEvolves(Final(clock, steps[..m]), steps[m], id);
    }
  }

  /** A token that is not active at some moment is not active at any later one. */
  lemma {:induction false} NeverActiveAgain(clock: int, steps: seq<Step>, n: nat, id: string, t: int, u: int)
    requires Runs(clock, steps) && n <= |steps| && t <= u
    ensures Runs(clock, steps[..n])
    ensures var before, after := Final(clock, steps[..n]), Final(clock, steps);
      id in before.ever && StatusOf(before.ever[id], t) != Active ==>
        id in after.ever && StatusOf(after.ever[id], u) != Active
  {
    RowsEvolve(clock, steps, n, id);
  }
}
