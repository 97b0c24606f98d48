/** What the log of a run says of a token, request by request: it was created as it was asked for, and can be
    redeemed exactly as often and as long as that request allowed. */
module TokenHistory {
  import opened Common
  import opened Tokens
  import opened TokenAnswers
  import opened TokenRuns

  /** The transaction that inserted the row. */
  predicate Makes(e: Entry, id: string) { e.req.Create? && e.ans.Created? && e.ans.id == id }

  /** The columns that never change, as the request set them. */
  predicate AsAsked(e: Entry, row: Token)
    requires e.req.Create?
  {
    && row.env == e.req.env && row.value == e.req.value && row.payload == e.req.payload
    && row.maxUses == e.req.maxUses && row.expiresAt == e.req.expiresAt && row.createdAt == e.ts
  }

  predicate MakeKept(e: Entry, ever: Table) {
    e.ans.Created? ==>
      && e.req.Create? && Makes(e, e.req.id) && CreatedAs(e.ans.row, e.req, e.ts)
      && e.req.id in ever && AsAsked(e, ever[e.req.id])
  }

  predicate CancelKept(e: Entry, ever: Table) {
    e.ans.Cancelled? ==>
      && e.req.Revoke? && Cancels(e, e.req.id) && e.req.id in ever
      && ever[e.req.id].env == e.req.env && ever[e.req.id].revokedAt == Some(e.ts)
  }

  /** Where a column came from. */
  predicate Sourced(log: seq<Entry>, id: string, row: Token) {
    && (exists e | e in log :: Makes(e, id))
    && (row.revokedAt.Some? ==> exists e | e in log :: Cancels(e, id))
  }

  predicate History(s: State) {
    && (forall e | e in s.log :: MakeKept(e, s.ever) && CancelKept(e, s.ever))
    && (forall id | id in s.ever :: Sourced(s.log, id, s.ever[id]))
  }

  predicate Kept(before: Table, after: Table) {
    forall id | id in before :: id in after && Evolves(before[id], after[id])
  }

  lemma EntriesKept(log: seq<Entry>, before: Table, after: Table)
    requires Kept(before, after) && forall e | e in log :: MakeKept(e, before) && CancelKept(e, before)
    ensures forall e | e in log :: MakeKept(e, after) && CancelKept(e, after)
  {
  }

  /** The new entry of the log, as the answer and the new table show it. */
  lemma EntryAdded(s: State, step: Step)
    requires Ledger(s) && Enabled(s, step) && step.Commit?
    ensures var e, t := Entry(step.p.ts, step.p.req, step.ans), Apply(s, step);
      MakeKept(e, t.ever) && CancelKept(e, t.ever)
  {
    var p, ans := step.p, step.ans;
    var after := After(s.rows, p.ts, p.req, ans);
    if p.req.Create? {
      CreateAnswers(s.rows, p.ts, p.req, ans);
      assert ans.Created? ==> p.req.id in after && after[p.req.id] == ans.row;
    } else if p.req.Revoke? {
      RevokeAnswers(s.rows, p.ts, p.req, ans);
      assert ans.Cancelled? ==> p.req.id in after && after[p.req.id] == ans.row;
    }
  }

  /** A row that is new was created by this commit, and a stamp that is new was written by it. */
  lemma SourceAdded(s: State, step: Step, id: string)
    requires Ledger(s) && Enabled(s, step) && step.Commit? && id in Apply(s, step).ever
    ensures var e, t := Entry(step.p.ts, step.p.req, step.ans), Apply(s, step);
      && (id !in s.ever ==> Makes(e, id))
      && (t.ever[id].revokedAt.Some? && (id in s.ever ==> s.ever[id].revokedAt.None?) ==> Cancels(e, id))
  {
    LedgerEffect(s, step, id);
  }

  lemma HistoryStep(s: State, step: Step)
    requires History(s) && Ledger(s) && Enabled(s, step) && step.Commit?
    requires Kept(s.ever, Apply(s, step).ever)
    ensures History(Apply(s, step))
  {
    hide Allowed, After, CancelKept, MakeKept, Makes, Cancels;
    var t, e := Apply(s, step), Entry(step.p.ts, step.p.req, step.ans);
    assert t.log == s.log + [e];
    EntriesKept(s.log, s.ever, t.ever);
    EntryAdded(s, step);
    forall id | id in t.ever ensures Sourced(t.log, id, t.ever[id]) {
      SourceAdded(s, step, id);
    }
  }

  lemma HistoryKept(s: State, step: Step)
    requires Inv(s) && History(s) && Enabled(s, step)
    ensures History(Apply(s, step))
  {
    hide Allowed, After, CancelKept, MakeKept, Sourced, Accounted, Justified, CancelledLast;
    if step.Commit? {
      LedgerStep(s, step);
      HistoryStep(s, step);
    }
  }

  lemma {:induction false} HistoryAlways(clock: int, steps: seq<Step>)
    requires Runs(clock, steps)
    ensures Inv(Final(clock, steps)) && History(Final(clock, steps))
  {
    hide Inv, Allowed, After, CancelKept, MakeKept, Sourced, Accounted, Justified, CancelledLast;
    InvAlways(clock, steps);
    if steps != [] {
      var n := |steps| - 1;
      HistoryAlways(clock, steps[..n]);
      HistoryKept(Final(clock, steps[..n]), steps[n]);
    }
  }

  /** Every token that was ever in the table was created by some transaction of the log. */
  lemma EveryTokenWasCreated(clock: int, steps: seq<Step>, id: string) returns (made: Entry)
    requires Runs(clock, steps) && id in Final(clock, steps).ever
    ensures made in Final(clock, steps).log && Makes(made, id)
  {
    HistoryAlways(clock, steps);
    var s := Final(clock, steps);
    assert Sourced(s.log, id, s.ever[id]);
    made :| made in s.log && Makes(made, id);
  }

  /** In every interleaving the successful redemptions of a token are its `used_count`, never more than the
      request that created it allowed; every other column is still what that request asked for, and the
      token is stamped exactly when the log has cancelled it. */
  lemma RedemptionAccounting(clock: int, steps: seq<Step>, made: Entry, id: string)
    requires Runs(clock, steps)
    requires made in Final(clock, steps).log && Makes(made, id)
    ensures var s := Final(clock, steps);
      && (made.req.maxUses.Some? ==> Redemptions(s.log, id) <= made.req.maxUses.value)
      && (id in s.rows ==>
            && AsAsked(made, s.rows[id])
            && s.rows[id].used == Redemptions(s.log, id)
            && (s.rows[id].revokedAt.Some? <==> exists e | e in s.log :: Cancels(e, id)))
  {
    HistoryAlways(clock, steps);
    var s := Final(clock, steps);
    assert MakeKept(made, s.ever) && Accounted(s, id) && Sourced(s.log, id, s.ever[id]);
    forall e | e in s.log && Cancels(e, id) ensures s.ever[id].revokedAt.Some? {
      assert CancelKept(e, s.ever);
    }
  }

  /** What the log alone says of a token at `ts`: not expired as it was created, not cancelled, and redeemed
      less often than its request allowed. */
  ghost predicate Usable(log: seq<Entry>, made: Entry, id: string, ts: int)
    requires Makes(made, id)
  {
    && ts < made.req.expiresAt
    && (made.req.maxUses.Some? ==> Redemptions(log, id) < made.req.maxUses.value)
    && !exists e | e in log :: Cancels(e, id)
  }

  lemma UsableIsActive(clock: int, steps: seq<Step>, made: Entry, id: string, ts: int)
    requires Runs(clock, steps)
    requires made in Final(clock, steps).log && Makes(made, id) && id in Final(clock, steps).rows
    ensures StatusOf(Final(clock, steps).rows[id], ts) == Active <==> Usable(Final(clock, steps).log, made, id, ts)
  {
    RedemptionAccounting(clock, steps, made, id);
  }

  /** A token works exactly as it was created: the next redemption takes one use of it if and only if it names
      the environment and the plaintext of the request that created it while the token is usable. */
  lemma NextRedemption(clock: int, steps: seq<Step>, made: Entry, id: string, p: Pending, ans: Answer)
    requires Runs(clock, steps)
    requires made in Final(clock, steps).log && Makes(made, id) && id in Final(clock, steps).rows
    requires p.req.Consume? && Allowed(Final(clock, steps).rows, p.ts, p.req, ans)
    ensures var s := Final(clock, steps);
      && (Redeems(Entry(p.ts, p.req, ans), id) <==>
            p.req == Consume(made.req.env, made.req.value) && Usable(s.log, made, id, p.ts))
      && After(s.rows, p.ts, p.req, ans)[id] ==
           if Redeems(Entry(p.ts, p.req, ans), id) then
             s.rows[id].(used := Redemptions(s.log, id) + 1, lastUsedAt := Some(p.ts))
           else s.rows[id]
  {
    hide Runs, Final, Accounted, Justified, CancelledLast, StatusOf, Usable, Allowed, After, Redemptions;
    var rows := Final(clock, steps).rows;
    InvAlways(clock, steps);
    RedemptionAccounting(clock, steps, made, id);
    UsableIsActive(clock, steps, made, id, p.ts);
    ConsumeAnswers(rows, p.ts, p.req, ans);
    assert ActiveFor(rows, id, p.req.env, p.req.value, p.ts) <==>
      p.req == Consume(made.req.env, made.req.value) && Usable(Final(clock, steps).log, made, id, p.ts);
  }

  /** A cancellation the log reports named a token of the request's environment, which carries its timestamp
      from then on. */
  lemma CancellationStays(clock: int, steps: seq<Step>, e: Entry)
    requires Runs(clock, steps) && e in Final(clock, steps).log && e.ans.Cancelled?
    ensures var s := Final(clock, steps);
      && e.req.Revoke? && e.ans.id == e.req.id && e.req.id in s.ever
      && s.ever[e.req.id].env == e.req.env && s.ever[e.req.id].revokedAt == Some(e.ts)
      && (e.req.id in s.rows ==> s.rows[e.req.id].revokedAt == Some(e.ts))
  {
    HistoryAlways(clock, steps);
    assert CancelKept(e, Final(clock, steps).ever);
  }
}
