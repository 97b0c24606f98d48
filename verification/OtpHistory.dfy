/** What the log of a run says of a code, request by request: it was issued as it was asked for, works until
    the log says otherwise, and is dead from the moment it was cancelled. */
module OtpHistory {
  import opened Common
  import opened Otps
  import opened OtpAnswers
  import opened OtpRuns

  /** The transaction that inserted the row. */
  predicate Issues(e: Entry, id: string) {
    e.req.Generate? && e.ans.Issued? && !e.ans.reused && e.ans.id == id
  }

  predicate Cancels(e: Entry, id: string) { e.req.Revoke? && e.ans.Cancelled? && e.ans.id == id }

  /** The columns that never change, as the request set them. */
  predicate AsAsked(e: Entry, row: Otp)
    requires e.req.Generate?
  {
    && row.key == e.req.key && row.code == e.req.code && row.maxAttempts == e.req.maxAttempts
    && row.expiresAt == e.req.expiresAt && row.createdAt == e.ts
  }

  predicate IssueKept(e: Entry, ever: Table) {
    e.ans.Issued? && !e.ans.reused ==>
      && e.req.Generate? && Issues(e, e.req.id)
      && IssuedAs(e.ans.row, e.req.key, e.req.code, e.req.maxAttempts, e.req.expiresAt, e.ts)
      && e.req.id in ever && AsAsked(e, ever[e.req.id])
  }

  predicate CancelKept(e: Entry, ever: Table) {
    e.ans.Cancelled? ==>
      && e.req.Revoke? && Cancels(e, e.req.id) && e.req.id in ever
      && ever[e.req.id].key.env == e.req.env && ever[e.req.id].revokedAt == Some(e.ts)
  }

  /** Where a column came from. */
  predicate Sourced(log: seq<Entry>, id: string, row: Otp) {
    && (exists e | e in log :: Issues(e, id))
    && (row.revokedAt.Some? ==> exists e | e in log :: Cancels(e, id))
  }

  /** Nothing happens to a code that an earlier transaction cancelled. */
  predicate SilentAfter(first: Entry, second: Entry) {
    first.ans.Cancelled? ==>
      var id := first.ans.id;
      && !SpentBy(second, id) && !FailedOn(second, id) && !Cancels(second, id)
      && !(second.ans.Issued? && second.ans.id == id)
  }

  predicate Silent(log: seq<Entry>) {
    forall i, j | 0 <= i < j < |log| :: SilentAfter(log[i], log[j])
  }

  predicate History(s: State) {
    && (forall e | e in s.log :: IssueKept(e, s.ever) && CancelKept(e, s.ever))
    && (forall id | id in s.ever :: Sourced(s.log, id, s.ever[id]))
    && Silent(s.log)
  }

  predicate Kept(before: Table, after: Table) {
    forall id | id in before :: id in after && Evolves(before[id], after[id])
  }

  lemma EntriesKept(log: seq<Entry>, before: Table, after: Table)
    requires Kept(before, after) && forall e | e in log :: IssueKept(e, before) && CancelKept(e, before)
    ensures forall e | e in log :: IssueKept(e, after) && CancelKept(e, after)
  {
  }

  /** The new entry of the log, as the answer and the new table show it. */
  lemma EntryAdded(s: State, step: Step)
    requires RowsRecorded(s) && Enabled(s, step) && step.Commit?
    ensures var e, t := Entry(step.p.ts, step.p.req, step.ans, s.rows), Apply(s, step);
      IssueKept(e, t.ever) && CancelKept(e, t.ever)
  {
    var p, ans := step.p, step.ans;
    var after := After(s.rows, p.ts, p.req, ans);
    if p.req.Generate? {
      GenerateAnswers(s.rows, p.ts, p.req, ans);
      assert ans.Issued? && !ans.reused ==> p.req.id in after && after[p.req.id] == ans.row;
    } else if p.req.Revoke? {
      RevokeAnswers(s.rows, p.ts, p.req, ans);
      assert ans.Cancelled? ==> p.req.id in after && after[p.req.id] == ans.row;
    }
  }

  /** A row that is new was issued by this commit, and a stamp that is new was written by it. */
  lemma SourceAdded(s: State, step: Step, id: string)
    requires RowsRecorded(s) && Enabled(s, step) && step.Commit? && id in Apply(s, step).ever
    ensures var e, t := Entry(step.p.ts, step.p.req, step.ans, s.rows), Apply(s, step);
      && (id !in s.ever ==> Issues(e, id))
      && (t.ever[id].revokedAt.Some? && (id in s.ever ==> s.ever[id].revokedAt.None?) ==> Cancels(e, id))
  {
    var rows := After(s.rows, step.p.ts, step.p.req, step.ans);
    if id in rows {
      CommitEffect(s.rows, step.p.ts, step.p.req, step.ans, id);
    }
  }

  lemma SilenceAdded(s: State, step: Step, first: Entry)
    requires RowsRecorded(s) && Enabled(s, step) && step.Commit? && CancelKept(first, s.ever)
    requires step.p.req.Generate? ==> step.p.req.id !in s.ever
    ensures SilentAfter(first, Entry(step.p.ts, step.p.req, step.ans, s.rows))
  {
    if step.p.req.Generate? {
      GenerateAnswers(s.rows, step.p.ts, step.p.req, step.ans);
    }
  }

  lemma HistoryStep(s: State, step: Step)
    requires History(s) && RowsRecorded(s) && Enabled(s, step) && step.Commit?
    requires step.p.req.Generate? ==> step.p.req.id !in s.ever
    requires Kept(s.ever, Apply(s, step).ever)
    ensures History(Apply(s, step))
  {
    hide Allowed, After, CancelKept, IssueKept, SilentAfter, Issues, Cancels;
    var t, e := Apply(s, step), Entry(step.p.ts, step.p.req, step.ans, s.rows);
    assert t.log == s.log + [e];
    EntriesKept(s.log, s.ever, t.ever);
    EntryAdded(s, step);
    forall id | id in t.ever ensures Sourced(t.log, id, t.ever[id]) {
      SourceAdded(s, step, id);
    }
    forall i, j | 0 <= i < j < |t.log| ensures SilentAfter(t.log[i], t.log[j]) {
      if j == |s.log| {
        assert s.log[i] in s.log;
        SilenceAdded(s, step, s.log[i]);
      }
    }
  }

  lemma {:induction false} HistoryAlways(clock: int, steps: seq<Step>)
    requires Runs(clock, steps) && FreshIds(clock, steps)
    ensures LedgerInv(Final(clock, steps)) && History(Final(clock, steps))
  {
    LedgerAlways(clock, steps);
    if steps != [] {
      var n := |steps| - 1;
      HistoryAlways(clock, steps[..n]);
      var s := Final(clock, steps[..n]);
      LedgerStep(s, steps[n]);
      if steps[n].Commit? {
        HistoryStep(s, steps[n]);
      }
    }
  }

  /** Every code that was ever in the table was issued by some transaction of the log. */
  lemma EveryCodeWasIssued(clock: int, steps: seq<Step>, id: string) returns (issue: Entry)
    requires Runs(clock, steps) && FreshIds(clock, steps) && id in Final(clock, steps).ever
    ensures issue in Final(clock, steps).log && Issues(issue, id)
  {
    HistoryAlways(clock, steps);
    var s := Final(clock, steps);
    assert Sourced(s.log, id, s.ever[id]);
    issue :| issue in s.log && Issues(issue, id);
  }

  /** The counter of a row is the number of refused validations that found it active, and stays within the
      ceiling that was asked for; at most one validation ever spent it, and one did exactly when it is
      stamped; every other column is still what the request that issued it asked for. */
  lemma AttemptAccounting(clock: int, steps: seq<Step>, issue: Entry, id: string)
    requires Runs(clock, steps) && FreshIds(clock, steps)
    requires issue in Final(clock, steps).log && Issues(issue, id)
    ensures var s := Final(clock, steps);
      && Failures(s.log, id) <= issue.req.maxAttempts
      && Successes(s.log, id) <= 1
      && (id in s.rows ==>
            && AsAsked(issue, s.rows[id])
            && s.rows[id].attempts == Failures(s.log, id)
            && (s.rows[id].consumedAt.Some? <==> Successes(s.log, id) == 1)
            && (s.rows[id].revokedAt.Some? <==> exists e | e in s.log :: Cancels(e, id)))
  {
    HistoryAlways(clock, steps);
    var s := Final(clock, steps);
    assert IssueKept(issue, s.ever) && Accounted(s, id) && Sourced(s.log, id, s.ever[id]);
    forall e | e in s.log && Cancels(e, id) ensures s.ever[id].revokedAt.Some? {
      assert CancelKept(e, s.ever);
    }
  }

  /** What the log alone says of a code at `ts`: not expired as it was issued, neither spent nor cancelled,
      and refused less often than its request allowed. */
  ghost predicate Usable(log: seq<Entry>, issue: Entry, id: string, ts: int)
    requires Issues(issue, id)
  {
    && ts < issue.req.expiresAt
    && Failures(log, id) < issue.req.maxAttempts
    && Successes(log, id) == 0
    && !exists e | e in log :: Cancels(e, id)
  }

  lemma UsableIsActive(clock: int, steps: seq<Step>, issue: Entry, id: string, ts: int)
    requires Runs(clock, steps) && FreshIds(clock, steps)
    requires issue in Final(clock, steps).log && Issues(issue, id) && id in Final(clock, steps).rows
    ensures StatusOf(Final(clock, steps).rows[id], ts) == Active <==> Usable(Final(clock, steps).log, issue, id, ts)
  {
    AttemptAccounting(clock, steps, issue, id);
  }

  /** A code works exactly as it was issued: the next validation spends it if and only if it names the key and
      the digits of the request that issued it while the code is usable, and counts against it if and only
      if it names the key while the code is usable and is refused. */
  lemma NextValidation(clock: int, steps: seq<Step>, issue: Entry, id: string, p: Pending, ans: Answer)
    requires Runs(clock, steps) && FreshIds(clock, steps)
    requires issue in Final(clock, steps).log && Issues(issue, id) && id in Final(clock, steps).rows
    requires p.req.Validate? && Allowed(Final(clock, steps).rows, p.ts, p.req, ans)
    ensures var s := Final(clock, steps); var e := Entry(p.ts, p.req, ans, s.rows);
      && (SpentBy(e, id) <==>
            p.req == Validate(issue.req.key, issue.req.code) && Usable(s.log, issue, id, p.ts))
      && (FailedOn(e, id) <==> p.req.key == issue.req.key && Usable(s.log, issue, id, p.ts) && ans == NotFound)
      && After(s.rows, p.ts, p.req, ans)[id] ==
           if SpentBy(e, id) then s.rows[id].(consumedAt := Some(p.ts))
           else if FailedOn(e, id) then s.rows[id].(attempts := s.rows[id].attempts + 1)
           else s.rows[id]
  {
    AttemptAccounting(clock, steps, issue, id);
    UsableIsActive(clock, steps, issue, id, p.ts);
    ValidateAnswers(Final(clock, steps).rows, p.ts, p.req, ans);
  }

  lemma IdWasAsked(clock: int, steps: seq<Step>, issue: Entry, id: string)
    requires Runs(clock, steps) && FreshIds(clock, steps)
    requires issue in Final(clock, steps).log && Issues(issue, id)
    ensures id == issue.req.id
  {
    HistoryAlways(clock, steps);
    assert IssueKept(issue, Final(clock, steps).ever);
  }

  lemma ActiveIsUnstamped(o: Otp, ts: int)
    requires StatusOf(o, ts) == Active
    ensures o.consumedAt.None? && o.revokedAt.None?
  {
  }

  /** Resend: as long as the code is usable, a generate for the key that is not older than the last insertion
      hands back that id with the digits, ceiling and expiry of the request that issued it, whatever it
      asked for itself, and writes nothing. */
  lemma ResendContract(clock: int, steps: seq<Step>, issue: Entry, id: string, p: Pending, ans: Answer)
    requires Runs(clock, steps) && FreshIds(clock, steps)
    requires issue in Final(clock, steps).log && Issues(issue, id) && id in Final(clock, steps).rows
    requires Usable(Final(clock, steps).log, issue, id, p.ts)
    requires p.req.Generate? && p.req.key == issue.req.key
    requires Allowed(Final(clock, steps).rows, p.ts, p.req, ans)
    requires p.ts >= Final(clock, steps).clock || InsertedBy(Final(clock, steps).log, p.req.key, p.ts)
    ensures ans.Issued? && ans.reused && ans.id == id == issue.req.id
    ensures ans.row == Otp(issue.req.key, issue.req.code, Failures(Final(clock, steps).log, id),
                           issue.req.maxAttempts, issue.req.expiresAt, None, None, issue.ts)
    ensures After(Final(clock, steps).rows, p.ts, p.req, ans) == Final(clock, steps).rows
  {
    hide Runs, Final, FreshIds, InsertedBy, LedgerInv, Hits, Usable, StatusOf, Allowed, After, Failures, Successes;
    var rows := Final(clock, steps).rows;
    AttemptAccounting(clock, steps, issue, id);
    IdWasAsked(clock, steps, issue, id);
    UsableIsActive(clock, steps, issue, id, p.ts);
    GenerateAnswers(rows, p.ts, p.req, ans);
    AtMostOneLive(clock, steps, p.req.key, p.ts);
    assert ActiveFor(rows, id, p.req.key, p.ts);
    ActiveIsUnstamped(rows[id], p.ts);
  }

  /** A cancellation the log reports named a code of the request's environment, which carries its timestamp
      from then on. */
  lemma CancellationStays(clock: int, steps: seq<Step>, e: Entry)
    requires Runs(clock, steps) && FreshIds(clock, steps)
    requires e in Final(clock, steps).log && e.ans.Cancelled?
    ensures var s := Final(clock, steps);
      && e.req.Revoke? && e.ans.id == e.req.id && e.req.id in s.ever
      && s.ever[e.req.id].key.env == e.req.env && s.ever[e.req.id].revokedAt == Some(e.ts)
      && (e.req.id in s.rows ==> s.rows[e.req.id].revokedAt == Some(e.ts))
  {
    HistoryAlways(clock, steps);
    assert CancelKept(e, Final(clock, steps).ever);
  }

  /** After it no validation spends the code or counts against it, no generate hands it out, and it is not
      cancelled again. */
  lemma CancelledIsFinal(clock: int, steps: seq<Step>, i: nat, j: nat)
    requires Runs(clock, steps) && FreshIds(clock, steps)
    requires i < j < |Final(clock, steps).log| && Final(clock, steps).log[i].ans.Cancelled?
    ensures var id, later := Final(clock, steps).log[i].ans.id, Final(clock, steps).log[j];
      && !SpentBy(later, id) && !FailedOn(later, id) && !Cancels(later, id)
      && !(later.ans.Issued? && later.ans.id == id)
  {
    HistoryAlways(clock, steps);
    assert SilentAfter(Final(clock, steps).log[i], Final(clock, steps).log[j]);
  }
}
