/** Whole runs of the one-time-code service: a wall clock, requests that sample it before they wait for
    the single write connection, and commits in whatever order the connection is handed out. */
module OtpRuns {
  import opened Common
  import opened Otps
  import opened OtpAnswers

  /** A request that has read the clock but has not committed yet. */
  datatype Pending = Pending(ts: int, req: Request)

  /** One committed transaction, with the table it found. */
  datatype Entry = Entry(ts: int, req: Request, ans: Answer, pre: Table)

  datatype Step =
    | Tick(now: int)
    | Begin(req: Request)
    | Commit(p: Pending, ans: Answer)
    | Abort(p: Pending)

  /** `ever` keeps the last value of every row that was ever in the table. */
  datatype State = State(clock: int, rows: Table, inflight: multiset<Pending>, log: seq<Entry>, ever: Table)

  function Start(clock: int): State {
    State(clock, map[], multiset{}, [], map[])
  }

  /** The ceiling a handler resolves is never below one. */
  predicate ValidInput(req: Request) {
    req.Generate? ==> req.maxAttempts >= 1
  }

  predicate Enabled(s: State, step: Step) {
    match step
    case Tick(now) => now >= s.clock
    case Begin(req) => ValidInput(req)
    case Commit(p, ans) => p in s.inflight && Allowed(s.rows, p.ts, p.req, ans)
    case Abort(p) => p in s.inflight
  }

  function Apply(s: State, step: Step): State
    requires Enabled(s, step)
  {
    match step
    case Tick(now) => s.(clock := now)
    case Begin(req) => s.(inflight := s.inflight + multiset{Pending(s.clock, req)})
    case Commit(p, ans) =>
      var rows := After(s.rows, p.ts, p.req, ans);
      s.(rows := rows, inflight := s.inflight - multiset{p},
         log := s.log + [Entry(p.ts, p.req, ans, s.rows)], ever := s.ever + rows)
    case Abort(p) => s.(inflight := s.inflight - multiset{p})
  }

  predicate Runs(clock: int, steps: seq<Step>)
    decreases |steps|, 0
  {
    steps == [] ||
    (var n := |steps| - 1;
     Runs(clock, steps[..n]) && Enabled(Final(clock, steps[..n]), steps[n]))
  }

  function Final(clock: int, steps: seq<Step>): State
    requires Runs(clock, steps)
    decreases |steps|, 1
  {
    if steps == [] then Start(clock)
    else var n := |steps| - 1; Apply(Final(clock, steps[..n]), steps[n])
  }

  /** Whoever waits can be next, however long ago it read the clock. */
  lemma AnyoneCanCommit(clock: int, steps: seq<Step>, p: Pending) returns (ans: Answer)
    requires Runs(clock, steps) && p in Final(clock, steps).inflight
    ensures Runs(clock, steps + [Commit(p, ans)])
    ensures var s := Final(clock, steps);
      Final(clock, steps + [Commit(p, ans)]).log == s.log + [Entry(p.ts, p.req, ans, s.rows)]
  {
    ans := AlwaysAnswered(Final(clock, steps).rows, p.ts, p.req);
    assert (steps + [Commit(p, ans)])[..|steps|] == steps;
  }

  // ---- At most one live code -----------------------------------------------------------------

  ghost predicate Unique(rows: Table, key: Key, t: int) {
    forall a, b | ActiveFor(rows, a, key, t) && ActiveFor(rows, b, key, t) :: a == b
  }

  /** Every row inserted for the key was inserted by a transaction that sampled at most `t`. */
  predicate InsertedBy(log: seq<Entry>, key: Key, t: int) {
    forall e | e in log && Inserts(e, key) :: e.ts <= t
  }

  predicate Inserts(e: Entry, key: Key) {
    e.req.Generate? && e.req.key == key && e.ans.Issued? && !e.ans.reused
  }

  ghost predicate UniqueInv(s: State) {
    && (forall p | p in s.inflight :: p.ts <= s.clock && ValidInput(p.req))
    && (forall e | e in s.log :: e.ts <= s.clock)
    && (forall key, t | InsertedBy(s.log, key, t) :: Unique(s.rows, key, t))
  }

  lemma UniqueCommit(rows: Table, ts: int, req: Request, ans: Answer, key: Key, t: int)
    requires Allowed(rows, ts, req, ans) && Unique(rows, key, t)
    requires req.Generate? && req.key == key && ans.Issued? && !ans.reused ==> ts <= t
    ensures Unique(After(rows, ts, req, ans), key, t)
  {
    var after := After(rows, ts, req, ans);
    forall id | ActiveFor(after, id, key, t) && id in rows ensures ActiveFor(rows, id, key, t) {
      CommitEffect(rows, ts, req, ans, id);
    }
    if req.Generate? && req.key == key && ans.Issued? && !ans.reused {
      GenerateAnswers(rows, ts, req, ans);
      assert forall id | ActiveFor(rows, id, key, t) :: ActiveFor(rows, id, key, ts);
    }
    forall a, b | ActiveFor(after, a, key, t) && ActiveFor(after, b, key, t) ensures a == b {
      CommitEffect(rows, ts, req, ans, a);
      CommitEffect(rows, ts, req, ans, b);
    }
  }

  lemma UniqueStep(s: State, step: Step)
    requires UniqueInv(s) && Enabled(s, step)
    ensures UniqueInv(Apply(s, step))
  {
    if step.Commit? {
      var p, s' := step.p, Apply(s, step);
      forall key, t | InsertedBy(s'.log, key, t) ensures Unique(s'.rows, key, t) {
        var e := Entry(p.ts, p.req, step.ans, s.rows);
        assert e in s'.log;
        assert forall x | x in s.log :: x in s'.log;
        assert InsertedBy(s.log, key, t);
        UniqueCommit(s.rows, p.ts, p.req, step.ans, key, t);
      }
    }
  }

  lemma {:induction false} UniqueAlways(clock: int, steps: seq<Step>)
    requires Runs(clock, steps)
    ensures UniqueInv(Final(clock, steps))
  {
    if steps != [] {
      var n := |steps| - 1;
      UniqueAlways(clock, steps[..n]);
      UniqueStep(Final(clock, steps[..n]), steps[n]);
    }
  }

  /** At every moment from the wall clock on, at most one code of a key is live, whatever the order of
      the commits; and already from the latest timestamp that inserted a row for the key. */
  lemma AtMostOneLive(clock: int, steps: seq<Step>, key: Key, t: int)
    requires Runs(clock, steps)
    requires t >= Final(clock, steps).clock || InsertedBy(Final(clock, steps).log, key, t)
    ensures Unique(Final(clock, steps).rows, key, t)
    ensures |Hits(Final(clock, steps).rows, key, t)| <= 1
  {
    UniqueAlways(clock, steps);
    var s := Final(clock, steps);
    var hits := Hits(s.rows, key, t);
    assert InsertedBy(s.log, key, t);
    PickedAreActive(s.rows, key, "", t);
    if hits != {} {
      var a :| a in hits;
      assert hits == {a};
    }
  }

  /** A validation that did not read the clock before the last insertion for its key spends at most
      one row; so does every one whose timestamp is the current wall clock. */
  lemma ValidationSpendsOne(clock: int, steps: seq<Step>, p: Pending)
    requires Runs(clock, steps) && p.req.Validate?
    requires p.ts >= Final(clock, steps).clock || InsertedBy(Final(clock, steps).log, p.req.key, p.ts)
    ensures |Matches(Final(clock, steps).rows, p.req.key, p.req.code, p.ts)| <= 1
  {
    var s := Final(clock, steps);
    AtMostOneLive(clock, steps, p.req.key, p.ts);
    SubsetNotLarger(Matches(s.rows, p.req.key, p.req.code, p.ts), Hits(s.rows, p.req.key, p.ts));
  }

  // ---- What the table itself says --------------------------------------------------------------

  /** A row that cannot be live at any moment. */
  predicate Finished(o: Otp) {
    o.consumedAt.Some? || o.revokedAt.Some? || o.attempts >= o.maxAttempts
  }

  predicate Disjoint(a: Otp, b: Otp) { a.expiresAt <= b.createdAt || b.expiresAt <= a.createdAt }

  /** The unfinished codes of a key have windows from creation to expiry that do not overlap. */
  predicate WindowsApart(rows: Table) {
    forall a, b | a in rows && b in rows && a != b && rows[a].key == rows[b].key ::
      Finished(rows[a]) || Finished(rows[b]) || Disjoint(rows[a], rows[b])
  }

  lemma WindowsCommit(rows: Table, ts: int, req: Request, ans: Answer)
    requires Allowed(rows, ts, req, ans) && WindowsApart(rows)
    ensures WindowsApart(After(rows, ts, req, ans))
  {
    var after := After(rows, ts, req, ans);
    forall a, b | a in after && b in after && a != b && after[a].key == after[b].key
      ensures Finished(after[a]) || Finished(after[b]) || Disjoint(after[a], after[b])
    {
      CommitEffect(rows, ts, req, ans, a);
      CommitEffect(rows, ts, req, ans, b);
      if a !in rows {
        assert b !in Hits(rows, req.key, ts);
      } else if b !in rows {
        assert a !in Hits(rows, req.key, ts);
      }
    }
  }

  lemma {:induction false} WindowsAlways(clock: int, steps: seq<Step>)
    requires Runs(clock, steps)
    ensures WindowsApart(Final(clock, steps).rows)
  {
    if steps != [] {
      var n := |steps| - 1;
      WindowsAlways(clock, steps[..n]);
      if steps[n].Commit? {
        WindowsCommit(Final(clock, steps[..n]).rows, steps[n].p.ts, steps[n].p.req, steps[n].ans);
      }
    }
  }

  function CreatedAfter(rows: Table, ids: set<string>, t: int): set<string>
    requires ids <= rows.Keys
  {
    set id | id in ids && rows[id].createdAt > t
  }

  /** Among rows of one key live at `t`, all but at most one were created after `t`. */
  lemma CountByCreation(rows: Table, key: Key, ids: set<string>, t: int)
    requires WindowsApart(rows) && ids <= Hits(rows, key, t)
    ensures |ids| == |CreatedAfter(rows, ids, t)| + if exists id | id in ids :: rows[id].createdAt <= t then 1 else 0
  {
    var later := CreatedAfter(rows, ids, t);
    if id :| id in ids && rows[id].createdAt <= t {
      forall other | other in ids && rows[other].createdAt <= t ensures other == id {
        assert other != id ==> Disjoint(rows[other], rows[id]);
      }
      assert ids == later + {id};
    } else {
      assert ids == later;
    }
  }

  /** In every run, at every instant: the live codes of a key, and the ones a validation with that
      timestamp would spend, are those created after it and at most one other. So the table alone tells
      whether a waiting validation can spend more than one. */
  lemma LiveCount(clock: int, steps: seq<Step>, key: Key, code: string, t: int)
    requires Runs(clock, steps)
    ensures var rows := Final(clock, steps).rows; var live := Hits(rows, key, t);
      |live| == |CreatedAfter(rows, live, t)| + if exists id | id in live :: rows[id].createdAt <= t then 1 else 0
    ensures var rows := Final(clock, steps).rows; var spent := Matches(rows, key, code, t);
      |spent| == |CreatedAfter(rows, spent, t)| + if exists id | id in spent :: rows[id].createdAt <= t then 1 else 0
  {
    WindowsAlways(clock, steps);
    var rows := Final(clock, steps).rows;
    CountByCreation(rows, key, Hits(rows, key, t), t);
    CountByCreation(rows, key, Matches(rows, key, code, t), t);
  }

  // ---- Accounting over whole runs ------------------------------------------------------------

  /** Freshly drawn ids never collide with an id the table has held. */
  predicate FreshIds(clock: int, steps: seq<Step>)
    requires Runs(clock, steps)
  {
    steps == [] ||
    (var n := |steps| - 1;
     && FreshIds(clock, steps[..n])
     && (steps[n].Commit? && steps[n].p.req.Generate? ==>
           steps[n].p.req.id !in Final(clock, steps[..n]).ever))
  }

  /** A validation of the row's key that was refused while the row was active at its timestamp. */
  predicate FailedOn(e: Entry, id: string) {
    e.req.Validate? && e.ans.NotFound? && ActiveFor(e.pre, id, e.req.key, e.ts)
  }

  /** A validation that spent the row: its key, its digits, active at the timestamp. */
  predicate SpentBy(e: Entry, id: string) {
    e.req.Validate? && e.ans.Spent? && ActiveFor(e.pre, id, e.req.key, e.ts) && e.pre[id].code == e.req.code
  }

  function Failures(log: seq<Entry>, id: string): nat {
    if log == [] then 0
    else Failures(log[..|log| - 1], id) + if FailedOn(log[|log| - 1], id) then 1 else 0
  }

  function Successes(log: seq<Entry>, id: string): nat {
    if log == [] then 0
    else Successes(log[..|log| - 1], id) + if SpentBy(log[|log| - 1], id) then 1 else 0
  }

  /** What the log says of one row, alive or gone. */
  predicate Accounted(s: State, id: string) {
    if id in s.ever then
      && s.ever[id].attempts == Failures(s.log, id) <= s.ever[id].maxAttempts
      && Successes(s.log, id) == if s.ever[id].consumedAt.Some? then 1 else 0
    else Failures(s.log, id) == Successes(s.log, id) == 0
  }

  ghost predicate LedgerInv(s: State) {
    && (forall p | p in s.inflight :: ValidInput(p.req))
    && (forall id | id in s.rows :: id in s.ever && s.ever[id] == s.rows[id])
    && (forall id: string :: Accounted(s, id))
  }

  lemma AppendCounts(log: seq<Entry>, e: Entry, id: string)
    ensures Failures(log + [e], id) == Failures(log, id) + if FailedOn(e, id) then 1 else 0
    ensures Successes(log + [e], id) == Successes(log, id) + if SpentBy(e, id) then 1 else 0
  {
    assert (log + [e])[..|log|] == log;
  }

  /** The last value of a row after a commit, by what the commit was to that row. */
  predicate Recorded(before: Table, after: Table, e: Entry, id: string) {
    if SpentBy(e, id) then
      && id in before && id in after && before[id].consumedAt.None?
      && after[id] == before[id].(consumedAt := Some(e.ts))
    else if FailedOn(e, id) then
      && id in before && id in after && before[id].attempts < before[id].maxAttempts
      && after[id] == before[id].(attempts := before[id].attempts + 1)
    else if e.ans.Issued? && !e.ans.reused && e.ans.id == id then
      e.req.Generate? && id !in before && id in after && after[id] == e.ans.row == FreshRow(e.req, e.ts)
    else
      && (id in before <==> id in after)
      && (id in before ==> Evolves(before[id], after[id])
                           && after[id] == before[id].(revokedAt := after[id].revokedAt))
  }

  predicate RowsRecorded(s: State) {
    forall id | id in s.rows :: id in s.ever && s.ever[id] == s.rows[id]
  }

  lemma RowEffect(s: State, step: Step, id: string)
    requires RowsRecorded(s) && Enabled(s, step) && step.Commit?
    requires step.p.req.Generate? ==> step.p.req.id !in s.ever
    ensures var t, e := Apply(s, step), Entry(step.p.ts, step.p.req, step.ans, s.rows);
      && Recorded(s.ever, t.ever, e, id)
      && (id in t.rows ==> id in t.ever && t.ever[id] == t.rows[id])
      && (id in t.rows && id in s.ever ==> id in s.rows)
  {
    var rows := After(s.rows, step.p.ts, step.p.req, step.ans);
    if id in rows {
      CommitEffect(s.rows, step.p.ts, step.p.req, step.ans, id);
    }
  }

  lemma AccountedAfter(s: State, t: State, e: Entry, id: string)
    requires Accounted(s, id) && Recorded(s.ever, t.ever, e, id) && t.log == s.log + [e]
    requires e.req.Generate? ==> e.req.maxAttempts >= 1
    ensures Accounted(t, id)
  {
    AppendCounts(s.log, e, id);
  }

  /** One step keeps the ledger; every recorded row evolves, and a row that left never returns. */
  lemma LedgerStep(s: State, step: Step)
    requires LedgerInv(s) && Enabled(s, step)
    requires step.Commit? && step.p.req.Generate? ==> step.p.req.id !in s.ever
    ensures LedgerInv(Apply(s, step))
    ensures forall id | id in s.ever :: id in Apply(s, step).ever && Evolves(s.ever[id], Apply(s, step).ever[id])
    ensures forall id | id in s.ever && id in Apply(s, step).rows :: id in s.rows
    ensures s.log <= Apply(s, step).log
  {
    var t := Apply(s, step);
    if step.Commit? {
      var e := Entry(step.p.ts, step.p.req, step.ans, s.rows);
      forall id: string
        ensures Recorded(s.ever, t.ever, e, id)
        ensures id in t.rows ==> id in t.ever && t.ever[id] == t.rows[id]
        ensures id in t.rows && id in s.ever ==> id in s.rows
      {
        RowEffect(s, step, id);
      }
      LedgerAfter(s, t, e);
    } else {
      forall id: string ensures Accounted(t, id) { assert Accounted(s, id); }
    }
  }

  lemma LedgerAfter(s: State, t: State, e: Entry)
    requires LedgerInv(s) && t.log == s.log + [e] && t.inflight <= s.inflight && RowsRecorded(t)
    requires e.req.Generate? ==> e.req.maxAttempts >= 1
    requires forall id: string :: Recorded(s.ever, t.ever, e, id)
    ensures LedgerInv(t)
    ensures forall id | id in s.ever :: id in t.ever && Evolves(s.ever[id], t.ever[id])
  {
    forall id: string
      ensures Accounted(t, id)
      ensures id in s.ever ==> id in t.ever && Evolves(s.ever[id], t.ever[id])
    {
      assert Accounted(s, id) && Recorded(s.ever, t.ever, e, id);
      AccountedAfter(s, t, e, id);
    }
  }

  lemma {:induction false} LedgerAlways(clock: int, steps: seq<Step>)
    requires Runs(clock, steps) && FreshIds(clock, steps)
    ensures LedgerInv(Final(clock, steps))
  {
    if steps == [] {
      assert forall id: string :: Accounted(Start(clock), id);
    } else {
      var n := |steps| - 1;
      LedgerAlways(clock, steps[..n]);
      LedgerStep(Final(clock, steps[..n]), steps[n]);
    }
  }

  /** Between any two moments of a run every row only evolves, deleted rows stay deleted and the log
      only grows. */
  lemma {:induction false} RowsEvolve(clock: int, steps: seq<Step>, n: nat, id: string)
    requires Runs(clock, steps) && FreshIds(clock, steps) && n <= |steps|
    ensures Runs(clock, steps[..n])
    ensures var s, t := Final(clock, steps[..n]), Final(clock, steps);
      && s.clock <= t.clock && s.log <= t.log
      && (id in s.ever ==> id in t.ever && Evolves(s.ever[id], t.ever[id]))
      && (id in s.ever && id in t.rows ==> id in s.rows)
  {
    if n == |steps| {
      assert steps[..n] == steps;
      LedgerAlways(clock, steps);
    } else {
      var m := |steps| - 1;
      RowsEvolve(clock, steps[..m], n, id);
      assert steps[..m][..n] == steps[..n];
      LedgerAlways(clock, steps[..m]);
      LedgerStep(Final(clock, steps[..m]), steps[m]);
    }
  }

  lemma FinishedStep(s: State, step: Step, id: string)
    requires LedgerInv(s) && Enabled(s, step) && id in s.ever && Finished(s.ever[id])
    requires step.Commit? && step.p.req.Generate? ==> step.p.req.id !in s.ever
    ensures id in Apply(s, step).ever && Finished(Apply(s, step).ever[id])
    ensures Successes(Apply(s, step).log, id) == Successes(s.log, id)
    ensures Failures(Apply(s, step).log, id) == Failures(s.log, id)
  {
    LedgerStep(s, step);
    if step.Commit? {
      AppendCounts(s.log, Entry(step.p.ts, step.p.req, step.ans, s.rows), id);
    }
  }

  /** Once a row is spent, cancelled or out of attempts, no later validation spends it, whichever code
      it carries and however old its timestamp is. */
  lemma {:induction false} FinishedStaysFinished(clock: int, steps: seq<Step>, n: nat, id: string)
    requires Runs(clock, steps) && FreshIds(clock, steps) && n <= |steps|
    requires Runs(clock, steps[..n]) && id in Final(clock, steps[..n]).ever
    requires Finished(Final(clock, steps[..n]).ever[id])
    ensures id in Final(clock, steps).ever && Finished(Final(clock, steps).ever[id])
    ensures Successes(Final(clock, steps).log, id) == Successes(Final(clock, steps[..n]).log, id)
    ensures Failures(Final(clock, steps).log, id) == Failures(Final(clock, steps[..n]).log, id)
  {
    if n == |steps| {
      assert steps[..n] == steps;
    } else {
      var m := |steps| - 1;
      assert steps[..m][..n] == steps[..n];
      FinishedStaysFinished(clock, steps[..m], n, id);
      LedgerAlways(clock, steps[..m]);
      FinishedStep(Final(clock, steps[..m]), steps[m], id);
    }
  }

  /** A code that is not active at some moment is not active at any later one. */
  lemma {:induction false} NeverActiveAgain(clock: int, steps: seq<Step>, n: nat, id: string, t: int, u: int)
    requires Runs(clock, steps) && FreshIds(clock, steps) && n <= |steps| && t <= u
    ensures Runs(clock, steps[..n])
    ensures var before, after := Final(clock, steps[..n]), Final(clock, steps);
      id in before.ever && StatusOf(before.ever[id], t) != Active ==>
        id in after.ever && StatusOf(after.ever[id], u) != Active
  {
    RowsEvolve(clock, steps, n, id);
  }

  // ---- What a timestamp older than the last insertion can see --------------------------------

  lemma Extend(clock: int, steps: seq<Step>, step: Step)
    requires Runs(clock, steps) && FreshIds(clock, steps) && Enabled(Final(clock, steps), step)
    requires step.Commit? && step.p.req.Generate? ==> step.p.req.id !in Final(clock, steps).ever
    ensures Runs(clock, steps + [step]) && FreshIds(clock, steps + [step])
    ensures Final(clock, steps + [step]) == Apply(Final(clock, steps), step)
  {
    assert (steps + [step])[..|steps|] == steps;
  }

  /** The latest timestamp that inserted a row for the key. */
  predicate NewestIs(log: seq<Entry>, key: Key, t: int) {
    && InsertedBy(log, key, t)
    && exists e | e in log :: Inserts(e, key) && e.ts == t
  }

  /** A code that lives from `ts` until `newest`, and the request that issued it. */
  function FirstCode(key: Key, code: string, newest: int): Request { Generate(key, "a", code, 5, newest) }

  function SecondCode(key: Key, code: string, newest: int): Request { Generate(key, "b", code, 5, newest + 1) }

  function FirstTable(key: Key, code: string, ts: int, newest: int): Table {
    map["a" := FreshRow(FirstCode(key, code, newest), ts)]
  }

  function SecondTable(key: Key, code: string, ts: int, newest: int): Table {
    FirstTable(key, code, ts, newest)["b" := FreshRow(SecondCode(key, code, newest), newest)]
  }

  /** A code is issued at `ts` to live until `newest`. */
  lemma StaleIssue(key: Key, code: string, ts: int, newest: int) returns (steps: seq<Step>)
    ensures Runs(ts, steps) && FreshIds(ts, steps)
    ensures var s := Final(ts, steps);
      && s.clock == ts && s.rows == s.ever == FirstTable(key, code, ts, newest) && InsertedBy(s.log, key, ts)
  {
    var req := FirstCode(key, code, newest);
    var issue := Commit(Pending(ts, req), Issued("a", FreshRow(req, ts), false));
    steps := [];
    Extend(ts, steps, Begin(req));
    steps := steps + [Begin(req)];
    Extend(ts, steps, issue);
    steps := steps + [issue];
    assert Final(ts, steps).rows == FirstTable(key, code, ts, newest);
  }

  /** A validation samples `ts` and waits; the clock reaches `newest`. */
  lemma StaleStart(key: Key, code: string, ts: int, newest: int) returns (steps: seq<Step>)
    requires ts < newest
    ensures Runs(ts, steps) && FreshIds(ts, steps)
    ensures var s := Final(ts, steps);
      && s.clock == newest && s.rows == s.ever == FirstTable(key, code, ts, newest)
      && Pending(ts, Validate(key, code)) in s.inflight && InsertedBy(s.log, key, ts)
  {
    hide Runs, Final, FreshIds, FirstTable, InsertedBy;
    var check := Validate(key, code);
    steps := StaleIssue(key, code, ts, newest);
    Extend(ts, steps, Begin(check));
    steps := steps + [Begin(check)];
    Extend(ts, steps, Tick(newest));
    steps := steps + [Tick(newest)];
  }

  /** The second code, with the same digits, is issued at `newest`, when the first has just expired. */
  lemma StaleSecond(key: Key, code: string, ts: int, newest: int) returns (steps: seq<Step>)
    requires ts < newest
    ensures Runs(ts, steps) && FreshIds(ts, steps)
    ensures var s := Final(ts, steps);
      && s.clock == newest && s.rows == SecondTable(key, code, ts, newest)
      && Pending(ts, Validate(key, code)) in s.inflight && NewestIs(s.log, key, newest)
  {
    steps := StaleStart(key, code, ts, newest);
    var req := SecondCode(key, code, newest);
    Extend(ts, steps, Begin(req));
    steps := steps + [Begin(req)];
    var s := Final(ts, steps);
    assert Hits(s.rows, key, newest) == {};
    var ans := Issued("b", FreshRow(req, newest), false);
    var issue := Commit(Pending(newest, req), ans);
    Extend(ts, steps, issue);
    steps := steps + [issue];
    var e := Entry(newest, req, ans, s.rows);
    assert Final(ts, steps).log == s.log + [e] && Inserts(e, key);
  }

  /** Whatever the key, the digits and the two times: a validation that sampled the clock before the
      newest insertion for its key can find both codes live when it commits, and spend both; and a
      generate that old would be handed the later code although the first is live for it too. */
  lemma StaleValidationSpendsTwo(key: Key, code: string, ts: int, newest: int)
    returns (steps: seq<Step>, p: Pending, ans: Answer)
    requires ts < newest
    ensures Runs(ts, steps) && FreshIds(ts, steps)
    ensures Final(ts, steps).clock == newest && NewestIs(Final(ts, steps).log, key, newest)
    ensures p == Pending(ts, Validate(key, code)) && Enabled(Final(ts, steps), Commit(p, ans)) && ans.Spent?
    ensures Matches(Final(ts, steps).rows, key, code, ts) == {"a", "b"}
    ensures forall id | id in {"a", "b"} ::
      id in After(Final(ts, steps).rows, ts, p.req, ans) &&
      After(Final(ts, steps).rows, ts, p.req, ans)[id].consumedAt == Some(ts)
    ensures forall other: Answer |
      Allowed(Final(ts, steps).rows, ts, Generate(key, "c", "9999", 5, newest), other) ::
      other.Issued? && other.id == "b"
  {
    steps := StaleSecond(key, code, ts, newest);
    var rows := Final(ts, steps).rows;
    p := Pending(ts, Validate(key, code));
    ans := Spent("a", rows["a"].(consumedAt := Some(ts)));
    assert Matches(rows, key, code, ts) == {"a", "b"};
    assert Hits(rows, key, ts) == {"a", "b"};
    assert Newer(rows, "b", "a") && !Newer(rows, "a", "b");
  }

  /** The bound is exact: a validation with timestamp `ts` is sure to match at most one row, in whatever
      run has `newest` as its last insertion for the key, if and only if it is not older than that. */
  lemma {:induction false} BoundIsExact(key: Key, code: string, ts: int, newest: int)
    ensures (forall clock, steps | Runs(clock, steps) && NewestIs(Final(clock, steps).log, key, newest) ::
               |Matches(Final(clock, steps).rows, key, code, ts)| <= 1)
        <==> ts >= newest
  {
    if ts >= newest {
      forall clock, steps | Runs(clock, steps) && NewestIs(Final(clock, steps).log, key, newest)
        ensures |Matches(Final(clock, steps).rows, key, code, ts)| <= 1
      {
        ValidationSpendsOne(clock, steps, Pending(ts, Validate(key, code)));
      }
    } else {
      var steps, p, ans := StaleValidationSpendsTwo(key, code, ts, newest);
      assert |{"a", "b"}| == 2;
    }
  }
}
