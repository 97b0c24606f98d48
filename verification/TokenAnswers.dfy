/** What every statement on the `tokens` table answers and leaves, column by column, in terms of the status
    a token has: nothing here mentions the sets of rows the statements are defined with. */
module TokenAnswers {
  import opened Common
  import opened Tokens

  /** The columns of a token that has just been created. */
  predicate CreatedAs(row: Token, req: Request, ts: int)
    requires req.Create?
  {
    && row.env == req.env && row.value == req.value && row.payload == req.payload
    && row.maxUses == req.maxUses && row.expiresAt == req.expiresAt
    && row.createdAt == ts && row.used == 0 && row.lastUsedAt.None? && row.revokedAt.None?
  }

  /** A creation inserts exactly what was asked for, unless its id or its plaintext is taken. */
  predicate Creates(rows: Table, ts: int, req: Request, ans: Answer, after: Table)
    requires req.Create?
  {
    && (ans.Created? <==> req.id !in rows && forall id | id in rows :: rows[id].value != req.value)
    && if ans.Created? then
         ans.id == req.id && CreatedAs(ans.row, req, ts) && after == rows[req.id := ans.row]
       else ans == Duplicate && after == rows
  }

  lemma CreateAnswers(rows: Table, ts: int, req: Request, ans: Answer)
    requires req.Create? && Allowed(rows, ts, req, ans)
    ensures Creates(rows, ts, req, ans, After(rows, ts, req, ans))
  {
  }

  predicate ActiveFor(rows: Table, id: string, env: int, value: string, ts: int) {
    id in rows && rows[id].env == env && rows[id].value == value && StatusOf(rows[id], ts) == Active
  }

  /** A redemption succeeds if and only if the environment has an active token with that plaintext; it
      takes one use of it and touches nothing else. */
  ghost predicate Consumes(rows: Table, ts: int, req: Request, ans: Answer, after: Table)
    requires req.Consume?
  {
    && (ans.Consumed? <==> exists id :: ActiveFor(rows, id, req.env, req.value, ts))
    && if ans.Consumed? then
         && ActiveFor(rows, ans.id, req.env, req.value, ts)
         && ans.row == rows[ans.id].(used := rows[ans.id].used + 1, lastUsedAt := Some(ts))
         && after == rows[ans.id := ans.row]
       else ans == NotFound && after == rows
  }

  lemma ConsumeAnswers(rows: Table, ts: int, req: Request, ans: Answer)
    requires req.Consume? && Allowed(rows, ts, req, ans) && DistinctValues(rows)
    ensures Consumes(rows, ts, req, ans, After(rows, ts, req, ans))
  {
    forall id ensures id in Targets(rows, req.env, req.value, ts) <==> ActiveFor(rows, id, req.env, req.value, ts) {}
  }

  /** A cancellation stamps one uncancelled token of the environment, which is never active again. */
  ghost predicate Revokes(rows: Table, ts: int, req: Request, ans: Answer, after: Table)
    requires req.Revoke?
  {
    && (ans.Cancelled? <==> req.id in rows && rows[req.id].env == req.env && rows[req.id].revokedAt.None?)
    && if ans.Cancelled? then
         && ans.id == req.id && ans.row == rows[req.id].(revokedAt := Some(ts)) && after == rows[req.id := ans.row]
         && forall u :: StatusOf(ans.row, u) == Status.Revoked
       else ans == NotFound && after == rows
  }

  lemma RevokeAnswers(rows: Table, ts: int, req: Request, ans: Answer)
    requires req.Revoke? && Allowed(rows, ts, req, ans)
    ensures Revokes(rows, ts, req, ans, After(rows, ts, req, ans))
  {
  }

  /** A deletion takes one row of the environment and touches no other. */
  predicate Deletes(rows: Table, req: Request, ans: Answer, after: Table)
    requires req.Delete?
  {
    && (ans.Deleted? <==> req.id in rows && rows[req.id].env == req.env)
    && (!ans.Deleted? ==> ans == NotFound && after == rows)
    && (ans.Deleted? ==> after.Keys == rows.Keys - {req.id} && forall id | id in after :: after[id] == rows[id])
  }

  lemma DeleteAnswers(rows: Table, ts: int, req: Request, ans: Answer)
    requires req.Delete? && Allowed(rows, ts, req, ans)
    ensures Deletes(rows, req, ans, After(rows, ts, req, ans))
  {
  }

  /** Cancelled before the cutoff, or used up with the last use, or failing that the creation, before it. */
  predicate LongSettled(t: Token, before: int) {
    || (match t.revokedAt case Some(at) => at < before case None => false)
    || (match t.maxUses
        case Some(limit) =>
          t.used >= limit && (match t.lastUsedAt case Some(at) => at case None => t.createdAt) < before
        case None => false)
  }

  /** A batch removes only tokens whose expiry passed before the cutoff, and leaves none when it removes
      fewer than it may. */
  lemma PurgeExpiredAnswers(rows: Table, before: int, limit: nat, victims: set<string>)
    requires IsBatch(victims, ExpiredRows(rows, before), limit)
    ensures forall id | id in victims :: id in rows && rows[id].expiresAt < before
    ensures |victims| < limit ==> forall id | id in rows && rows[id].expiresAt < before :: id in victims
  {
    if |victims| < limit {
      SubsetNotLarger(victims, ExpiredRows(rows, before));
    }
  }

  lemma PurgeSettledAnswers(rows: Table, before: int, limit: nat, victims: set<string>)
    requires IsBatch(victims, SettledRows(rows, before), limit)
    ensures forall id | id in victims :: id in rows && LongSettled(rows[id], before)
    ensures |victims| < limit ==> forall id | id in rows && LongSettled(rows[id], before) :: id in victims
  {
    if |victims| < limit {
      SubsetNotLarger(victims, SettledRows(rows, before));
    }
  }

  lemma PurgeStepAnswers(rows: Table, ts: int, req: Request, ans: Answer)
    requires (req.PurgeExpired? || req.PurgeSettled?) && Allowed(rows, ts, req, ans)
    ensures ans.Purged? && |ans.victims| <= req.limit
    ensures forall id | id in ans.victims ::
      id in rows && (if req.PurgeExpired? then rows[id].expiresAt < req.before else LongSettled(rows[id], req.before))
    ensures var after := After(rows, ts, req, ans);
      && after.Keys == rows.Keys - ans.victims && (forall id | id in after :: after[id] == rows[id])
      && (|ans.victims| < req.limit ==> forall id | id in after ::
            if req.PurgeExpired? then rows[id].expiresAt >= req.before else !LongSettled(rows[id], req.before))
  {
    if req.PurgeExpired? {
      PurgeExpiredAnswers(rows, req.before, req.limit, ans.victims);
    } else {
      PurgeSettledAnswers(rows, req.before, req.limit, ans.victims);
    }
  }

  lemma NoneExpired(rows: Table, before: int)
    ensures ExpiredRows(rows, before) == {} <==> forall id | id in rows :: rows[id].expiresAt >= before
  {
    forall id | id in rows ensures rows[id].expiresAt < before <==> id in ExpiredRows(rows, before) {}
  }

  lemma NoneSettled(rows: Table, before: int)
    ensures SettledRows(rows, before) == {} <==> forall id | id in rows :: !LongSettled(rows[id], before)
  {
    forall id | id in rows ensures LongSettled(rows[id], before) <==> id in SettledRows(rows, before) {}
  }
}
