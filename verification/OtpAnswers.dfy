/** What every statement on the `otps` table answers and leaves, column by column, in terms of the status a
    code has: nothing here mentions the sets of rows the statements are defined with. */
module OtpAnswers {
  import opened Common
  import opened Otps

  /** The condition the statements repeat is the status an administrator sees. */
  lemma LiveIsActive(o: Otp, ts: int)
    ensures LiveAt(o, ts) <==> StatusOf(o, ts) == Active
  {
  }

  predicate ActiveFor(rows: Table, id: string, key: Key, ts: int) {
    id in rows && rows[id].key == key && StatusOf(rows[id], ts) == Active
  }

  /** The columns of a code that has just been issued. */
  predicate IssuedAs(row: Otp, key: Key, code: string, maxAttempts: int, expiresAt: int, ts: int) {
    && row.key == key && row.code == code && row.maxAttempts == maxAttempts && row.expiresAt == expiresAt
    && row.createdAt == ts && row.attempts == 0 && row.consumedAt.None? && row.revokedAt.None?
  }

  /** The two sets of rows the statements pick, read off the status. */
  lemma PickedAreActive(rows: Table, key: Key, code: string, ts: int)
    ensures forall id :: id in Hits(rows, key, ts) <==> ActiveFor(rows, id, key, ts)
    ensures forall id ::
      id in Matches(rows, key, code, ts) <==> ActiveFor(rows, id, key, ts) && rows[id].code == code
  {
    forall id
      ensures id in Hits(rows, key, ts) <==> ActiveFor(rows, id, key, ts)
      ensures id in Matches(rows, key, code, ts) <==> ActiveFor(rows, id, key, ts) && rows[id].code == code
    {
    }
  }

  /** A generate hands back the newest active code of its key if there is one, and writes nothing; it is
      refused when its id is taken; otherwise it inserts exactly what was asked for. */
  ghost predicate Generates(rows: Table, ts: int, req: Request, ans: Answer, after: Table)
    requires req.Generate?
  {
    if exists id :: ActiveFor(rows, id, req.key, ts) then
      && ans.Issued? && ans.reused && ActiveFor(rows, ans.id, req.key, ts) && ans.row == rows[ans.id] && after == rows
      && (forall id | ActiveFor(rows, id, req.key, ts) && id != ans.id ::
            || rows[id].createdAt < rows[ans.id].createdAt
            || (rows[id].createdAt == rows[ans.id].createdAt && StrLess(id, ans.id)))
    else if req.id in rows then ans == Conflict && after == rows
    else
      && ans.Issued? && !ans.reused && ans.id == req.id && after == rows[req.id := ans.row]
      && IssuedAs(ans.row, req.key, req.code, req.maxAttempts, req.expiresAt, ts)
  }

  lemma GenerateAnswers(rows: Table, ts: int, req: Request, ans: Answer)
    requires req.Generate? && Allowed(rows, ts, req, ans)
    ensures Generates(rows, ts, req, ans, After(rows, ts, req, ans))
  {
    PickedAreActive(rows, req.key, req.code, ts);
  }

  /** A validation is answered Spent if and only if an active code of its key carries the digits, and then
      stamps exactly those; a refusal raises the counter of exactly the active codes of the key. */
  ghost predicate Validates(rows: Table, ts: int, req: Request, ans: Answer, after: Table)
    requires req.Validate?
  {
    && (ans.Spent? <==> exists id :: ActiveFor(rows, id, req.key, ts) && rows[id].code == req.code)
    && (ans.Spent? ==>
          && ActiveFor(rows, ans.id, req.key, ts) && rows[ans.id].code == req.code
          && ans.row == rows[ans.id].(consumedAt := Some(ts)))
    && (!ans.Spent? ==> ans == NotFound)
    && after.Keys == rows.Keys
    && forall id | id in rows :: after[id] ==
         if !ActiveFor(rows, id, req.key, ts) then rows[id]
         else if !ans.Spent? then rows[id].(attempts := rows[id].attempts + 1)
         else if rows[id].code == req.code then rows[id].(consumedAt := Some(ts))
         else rows[id]
  }

  lemma ValidateAnswers(rows: Table, ts: int, req: Request, ans: Answer)
    requires req.Validate? && Allowed(rows, ts, req, ans)
    ensures Validates(rows, ts, req, ans, After(rows, ts, req, ans))
  {
    PickedAreActive(rows, req.key, req.code, ts);
  }

  /** A cancellation stamps one uncancelled code of the environment, which is never active again. */
  ghost predicate Revokes(rows: Table, ts: int, req: Request, ans: Answer, after: Table)
    requires req.Revoke?
  {
    && (ans.Cancelled? <==> req.id in rows && rows[req.id].key.env == req.env && rows[req.id].revokedAt.None?)
    && if ans.Cancelled? then
         && ans.id == req.id && ans.row == rows[req.id].(revokedAt := Some(ts)) && after == rows[req.id := ans.row]
         && forall u :: StatusOf(ans.row, u) == Status.Revoked
       else ans == NotFound && after == rows
  }

  lemma RevokeAnswers(rows: Table, ts: int, req: Request, ans: Answer)
    requires req.Revoke? && Allowed(rows, ts, req, ans)
    ensures Revokes(rows, ts, req, ans, After(rows, ts, req, ans))
  {
  }

  /** A deletion takes one row of the environment and touches no other. */
  ghost predicate Deletes(rows: Table, req: Request, ans: Answer, after: Table)
    requires req.Delete?
  {
    && (ans.Deleted? <==> req.id in rows && rows[req.id].key.env == req.env)
    && (!ans.Deleted? ==> ans == NotFound && after == rows)
    && (ans.Deleted? ==> after.Keys == rows.Keys - {req.id} && forall id | id in after :: after[id] == rows[id])
  }

  lemma DeleteAnswers(rows: Table, ts: int, req: Request, ans: Answer)
    requires req.Delete? && Allowed(rows, ts, req, ans)
    ensures Deletes(rows, req, ans, After(rows, ts, req, ans))
  {
  }

  /** Expired, spent or cancelled before the cutoff. */
  predicate LongDead(o: Otp, before: int) {
    || o.expiresAt < before
    || (match o.consumedAt case Some(t) => t < before case None => false)
    || (match o.revokedAt case Some(t) => t < before case None => false)
  }

  /** A purge removes only codes long dead, and leaves none when it removes fewer than it may. */
  lemma PurgeAnswers(rows: Table, before: int, limit: nat, victims: set<string>)
    requires victims <= Purgeable(rows, before)
    requires |victims| == if |Purgeable(rows, before)| <= limit then |Purgeable(rows, before)| else limit
    ensures forall id | id in victims :: id in rows && LongDead(rows[id], before)
    ensures |victims| < limit ==> forall id | id in rows && LongDead(rows[id], before) :: id in victims
  {
    if |victims| < limit {
      SubsetNotLarger(victims, Purgeable(rows, before));
    }
  }

  lemma PurgeStepAnswers(rows: Table, ts: int, req: Request, ans: Answer)
    requires req.Purge? && Allowed(rows, ts, req, ans)
    ensures ans.Purged? && |ans.victims| <= req.limit
    ensures forall id | id in ans.victims :: id in rows && LongDead(rows[id], req.before)
    ensures var after := After(rows, ts, req, ans);
      && after.Keys == rows.Keys - ans.victims && (forall id | id in after :: after[id] == rows[id])
      && (|ans.victims| < req.limit ==> forall id | id in after :: !LongDead(after[id], req.before))
  {
    PurgeAnswers(rows, req.before, req.limit, ans.victims);
  }

  lemma NonePurgeable(rows: Table, before: int)
    ensures Purgeable(rows, before) == {} <==> forall id | id in rows :: !LongDead(rows[id], before)
  {
    forall id | id in rows ensures LongDead(rows[id], before) <==> id in Purgeable(rows, before) {}
  }
}
