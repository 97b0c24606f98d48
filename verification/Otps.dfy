/** The `otps` table: each SQL transaction on it as a relation between the table before, the sampled
    timestamp, the request, the answer given to the caller and the table after. */
module Otps {
  import opened Common

  /** What a code is issued against. There is no unique index on it. */
  datatype Key = Key(env: int, typ: string, identifier: string)

  datatype Otp = Otp(key: Key, code: string, attempts: int, maxAttempts: int, expiresAt: int,
                     consumedAt: Option<int>, revokedAt: Option<int>, createdAt: int)

  /** Rows by primary key. */
  type Table = map<string, Otp>

  /** The condition all three statements repeat. */
  predicate LiveAt(o: Otp, ts: int) {
    && o.consumedAt.None?
    && o.revokedAt.None?
    && o.expiresAt > ts
    && o.attempts < o.maxAttempts
  }

  datatype Status = Active | Consumed | Expired | Locked | Revoked

  function StatusOf(o: Otp, now: int): Status {
    if o.revokedAt.Some? then Revoked
    else if o.consumedAt.Some? then Consumed
    else if o.expiresAt <= now then Expired
    else if o.attempts >= o.maxAttempts then Locked
    else Active
  }

  datatype Request =
    | Generate(key: Key, id: string, code: string, maxAttempts: int, expiresAt: int)
    | Validate(key: Key, code: string)
    | Revoke(env: int, id: string)
    | Delete(env: int, id: string)
    | Purge(before: int, limit: nat)

  datatype Answer =
    | Issued(id: string, row: Otp, reused: bool)
    | Conflict
    | Spent(id: string, row: Otp)
    | Cancelled(id: string, row: Otp)
    | Deleted
    | NotFound
    | Purged(victims: set<string>)

  /** Rows of one key that are live at `ts`. */
  function Hits(rows: Table, key: Key, ts: int): set<string> {
    set id | id in rows && rows[id].key == key && LiveAt(rows[id], ts)
  }

  /** Rows the consuming UPDATE of a validation matches. */
  function Matches(rows: Table, key: Key, code: string, ts: int): set<string> {
    set id | id in rows && rows[id].key == key && LiveAt(rows[id], ts) && rows[id].code == code
  }

  /** `created_at DESC, id DESC`. */
  predicate Newer(rows: Table, a: string, b: string)
    requires a in rows && b in rows
  {
    || rows[a].createdAt > rows[b].createdAt
    || (rows[a].createdAt == rows[b].createdAt && StrLess(b, a))
  }

  /** The one row `ORDER BY created_at DESC, id DESC LIMIT 1` keeps. */
  predicate IsNewest(rows: Table, ids: set<string>, id: string)
    requires ids <= rows.Keys
  {
    id in ids && forall other | other in ids && other != id :: Newer(rows, id, other)
  }

  lemma {:induction false} NewestExists(rows: Table, ids: set<string>) returns (id: string)
    requires ids <= rows.Keys && ids != {}
    ensures IsNewest(rows, ids, id)
  {
    id :| id in ids;
    if ids != {id} {
      var best := NewestExists(rows, ids - {id});
      StrLessIsTotal(id, best);
      if Newer(rows, id, best) {
        forall other | other in ids && other != id ensures Newer(rows, id, other) {
          if other != best {
            assert other in ids - {id} && Newer(rows, best, other);
            if rows[id].createdAt == rows[other].createdAt {
              StrLessIsTransitive(other, best, id);
            }
          }
        }
      } else {
        id := best;
      }
    }
  }

  lemma NewestIsUnique(rows: Table, ids: set<string>, a: string, b: string)
    requires ids <= rows.Keys && IsNewest(rows, ids, a) && IsNewest(rows, ids, b)
    ensures a == b
  {
    StrLessIsTotal(a, b);
  }

  /** Codes the cleanup job may remove: old enough since they expired, were used or were cancelled. */
  predicate DeadBefore(o: Otp, before: int) {
    || o.expiresAt < before
    || (o.consumedAt.Some? && o.consumedAt.value < before)
    || (o.revokedAt.Some? && o.revokedAt.value < before)
  }

  function Purgeable(rows: Table, before: int): set<string> {
    set id | id in rows && DeadBefore(rows[id], before)
  }

  function Spend(rows: Table, ids: set<string>, ts: int): Table {
    map id | id in rows :: if id in ids then rows[id].(consumedAt := Some(ts)) else rows[id]
  }

  function CountAttempt(rows: Table, ids: set<string>): Table {
    map id | id in rows :: if id in ids then rows[id].(attempts := rows[id].attempts + 1) else rows[id]
  }

  function FreshRow(req: Request, ts: int): Otp
    requires req.Generate?
  {
    Otp(req.key, req.code, 0, req.maxAttempts, req.expiresAt, None, None, ts)
  }

  /** Whether the database may answer `ans` to `req`, committed at `rows` with the sampled `ts`. */
  predicate Allowed(rows: Table, ts: int, req: Request, ans: Answer) {
    match req
    case Generate(key, id, _, _, _) =>
      var hits := Hits(rows, key, ts);
      if hits != {} then
        ans.Issued? && ans.reused && IsNewest(rows, hits, ans.id) && ans.row == rows[ans.id]
      else if id in rows then ans == Conflict
      else ans == Issued(id, FreshRow(req, ts), false)
    case Validate(key, code) =>
      var matched := Matches(rows, key, code, ts);
      if matched != {} then
        ans.Spent? && ans.id in matched && ans.row == rows[ans.id].(consumedAt := Some(ts))
      else ans == NotFound
    case Revoke(env, id) =>
      if id in rows && rows[id].key.env == env && rows[id].revokedAt.None? then
        ans == Cancelled(id, rows[id].(revokedAt := Some(ts)))
      else ans == NotFound
    case Delete(env, id) =>
      ans == if id in rows && rows[id].key.env == env then Deleted else NotFound
    case Purge(before, limit) =>
      var dead := Purgeable(rows, before);
      && ans.Purged?
      && ans.victims <= dead
      && |ans.victims| == if |dead| <= limit then |dead| else limit
  }

  /** The table the commit leaves. */
  function After(rows: Table, ts: int, req: Request, ans: Answer): Table
    requires Allowed(rows, ts, req, ans)
  {
    match req
    case Generate(_, id, _, _, _) =>
      if ans.Issued? && !ans.reused then rows[id := ans.row] else rows
    case Validate(key, code) =>
      if ans.Spent? then Spend(rows, Matches(rows, key, code, ts), ts)
      else CountAttempt(rows, Hits(rows, key, ts))
    case Revoke(_, id) => if ans.Cancelled? then rows[id := ans.row] else rows
    case Delete(_, id) => if ans.Deleted? then rows - {id} else rows
    case Purge(_, _) => rows - ans.victims
  }

  /** What may happen to a surviving row: the counter rises, the two stamps are written once, and
      key, code, ceiling, expiry and creation time never change. */
  predicate Evolves(a: Otp, b: Otp) {
    && b == a.(attempts := b.attempts, consumedAt := b.consumedAt, revokedAt := b.revokedAt)
    && a.attempts <= b.attempts
    && (a.attempts <= a.maxAttempts ==> b.attempts <= a.maxAttempts)
    && (a.consumedAt.Some? ==> b.consumedAt == a.consumedAt)
    && (a.revokedAt.Some? ==> b.revokedAt == a.revokedAt)
  }

  /** Every commit only evolves the rows it keeps, and a row appears only when a generate found
      nothing live for its key at its own timestamp. */
  lemma CommitEffect(rows: Table, ts: int, req: Request, ans: Answer, id: string)
    requires Allowed(rows, ts, req, ans) && id in After(rows, ts, req, ans)
    ensures id in rows ==> Evolves(rows[id], After(rows, ts, req, ans)[id])
    ensures id !in rows ==>
      && req.Generate? && id == req.id && ans == Issued(id, FreshRow(req, ts), false)
      && Hits(rows, req.key, ts) == {} && After(rows, ts, req, ans)[id] == FreshRow(req, ts)
  {
  }

  /** Some answer is always available, so the relation never blocks a request. */
  lemma AlwaysAnswered(rows: Table, ts: int, req: Request) returns (ans: Answer)
    ensures Allowed(rows, ts, req, ans)
  {
    match req {
      case Generate(key, id, _, _, _) =>
        var hits := Hits(rows, key, ts);
        if hits != {} {
          var best := NewestExists(rows, hits);
          ans := Issued(best, rows[best], true);
        } else {
          ans := if id in rows then Conflict else Issued(id, FreshRow(req, ts), false);
        }
      case Validate(key, code) =>
        var matched := Matches(rows, key, code, ts);
        if matched != {} {
          var id :| id in matched;
          ans := Spent(id, rows[id].(consumedAt := Some(ts)));
        } else {
          ans := NotFound;
        }
      case Revoke(env, id) =>
        ans := if id in rows && rows[id].key.env == env && rows[id].revokedAt.None?
          then Cancelled(id, rows[id].(revokedAt := Some(ts))) else NotFound;
      case Delete(env, id) =>
        ans := if id in rows && rows[id].key.env == env then Deleted else NotFound;
      case Purge(before, limit) =>
        var dead := Purgeable(rows, before);
        var victims := SubsetOfSize(dead, if |dead| <= limit then |dead| else limit);
        ans := Purged(victims);
    }
  }
}
