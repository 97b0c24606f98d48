/** The `tokens` table: the derived status of a token, its SQL statements as relations, and the events
    each committed change owes. */
module Tokens {
  import opened Common

  datatype Token = Token(env: int, value: string, payload: string, maxUses: Option<int>, used: int,
                         expiresAt: int, revokedAt: Option<int>, createdAt: int, lastUsedAt: Option<int>)

  /** Rows by primary key; `value` is UNIQUE as well. */
  type Table = map<string, Token>

  datatype Status = Active | Expired | Exhausted | Revoked

  function StatusOf(t: Token, now: int): Status {
    if t.revokedAt.Some? then Revoked
    else if t.expiresAt <= now then Expired
    else if t.maxUses.Some? && t.used >= t.maxUses.value then Exhausted
    else Active
  }

  datatype Request =
    | Create(env: int, id: string, value: string, payload: string, maxUses: Option<int>, expiresAt: int)
    | Consume(env: int, value: string)
    | Revoke(env: int, id: string)
    | Delete(env: int, id: string)
    | PurgeExpired(before: int, limit: nat)
    | PurgeSettled(before: int, limit: nat)

  datatype Answer =
    | Created(id: string, row: Token)
    | Duplicate
    | Consumed(id: string, row: Token)
    | Cancelled(id: string, row: Token)
    | Deleted
    | NotFound
    | Purged(victims: set<string>)

  /** The WHERE clause of the redeeming UPDATE. */
  predicate Redeemable(t: Token, env: int, value: string, ts: int) {
    && t.value == value
    && t.env == env
    && t.revokedAt.None?
    && t.expiresAt > ts
    && (t.maxUses.None? || t.used < t.maxUses.value)
  }

  function Targets(rows: Table, env: int, value: string, ts: int): set<string> {
    set id | id in rows && Redeemable(rows[id], env, value, ts)
  }

  function Redeemed(t: Token, ts: int): Token {
    t.(used := t.used + 1, lastUsedAt := Some(ts))
  }

  function FreshRow(req: Request, ts: int): Token
    requires req.Create?
  {
    Token(req.env, req.value, req.payload, req.maxUses, 0, req.expiresAt, None, ts, None)
  }

  predicate SettledBefore(t: Token, before: int) {
    || (t.revokedAt.Some? && t.revokedAt.value < before)
    || (&& t.maxUses.Some? && t.used >= t.maxUses.value
        && (if t.lastUsedAt.Some? then t.lastUsedAt.value else t.createdAt) < before)
  }

  function ExpiredRows(rows: Table, before: int): set<string> {
    set id | id in rows && rows[id].expiresAt < before
  }

  function SettledRows(rows: Table, before: int): set<string> {
    set id | id in rows && SettledBefore(rows[id], before)
  }

  /** The batch `DELETE ... IN (SELECT id ... LIMIT ?)` removes. */
  predicate IsBatch(victims: set<string>, candidates: set<string>, limit: nat) {
    && victims <= candidates
    && |victims| == if |candidates| <= limit then |candidates| else limit
  }

  predicate Allowed(rows: Table, ts: int, req: Request, ans: Answer) {
    match req
    case Create(_, id, value, _, _, _) =>
      if id in rows || (exists other | other in rows :: rows[other].value == value) then ans == Duplicate
      else ans == Created(id, FreshRow(req, ts))
    case Consume(env, value) =>
      var targets := Targets(rows, env, value, ts);
      if targets != {} then
        ans.Consumed? && ans.id in targets && ans.row == Redeemed(rows[ans.id], ts)
      else ans == NotFound
    case Revoke(env, id) =>
      if id in rows && rows[id].env == env && rows[id].revokedAt.None? then
        ans == Cancelled(id, rows[id].(revokedAt := Some(ts)))
      else ans == NotFound
    case Delete(env, id) =>
      ans == if id in rows && rows[id].env == env then Deleted else NotFound
    case PurgeExpired(before, limit) =>
      ans.Purged? && IsBatch(ans.victims, ExpiredRows(rows, before), limit)
    case PurgeSettled(before, limit) =>
      ans.Purged? && IsBatch(ans.victims, SettledRows(rows, before), limit)
  }

  function After(rows: Table, ts: int, req: Request, ans: Answer): Table
    requires Allowed(rows, ts, req, ans)
  {
    match req
    case Create(_, id, _, _, _, _) => if ans.Created? then rows[id := ans.row] else rows
    case Consume(env, value) =>
      var targets := Targets(rows, env, value, ts);
      map id | id in rows :: if id in targets then Redeemed(rows[id], ts) else rows[id]
    case Revoke(_, id) => if ans.Cancelled? then rows[id := ans.row] else rows
    case Delete(_, id) => if ans.Deleted? then rows - {id} else rows
    case PurgeExpired(_, _) => rows - ans.victims
    case PurgeSettled(_, _) => rows - ans.victims
  }

  /** The UNIQUE constraint on the plaintext. */
  predicate DistinctValues(rows: Table) {
    forall a, b | a in rows && b in rows && rows[a].value == rows[b].value :: a == b
  }

  lemma DistinctValuesKept(rows: Table, ts: int, req: Request, ans: Answer)
    requires Allowed(rows, ts, req, ans) && DistinctValues(rows)
    ensures DistinctValues(After(rows, ts, req, ans))
  {
  }

  /** What may happen to a surviving row. */
  predicate Evolves(a: Token, b: Token) {
    && b == a.(used := b.used, lastUsedAt := b.lastUsedAt, revokedAt := b.revokedAt)
    && a.used <= b.used
    && (a.maxUses.Some? && a.used <= a.maxUses.value ==> b.used <= a.maxUses.value)
    && (a.revokedAt.Some? ==> b == a.(lastUsedAt := b.lastUsedAt))
  }

  lemma CommitEffect(rows: Table, ts: int, req: Request, ans: Answer, id: string)
    requires Allowed(rows, ts, req, ans) && DistinctValues(rows) && id in After(rows, ts, req, ans)
    ensures id !in rows ==> ans == Created(id, After(rows, ts, req, ans)[id]) && req.Create? && req.id == id
    ensures id in rows ==> Evolves(rows[id], After(rows, ts, req, ans)[id])
    ensures id in rows && !(ans.Consumed? && ans.id == id) && !(ans.Cancelled? && ans.id == id) ==>
      After(rows, ts, req, ans)[id] == rows[id]
    ensures (ans.Consumed? || ans.Cancelled?) && ans.id == id ==> id in rows && After(rows, ts, req, ans)[id] == ans.row
  {
  }

  /** Some answer is always available, so the relation never blocks a request. */
  lemma AlwaysAnswered(rows: Table, ts: int, req: Request) returns (ans: Answer)
    ensures Allowed(rows, ts, req, ans)
  {
    match req {
      case Create(_, id, value, _, _, _) =>
        ans := if id in rows || (exists other | other in rows :: rows[other].value == value) then Duplicate
          else Created(id, FreshRow(req, ts));
      case Consume(env, value) =>
        if id :| id in Targets(rows, env, value, ts) {
          ans := Consumed(id, Redeemed(rows[id], ts));
        } else {
          ans := NotFound;
        }
      case Revoke(env, id) =>
        ans := if id in rows && rows[id].env == env && rows[id].revokedAt.None?
          then Cancelled(id, rows[id].(revokedAt := Some(ts))) else NotFound;
      case Delete(env, id) =>
        ans := if id in rows && rows[id].env == env then Deleted else NotFound;
      case PurgeExpired(before, limit) =>
        ans := BatchAnswer(ExpiredRows(rows, before), limit);
      case PurgeSettled(before, limit) =>
        ans := BatchAnswer(SettledRows(rows, before), limit);
    }
  }

  lemma BatchAnswer(candidates: set<string>, limit: nat) returns (ans: Answer)
    ensures ans.Purged? && IsBatch(ans.victims, candidates, limit)
  {
    var victims := SubsetOfSize(candidates, if |candidates| <= limit then |candidates| else limit);
    ans := Purged(victims);
  }

  // ---- Events ---------------------------------------------------------------------------------

  datatype EventKind = EventCreated | EventConsumed | EventExhausted | EventRevoked

  datatype Event = Event(kind: EventKind, id: string)

  /** The events reported after a commit, in order. */
  function EventsOf(ts: int, ans: Answer): seq<Event> {
    match ans
    case Created(id, _) => [Event(EventCreated, id)]
    case Consumed(id, row) =>
      [Event(EventConsumed, id)] + if StatusOf(row, ts) == Exhausted then [Event(EventExhausted, id)] else []
    case Cancelled(id, _) => [Event(EventRevoked, id)]
    case _ => []
  }

  /** The status read after a redemption says exhausted exactly when that redemption was the last one:
      neither revocation nor expiry can mask it, since the UPDATE has just tested both. */
  lemma ExhaustionSeenAtTheLimit(rows: Table, ts: int, req: Request, ans: Answer)
    requires req.Consume? && Allowed(rows, ts, req, ans) && ans.Consumed?
    ensures Event(EventExhausted, ans.id) in EventsOf(ts, ans) <==> ans.row.maxUses == Some(ans.row.used)
  {
  }
}
