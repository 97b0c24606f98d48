/** The database handle: the tables as fields that each statement reassigns. Every method is one
    transaction on the single write connection; the timestamp it sampled is a parameter. */
module Store {
  import opened Common
  import Tokens
  import TokenAnswers
  import Otps
  import OtpAnswers
  import D = Deliveries
  import P = Paging
  import Status
  import Like

  /** A receiver. An empty list of events means every event. */
  datatype Webhook = Webhook(id: int, env: int, events: seq<string>, includePayload: bool, disabledAt: Option<int>) {
    method Subscribes(event: string) returns (r: bool)
      ensures r == Wants(event)
      ensures r <==> events == [] || event in events
    {
      if |events| == 0 {
        return true;
      }
      for i := 0 to |events|
        invariant event !in events[..i]
      {
        if events[i] == event {
          return true;
        }
      }
      return false;
    }

    predicate Wants(event: string) { events == [] || event in events }
  }

  /** Keys of the tokens a listing may show. */
  function TokenKeys(rows: Tokens.Table, env: int, status: Option<Tokens.Status>, ts: int): set<P.Key> {
    set id | id in rows && rows[id].env == env && (status.Some? ==> Tokens.StatusOf(rows[id], ts) == status.value)
      :: P.Key(rows[id].createdAt, id)
  }

  /** The rows the WHERE clause keeps: a status adds its predicate to the query text. */
  method SelectTokens(rows: Tokens.Table, env: int, status: Option<Tokens.Status>, ts: int) returns (ids: set<string>)
    ensures forall id :: id in ids <==>
      id in rows && rows[id].env == env && (status.Some? ==> Tokens.StatusOf(rows[id], ts) == status.value)
  {
    ids := set id | id in rows && rows[id].env == env;
    if status.Some? {
      var p := Status.TokenPredicate(status.value, ts);
      Status.TokensKept(rows, env, status.value, ts);
      ids := Status.Kept(Status.TokenRows(rows), env, p);
    }
  }

  datatype OtpFilter = OtpFilter(status: Option<Otps.Status>, typ: string, identifier: string)

  /** The codes a listing may show: the identifier is searched for as a substring. */
  ghost predicate Shown(o: Otps.Otp, env: int, f: OtpFilter, ts: int) {
    && o.key.env == env
    && (f.status.Some? ==> Otps.StatusOf(o, ts) == f.status.value)
    && (f.typ != "" ==> o.key.typ == f.typ)
    && (f.identifier != "" ==> FoundIn(o.key.identifier, f.identifier))
  }

  ghost predicate FoundIn(x: string, term: string) {
    exists i | 0 <= i <= |x| :: Like.OccursAt(x, term, i)
  }

  ghost function OtpKeys(rows: Otps.Table, env: int, f: OtpFilter, ts: int): set<P.Key> {
    set id | id in rows && Shown(rows[id], env, f, ts) :: P.Key(rows[id].createdAt, id)
  }

  /** The rows the WHERE clause keeps: each filter that is set adds a conjunct to the query text. */
  method SelectOtps(rows: Otps.Table, env: int, f: OtpFilter, ts: int) returns (ids: set<string>)
    ensures forall id :: id in ids <==> id in rows && Shown(rows[id], env, f, ts)
  {
    ids := set id | id in rows && rows[id].key.env == env;
    if f.status.Some? {
      var p := Status.OtpPredicate(f.status.value, ts);
      Status.OtpsKept(rows, env, f.status.value, ts);
      ids := Status.Kept(Status.OtpRows(rows), env, p);
      assert ids == Status.OtpsOf(rows, env, f.status.value, ts);
    }
    assert forall id :: id in ids <==>
      id in rows && rows[id].key.env == env && (f.status.Some? ==> Otps.StatusOf(rows[id], ts) == f.status.value);
    if f.typ != "" {
      ids := set id | id in ids && rows[id].key.typ == f.typ;
    }
    if f.identifier != "" {
      ids := set id | id in ids && Like.Matches("%" + Like.EscapeLike(f.identifier) + "%", rows[id].key.identifier);
      forall x: string
        ensures Like.Matches("%" + Like.EscapeLike(f.identifier) + "%", x) <==> FoundIn(x, f.identifier)
      {
        Like.SearchIsSubstring(f.identifier, x);
      }
    }
  }

  /** Webhooks in id order, and every delivery belonging to one of them. */
  predicate Linked(hooks: seq<Webhook>, deliveries: D.Table) {
    && (forall i, j | 0 <= i < j < |hooks| :: hooks[i].id < hooks[j].id)
    && D.Ordered(deliveries)
    && (forall d | d in deliveries :: exists h | h in hooks :: h.id == d.hook)
  }

  function NextHookId(hooks: seq<Webhook>): int {
    if hooks == [] then 1 else hooks[|hooks| - 1].id + 1
  }

  lemma RecordKeepsLinks(hooks: seq<Webhook>, rows: D.Table, id: int, o: D.Outcome)
    requires Linked(hooks, rows)
    ensures Linked(hooks, D.RecordResult(rows, id, o))
  {
    hide D.RecordResult;
    var after := D.RecordResult(rows, id, o);
    D.RecordKeepsOrder(rows, id, o);
    D.RecordAt(rows, id, o);
    forall d | d in after ensures exists h | h in hooks :: h.id == d.hook {
      var i :| 0 <= i < |after| && after[i] == d;
      assert rows[i] in rows && rows[i].hook == d.hook;
    }
  }

  lemma EnqueueKeepsLinks(hooks: seq<Webhook>, rows: D.Table, hook: int, eventId: string, eventType: string,
                          payload: string, ts: int)
    requires Linked(hooks, rows) && exists h | h in hooks :: h.id == hook
    ensures Linked(hooks, D.EnqueueDelivery(rows, hook, eventId, eventType, payload, ts))
  {
    D.EnqueueKeeps(rows, hook, eventId, eventType, payload, ts);
  }

  function Switched(h: Webhook, id: int, env: int, enabled: bool, ts: int): Webhook {
    if h.id == id && h.env == env then h.(disabledAt := if enabled then None else Some(ts)) else h
  }

  lemma LinkedKept(hooks: seq<Webhook>, updated: seq<Webhook>, deliveries: D.Table)
    requires Linked(hooks, deliveries) && |hooks| <= |updated|
    requires forall i | 0 <= i < |hooks| :: updated[i].id == hooks[i].id
    requires forall i, j | 0 <= i < j < |updated| :: updated[i].id < updated[j].id
    ensures Linked(updated, deliveries)
  {
    forall d | d in deliveries ensures exists h | h in updated :: h.id == d.hook {
      var i :| 0 <= i < |hooks| && hooks[i].id == d.hook;
      assert updated[i] in updated;
    }
  }

  function HooksWithout(hooks: seq<Webhook>, id: int): seq<Webhook> {
    if hooks == [] then []
    else if hooks[0].id == id then HooksWithout(hooks[1..], id)
    else [hooks[0]] + HooksWithout(hooks[1..], id)
  }

  lemma {:induction false} HooksWithoutIs(hooks: seq<Webhook>, id: int)
    requires forall i, j | 0 <= i < j < |hooks| :: hooks[i].id < hooks[j].id
    ensures var r := HooksWithout(hooks, id);
      && (forall i, j | 0 <= i < j < |r| :: r[i].id < r[j].id)
      && (forall h :: h in r <==> h in hooks && h.id != id)
  {
    if hooks != [] {
      assert hooks == [hooks[0]] + hooks[1..];
      HooksWithoutIs(hooks[1..], id);
      var rest := HooksWithout(hooks[1..], id);
      forall h | h in rest ensures hooks[0].id < h.id {
        var i :| 0 <= i < |hooks| - 1 && hooks[1..][i] == h;
        assert hooks[i + 1] == h;
      }
    }
  }

  function Enabled(hooks: seq<Webhook>, env: int): seq<Webhook> {
    if hooks == [] then []
    else
      Enabled(hooks[..|hooks| - 1], env)
      + if hooks[|hooks| - 1].env == env && hooks[|hooks| - 1].disabledAt.None? then [hooks[|hooks| - 1]] else []
  }

  lemma {:induction false} EnabledHold(hooks: seq<Webhook>, env: int)
    ensures forall h :: h in Enabled(hooks, env) <==> h in hooks && h.env == env && h.disabledAt.None?
  {
    if hooks != [] {
      var n := |hooks| - 1;
      assert hooks == hooks[..n] + [hooks[n]];
      EnabledHold(hooks[..n], env);
    }
  }

  /** The redeeming UPDATE: one statement tests the row and changes it, and returns a changed row. */
  method Redeem(rows: Tokens.Table, env: int, value: string, ts: int)
    returns (ans: Tokens.Answer, updated: Tokens.Table)
    ensures var req := Tokens.Consume(env, value);
      Tokens.Allowed(rows, ts, req, ans) && updated == Tokens.After(rows, ts, req, ans)
  {
    var matched := set id | id in rows && Tokens.Redeemable(rows[id], env, value, ts);
    assert matched == Tokens.Targets(rows, env, value, ts);
    updated := map id | id in rows ::
      if id in matched then rows[id].(used := rows[id].used + 1, lastUsedAt := Some(ts)) else rows[id];
    if matched == {} {
      assert updated == rows;
      ans := Tokens.NotFound;
    } else {
      var id :| id in matched;
      ans := Tokens.Consumed(id, updated[id]);
    }
  }

  class DB {
    var tokens: Tokens.Table
    var otps: Otps.Table
    var hooks: seq<Webhook>
    var deliveries: D.Table

    /** What OnTokenEvent was called with, oldest first. */
    var events: seq<Tokens.Event>

    ghost predicate Valid()
      reads this
    {
      Tokens.DistinctValues(tokens) && Linked(hooks, deliveries)
    }

    constructor ()
      ensures Valid() && tokens == map[] && otps == map[] && hooks == [] && deliveries == [] && events == []
    {
      tokens, otps, hooks, deliveries, events := map[], map[], [], [], [];
    }

    // ---- Tokens ------------------------------------------------------------------------------------

    method CreateToken(env: int, id: string, value: string, payload: string, maxUses: Option<int>, expiresAt: int,
                       ts: int)
      returns (ans: Tokens.Answer)
      requires Valid()
      modifies this`tokens, this`events
      ensures Valid()
      ensures var req := Tokens.Create(env, id, value, payload, maxUses, expiresAt);
        && Tokens.Allowed(old(tokens), ts, req, ans)
        && tokens == Tokens.After(old(tokens), ts, req, ans)
        && TokenAnswers.Creates(old(tokens), ts, req, ans, tokens)
        && events == old(events) + Tokens.EventsOf(ts, ans)
    {
      if id in tokens || exists other | other in tokens :: tokens[other].value == value {
        return Tokens.Duplicate;
      }
      var row := Tokens.Token(env, value, payload, maxUses, 0, expiresAt, None, ts, None);
      tokens := tokens[id := row];
      events := events + [Tokens.Event(Tokens.EventCreated, id)];
      return Tokens.Created(id, row);
    }

    /** Redeems in place. A second event follows when the row that comes back has reached its limit. */
    method ConsumeToken(env: int, value: string, ts: int) returns (ans: Tokens.Answer)
      requires Valid()
      modifies this`tokens, this`events
      ensures Valid()
      ensures var req := Tokens.Consume(env, value);
        && Tokens.Allowed(old(tokens), ts, req, ans)
        && tokens == Tokens.After(old(tokens), ts, req, ans)
        && TokenAnswers.Consumes(old(tokens), ts, req, ans, tokens)
        && events == old(events) + Tokens.EventsOf(ts, ans)
      ensures events == old(events)
        + (if ans.Consumed? then [Tokens.Event(Tokens.EventConsumed, ans.id)] else [])
        + (if ans.Consumed? && ans.row.maxUses == Some(ans.row.used) then [Tokens.Event(Tokens.EventExhausted, ans.id)]
           else [])
    {
      var updated;
      ans, updated := Redeem(tokens, env, value, ts);
      ghost var req := Tokens.Consume(env, value);
      TokenAnswers.ConsumeAnswers(tokens, ts, req, ans);
      if ans.Consumed? {
        Tokens.ExhaustionSeenAtTheLimit(tokens, ts, req, ans);
      }
      Tokens.DistinctValuesKept(tokens, ts, req, ans);
      tokens := updated;
      if ans.Consumed? {
        events := events + [Tokens.Event(Tokens.EventConsumed, ans.id)];
        if Tokens.StatusOf(ans.row, ts) == Tokens.Exhausted {
          events := events + [Tokens.Event(Tokens.EventExhausted, ans.id)];
        }
      }
    }

    method RevokeToken(env: int, id: string, ts: int) returns (ans: Tokens.Answer)
      requires Valid()
      modifies this`tokens, this`events
      ensures Valid()
      ensures var req := Tokens.Revoke(env, id);
        && Tokens.Allowed(old(tokens), ts, req, ans)
        && tokens == Tokens.After(old(tokens), ts, req, ans)
        && TokenAnswers.Revokes(old(tokens), ts, req, ans, tokens)
        && events == old(events) + Tokens.EventsOf(ts, ans)
    {
      if !(id in tokens && tokens[id].env == env && tokens[id].revokedAt.None?) {
        return Tokens.NotFound;
      }
      var row := tokens[id].(revokedAt := Some(ts));
      tokens := tokens[id := row];
      events := events + [Tokens.Event(Tokens.EventRevoked, id)];
      return Tokens.Cancelled(id, row);
    }

    method DeleteToken(env: int, id: string, ts: int) returns (ans: Tokens.Answer)
      requires Valid()
      modifies this`tokens
      ensures Valid()
      ensures var req := Tokens.Delete(env, id);
        && Tokens.Allowed(old(tokens), ts, req, ans) && tokens == Tokens.After(old(tokens), ts, req, ans)
        && TokenAnswers.Deletes(old(tokens), req, ans, tokens)
    {
      if !(id in tokens && tokens[id].env == env) {
        return Tokens.NotFound;
      }
      tokens := tokens - {id};
      return Tokens.Deleted;
    }

    method DeleteExpiredTokens(before: int, limit: nat) returns (n: nat, ghost victims: set<string>)
      requires Valid()
      modifies this`tokens
      ensures Valid()
      ensures Tokens.IsBatch(victims, Tokens.ExpiredRows(old(tokens), before), limit) && n == |victims|
      ensures tokens == old(tokens) - victims
      ensures forall id | id in victims :: id in old(tokens) && old(tokens)[id].expiresAt < before
      ensures n < limit ==> forall id | id in tokens :: tokens[id].expiresAt >= before
    {
      var picked := PickBatch((set id | id in tokens && tokens[id].expiresAt < before), limit);
      TokenAnswers.PurgeExpiredAnswers(tokens, before, limit, picked);
      tokens := tokens - picked;
      n, victims := |picked|, picked;
    }

    method DeleteSettledTokens(before: int, limit: nat) returns (n: nat, ghost victims: set<string>)
      requires Valid()
      modifies this`tokens
      ensures Valid()
      ensures Tokens.IsBatch(victims, Tokens.SettledRows(old(tokens), before), limit) && n == |victims|
      ensures tokens == old(tokens) - victims
      ensures forall id | id in victims :: id in old(tokens) && TokenAnswers.LongSettled(old(tokens)[id], before)
      ensures n < limit ==> forall id | id in tokens :: !TokenAnswers.LongSettled(tokens[id], before)
    {
      var picked := PickBatch((set id | id in tokens && Tokens.SettledBefore(tokens[id], before)), limit);
      TokenAnswers.PurgeSettledAnswers(tokens, before, limit, picked);
      tokens := tokens - picked;
      n, victims := |picked|, picked;
    }

    /** The keys beyond the cursor, up to the clamped limit. */
    method ListTokens(env: int, status: Option<Tokens.Status>, limit: int, cursor: P.Cursor, ts: int)
      returns (page: seq<P.Key>, next: P.Cursor)
      ensures P.Page(page, next) == P.Fetch(TokenKeys(tokens, env, status, ts), cursor, P.Clamp(limit))
      ensures forall k | k in page ::
        && k.id in tokens && k.createdAt == tokens[k.id].createdAt && tokens[k.id].env == env
        && (status.Some? ==> Tokens.StatusOf(tokens[k.id], ts) == status.value)
      ensures cursor == P.ZERO && |page| < P.Clamp(limit) ==>
        forall id | id in tokens && tokens[id].env == env
                    && (status.Some? ==> Tokens.StatusOf(tokens[id], ts) == status.value) ::
          P.Key(tokens[id].createdAt, id) in page
    {
      var max := limit;
      if max <= 0 {
        max := 50;
      }
      if max > 200 {
        max := 200;
      }
      var ids := SelectTokens(tokens, env, status, ts);
      var keys := set id | id in ids :: P.Key(tokens[id].createdAt, id);
      assert keys == TokenKeys(tokens, env, status, ts);
      P.ShortPage(keys, cursor, P.Clamp(limit));
      page, next := Scan(P.Select(keys, cursor, max + 1), max);
    }

    // ---- One-time codes ------------------------------------------------------------------------------

    /** Hands out the newest code that is live, or a new row. */
    method GenerateOTP(key: Otps.Key, id: string, code: string, maxAttempts: int, expiresAt: int, ts: int)
      returns (ans: Otps.Answer)
      modifies this`otps
      ensures var req := Otps.Generate(key, id, code, maxAttempts, expiresAt);
        && Otps.Allowed(old(otps), ts, req, ans) && otps == Otps.After(old(otps), ts, req, ans)
        && OtpAnswers.Generates(old(otps), ts, req, ans, otps)
    {
      OtpAnswers.PickedAreActive(otps, key, code, ts);
      var hits := set o | o in otps && otps[o].key == key && Otps.LiveAt(otps[o], ts);
      if hits != {} {
        assert hits == Otps.Hits(otps, key, ts);
        ghost var best := Otps.NewestExists(otps, hits);
        var existing :| existing in hits && Otps.IsNewest(otps, hits, existing);
        ans := Otps.Issued(existing, otps[existing], true);
        OtpAnswers.GenerateAnswers(otps, ts, Otps.Generate(key, id, code, maxAttempts, expiresAt), ans);
        return;
      }
      if id in otps {
        return Otps.Conflict;
      }
      var row := Otps.Otp(key, code, 0, maxAttempts, expiresAt, None, None, ts);
      otps := otps[id := row];
      return Otps.Issued(id, row, false);
    }

    /** A right code is spent by the first statement; otherwise the second counts the attempt against
        whatever is live. */
    method ValidateOTP(key: Otps.Key, code: string, ts: int) returns (ans: Otps.Answer)
      modifies this`otps
      ensures var req := Otps.Validate(key, code);
        && Otps.Allowed(old(otps), ts, req, ans) && otps == Otps.After(old(otps), ts, req, ans)
        && OtpAnswers.Validates(old(otps), ts, req, ans, otps)
    {
      OtpAnswers.PickedAreActive(otps, key, code, ts);
      var matched := set o | o in otps && otps[o].key == key && Otps.LiveAt(otps[o], ts) && otps[o].code == code;
      otps := map o | o in otps :: if o in matched then otps[o].(consumedAt := Some(ts)) else otps[o];
      if matched != {} {
        var id :| id in matched;
        return Otps.Spent(id, otps[id]);
      }
      assert otps == old(otps);
      var live := set o | o in otps && otps[o].key == key && Otps.LiveAt(otps[o], ts);
      otps := map o | o in otps :: if o in live then otps[o].(attempts := otps[o].attempts + 1) else otps[o];
      return Otps.NotFound;
    }

    method RevokeOTP(env: int, id: string, ts: int) returns (ans: Otps.Answer)
      modifies this`otps
      ensures var req := Otps.Revoke(env, id);
        && Otps.Allowed(old(otps), ts, req, ans) && otps == Otps.After(old(otps), ts, req, ans)
        && OtpAnswers.Revokes(old(otps), ts, req, ans, otps)
    {
      if !(id in otps && otps[id].key.env == env && otps[id].revokedAt.None?) {
        return Otps.NotFound;
      }
      var row := otps[id].(revokedAt := Some(ts));
      otps := otps[id := row];
      return Otps.Cancelled(id, row);
    }

    method DeleteOTP(env: int, id: string, ts: int) returns (ans: Otps.Answer)
      modifies this`otps
      ensures var req := Otps.Delete(env, id);
        && Otps.Allowed(old(otps), ts, req, ans) && otps == Otps.After(old(otps), ts, req, ans)
        && OtpAnswers.Deletes(old(otps), req, ans, otps)
    {
      if !(id in otps && otps[id].key.env == env) {
        return Otps.NotFound;
      }
      otps := otps - {id};
      return Otps.Deleted;
    }

    method DeleteDeadOTPs(before: int, limit: nat) returns (n: nat, ghost victims: set<string>)
      modifies this`otps
      ensures victims <= Otps.Purgeable(old(otps), before) && n == |victims|
      ensures n == if |Otps.Purgeable(old(otps), before)| <= limit then |Otps.Purgeable(old(otps), before)| else limit
      ensures otps == old(otps) - victims
      ensures forall id | id in victims :: id in old(otps) && OtpAnswers.LongDead(old(otps)[id], before)
      ensures n < limit ==> forall id | id in otps :: !OtpAnswers.LongDead(otps[id], before)
    {
      var picked := PickBatch((set id | id in otps && Otps.DeadBefore(otps[id], before)), limit);
      OtpAnswers.PurgeAnswers(otps, before, limit, picked);
      otps := otps - picked;
      n, victims := |picked|, picked;
    }

    /** The same for codes, with the conjuncts of whichever filters are set. */
    method ListOTPs(env: int, f: OtpFilter, limit: int, cursor: P.Cursor, ts: int)
      returns (page: seq<P.Key>, next: P.Cursor)
      ensures P.Page(page, next) == P.Fetch(OtpKeys(otps, env, f, ts), cursor, P.Clamp(limit))
      ensures forall k | k in page ::
        && k.id in otps && k.createdAt == otps[k.id].createdAt && otps[k.id].key.env == env
        && (f.status.Some? ==> Otps.StatusOf(otps[k.id], ts) == f.status.value)
        && (f.typ != "" ==> otps[k.id].key.typ == f.typ)
        && (f.identifier != "" ==> FoundIn(otps[k.id].key.identifier, f.identifier))
      ensures cursor == P.ZERO && |page| < P.Clamp(limit) ==>
        forall id | id in otps && Shown(otps[id], env, f, ts) :: P.Key(otps[id].createdAt, id) in page
    {
      var max := limit;
      if max <= 0 {
        max := 50;
      }
      if max > 200 {
        max := 200;
      }
      var ids := SelectOtps(otps, env, f, ts);
      var keys := set id | id in ids :: P.Key(otps[id].createdAt, id);
      assert keys == OtpKeys(otps, env, f, ts);
      P.ShortPage(keys, cursor, P.Clamp(limit));
      page, next := Scan(P.Select(keys, cursor, max + 1), max);
    }

    // ---- Webhooks and deliveries ---------------------------------------------------------------------

    /** A new webhook takes the id after the largest. */
    method CreateWebhook(env: int, events: seq<string>, includePayload: bool) returns (hook: Webhook)
      requires Valid()
      modifies this`hooks
      ensures Valid()
      ensures hook == Webhook(hook.id, env, events, includePayload, None)
      ensures hook.id == if old(hooks) == [] then 1 else old(hooks)[|old(hooks)| - 1].id + 1
      ensures hooks == old(hooks) + [hook]
    {
      hook := Webhook(NextHookId(hooks), env, events, includePayload, None);
      LinkedKept(hooks, hooks + [hook], deliveries);
      hooks := hooks + [hook];
    }

    /** Turns delivery on or off. Rows already queued are not touched, so they still go out. */
    method SetWebhookEnabled(id: int, env: int, enabled: bool, ts: int) returns (found: bool)
      requires Valid()
      modifies this`hooks
      ensures Valid()
      ensures found == exists h | h in old(hooks) :: h.id == id && h.env == env
      ensures |hooks| == |old(hooks)|
      ensures forall i | 0 <= i < |hooks| ::
        var h := old(hooks)[i];
        hooks[i] == if h.id != id || h.env != env then h else h.(disabledAt := if enabled then None else Some(ts))
    {
      found := exists h | h in hooks :: h.id == id && h.env == env;
      var updated := seq(|hooks|, i requires 0 <= i < |hooks| reads this =>
        Switched(hooks[i], id, env, enabled, ts));
      LinkedKept(hooks, updated, deliveries);
      hooks := updated;
    }

    method ListEnabledWebhooks(env: int) returns (found: seq<Webhook>)
      ensures found == Enabled(hooks, env)
      ensures forall h :: h in found <==> h in hooks && h.env == env && h.disabledAt.None?
    {
      found := [];
      for i := 0 to |hooks|
        invariant found == Enabled(hooks[..i], env)
      {
        assert hooks[..i + 1][..i] == hooks[..i];
        if hooks[i].env == env && hooks[i].disabledAt.None? {
          found := found + [hooks[i]];
        }
      }
      assert hooks[..|hooks|] == hooks;
      EnabledHold(hooks, env);
    }

    method GetWebhookByID(id: int) returns (found: Option<Webhook>)
      ensures found.Some? ==> found.value in hooks && found.value.id == id
      ensures found.None? ==> forall h | h in hooks :: h.id != id
    {
      for i := 0 to |hooks|
        invariant forall j | 0 <= j < i :: hooks[j].id != id
      {
        if hooks[i].id == id {
          return Some(hooks[i]);
        }
      }
      return None;
    }

    /** Refused by the foreign key when the webhook is gone. */
    method EnqueueDelivery(hook: int, eventId: string, eventType: string, payload: string, ts: int) returns (ok: bool)
      requires Valid()
      modifies this`deliveries
      ensures Valid()
      ensures ok == exists h | h in hooks :: h.id == hook
      ensures deliveries ==
        if ok then D.EnqueueDelivery(old(deliveries), hook, eventId, eventType, payload, ts) else old(deliveries)
      ensures ok ==>
        var id := if old(deliveries) == [] then 1 else old(deliveries)[|old(deliveries)| - 1].id + 1;
        deliveries == old(deliveries) + [D.Delivery(id, hook, eventId, eventType, payload, 0, Some(ts), None, ts)]
    {
      hide Linked, Tokens.DistinctValues;
      ok := exists h | h in hooks :: h.id == hook;
      if ok {
        EnqueueKeepsLinks(hooks, deliveries, hook, eventId, eventType, payload, ts);
        var row := D.Delivery(D.NextId(deliveries), hook, eventId, eventType, payload, 0, Some(ts), None, ts);
        deliveries := deliveries + [row];
      }
    }

    /** Each due row, from the last to the first, goes in front of those that are due no earlier. */
    method DueDeliveries(at: int, limit: nat) returns (out: seq<D.Delivery>)
      ensures out == D.DueDeliveries(deliveries, at, limit)
    {
      out := [];
      var i := |deliveries|;
      while i > 0
        invariant 0 <= i <= |deliveries|
        invariant out == D.ByRetry(D.DueRows(deliveries[i..], at))
      {
        i := i - 1;
        ghost var rest := D.DueRows(deliveries[i + 1..], at);
        assert deliveries[i..][1..] == deliveries[i + 1..] && ([deliveries[i]] + rest)[1..] == rest;
        if D.IsDue(deliveries[i], at) {
          out := PutInFront(deliveries[i], out);
        }
      }
      assert deliveries[0..] == deliveries;
      if |out| > limit {
        out := out[..limit];
      }
    }

    /** Overwrites whatever row has the id. */
    method RecordDeliveryResult(id: int, o: D.Outcome)
      requires Valid()
      modifies this`deliveries
      ensures Valid()
      ensures deliveries == D.RecordResult(old(deliveries), id, o)
      ensures |deliveries| == |old(deliveries)|
      ensures forall i | 0 <= i < |deliveries| :: var d := old(deliveries)[i];
        deliveries[i] == if d.id != id then d
          else d.(attempt := o.attempt, nextRetry := o.nextRetry, deliveredAt := o.deliveredAt)
    {
      hide Linked, D.RecordResult, Tokens.DistinctValues;
      RecordKeepsLinks(hooks, deliveries, id, o);
      D.RecordAt(deliveries, id, o);
      deliveries := Overwrite(deliveries, id, o);
    }

    method DeleteOldDeliveries(before: int, limit: nat) returns (n: nat, ghost victims: set<int>)
      requires Valid()
      modifies this`deliveries
      ensures Valid()
      ensures victims <= D.SettledIds(old(deliveries), before)
      ensures var all := D.SettledIds(old(deliveries), before);
        n == |victims| == if |all| <= limit then |all| else limit
      ensures deliveries == D.Without(old(deliveries), victims)
      ensures forall d :: d in deliveries <==> d in old(deliveries) && d.id !in victims
      ensures forall d | d in old(deliveries) && d.id in victims ::
        d.createdAt < before && (D.Delivered(d) || D.GaveUp(d))
      ensures n < limit ==> forall d | d in deliveries :: !(d.createdAt < before && (D.Delivered(d) || D.GaveUp(d)))
    {
      var picked := PickBatch((set d | d in deliveries && D.Settled(d, before) :: d.id), limit);
      D.WithoutKeeps(deliveries, picked);
      D.BatchIsOver(deliveries, before, limit, picked);
      deliveries := Remove(deliveries, picked);
      n, victims := |picked|, picked;
    }

    /** Deleting a webhook takes its delivery history with it. */
    method DeleteWebhook(id: int, env: int) returns (found: bool)
      requires Valid()
      modifies this`hooks, this`deliveries
      ensures Valid()
      ensures found == exists h | h in old(hooks) :: h.id == id && h.env == env
      ensures found ==> hooks == HooksWithout(old(hooks), id) && deliveries == D.WithoutHook(old(deliveries), id)
      ensures found ==>
        && (forall h :: h in hooks <==> h in old(hooks) && h.id != id)
        && (forall d :: d in deliveries <==> d in old(deliveries) && d.hook != id)
      ensures !found ==> hooks == old(hooks) && deliveries == old(deliveries)
    {
      found := exists h | h in hooks :: h.id == id && h.env == env;
      if found {
        HooksWithoutIs(hooks, id);
        D.WithoutHookKeeps(deliveries, id);
        hooks := RemoveHook(hooks, id);
        deliveries := Cascade(deliveries, id);
      }
    }
  }

  /** `SELECT id ... LIMIT ?` without an order: any rows, as many as there are up to the limit. */
  method PickBatch<T(==)>(candidates: set<T>, limit: nat) returns (picked: set<T>)
    ensures picked <= candidates
    ensures |picked| == if |candidates| <= limit then |candidates| else limit
  {
    ghost var some := SubsetOfSize(candidates, if |candidates| <= limit then |candidates| else limit);
    picked :| picked <= candidates && |picked| == if |candidates| <= limit then |candidates| else limit;
  }

  /** Reads the result set and drops the extra row, keeping its presence as the next cursor. */
  method Scan(result: seq<P.Key>, limit: nat) returns (page: seq<P.Key>, next: P.Cursor)
    requires limit >= 1
    ensures |result| <= limit ==> page == result && next == P.ZERO
    ensures |result| > limit ==> page == result[..limit] && next == P.At(result[limit - 1])
  {
    page := [];
    for i := 0 to |result|
      invariant page == result[..i]
    {
      page := page + [result[i]];
    }
    next := P.ZERO;
    if |page| > limit {
      page := page[..limit];
      var last := page[|page| - 1];
      next := P.Cursor(last.createdAt, last.id);
    }
  }

  /** Every row with the id gets the outcome. */
  method Overwrite(rows: D.Table, id: int, o: D.Outcome) returns (out: D.Table)
    ensures out == D.RecordResult(rows, id, o)
  {
    out := [];
    for i := |rows| downto 0
      invariant out == D.RecordResult(rows[i..], id, o)
    {
      assert rows[i..][1..] == rows[i + 1..];
      var row := rows[i];
      if row.id == id {
        row := row.(attempt := o.attempt, nextRetry := o.nextRetry, deliveredAt := o.deliveredAt);
      }
      out := [row] + out;
    }
    assert rows[0..] == rows;
  }

  method Remove(rows: D.Table, ids: set<int>) returns (out: D.Table)
    ensures out == D.Without(rows, ids)
  {
    out := [];
    for i := |rows| downto 0
      invariant out == D.Without(rows[i..], ids)
    {
      assert rows[i..][1..] == rows[i + 1..];
      if rows[i].id !in ids {
        out := [rows[i]] + out;
      }
    }
    assert rows[0..] == rows;
  }

  /** ON DELETE CASCADE. */
  method Cascade(rows: D.Table, hook: int) returns (out: D.Table)
    ensures out == D.WithoutHook(rows, hook)
  {
    out := [];
    for i := |rows| downto 0
      invariant out == D.WithoutHook(rows[i..], hook)
    {
      assert rows[i..][1..] == rows[i + 1..];
      if rows[i].hook != hook {
        out := [rows[i]] + out;
      }
    }
    assert rows[0..] == rows;
  }

  method RemoveHook(hooks: seq<Webhook>, id: int) returns (out: seq<Webhook>)
    ensures out == HooksWithout(hooks, id)
  {
    out := [];
    for i := |hooks| downto 0
      invariant out == HooksWithout(hooks[i..], id)
    {
      assert hooks[i..][1..] == hooks[i + 1..];
      if hooks[i].id != id {
        out := [hooks[i]] + out;
      }
    }
    assert hooks[0..] == hooks;
  }

  /** Places a row before the first one that is due no earlier. */
  method PutInFront(d: D.Delivery, queue: D.Table) returns (out: D.Table)
    ensures out == D.Insert(d, queue)
  {
    hide D.Insert;
    var k := 0;
    assert queue[0..] == queue;
    while k < |queue| && D.RetryAt(queue[k]) < D.RetryAt(d)
      invariant 0 <= k <= |queue|
      invariant D.Insert(d, queue) == queue[..k] + D.Insert(d, queue[k..])
    {
      InsertLater(d, queue, k);
      k := k + 1;
    }
    InsertHere(d, queue[k..]);
    return queue[..k] + [d] + queue[k..];
  }

  lemma InsertLater(d: D.Delivery, queue: D.Table, k: nat)
    requires k < |queue| && D.RetryAt(queue[k]) < D.RetryAt(d)
    ensures queue[..k] + D.Insert(d, queue[k..]) == queue[..k + 1] + D.Insert(d, queue[k + 1..])
  {
    var rest := queue[k..];
    assert rest[1..] == queue[k + 1..] && rest[0] == queue[k];
    assert queue[..k] + ([queue[k]] + D.Insert(d, rest[1..])) == queue[..k] + [queue[k]] + D.Insert(d, rest[1..]);
    assert queue[..k + 1] == queue[..k] + [queue[k]];
  }

  lemma InsertHere(d: D.Delivery, queue: D.Table)
    requires queue != [] ==> D.RetryAt(d) <= D.RetryAt(queue[0])
    ensures D.Insert(d, queue) == [d] + queue
  {
  }
}
