/** The cleanup job: what one sweep removes, batch by batch, and what it can never remove. */
module Cleanup {
  import opened Common
  import Tokens
  import TokenAnswers
  import Otps
  import OtpAnswers
  import D = Deliveries
  import DeliverySweep
  import OtpSweep
  import Store
  import TokenSweep

  const BATCH_SIZE := 1000
  const MAX_BATCHES := 20

  // ---- Configuration, in nanoseconds -----------------------------------------------------------

  const SECOND := 1_000_000_000
  const MINUTE := 60 * SECOND
  const HOUR := 60 * MINUTE

  datatype Config = Config(interval: int, expired: int, consumed: int, otp: int, delivery: int)

  const DEFAULTS := Config(10 * MINUTE, 24 * HOUR, 72 * HOUR, 24 * HOUR, 24 * HOUR)

  predicate Positive(c: Config) {
    c.interval > 0 && c.expired > 0 && c.consumed > 0 && c.otp > 0 && c.delivery > 0
  }

  /** Ten minutes between rounds, a day, three days, a day and a day, wherever nothing positive is given. */
  predicate Filled(given: Config, c: Config) {
    && c.interval == (if given.interval > 0 then given.interval else 600_000_000_000)
    && c.expired == (if given.expired > 0 then given.expired else 86_400_000_000_000)
    && c.consumed == (if given.consumed > 0 then given.consumed else 259_200_000_000_000)
    && c.otp == (if given.otp > 0 then given.otp else 86_400_000_000_000)
    && c.delivery == (if given.delivery > 0 then given.delivery else 86_400_000_000_000)
  }

  /** Every window that is set survives, and none is left at zero or below. */
  method WithDefaults(given: Config) returns (c: Config)
    ensures Positive(c)
    ensures Filled(given, c)
    ensures Positive(given) ==> c == given
  {
    c := given;
    if c.interval <= 0 {
      c := c.(interval := DEFAULTS.interval);
    }
    if c.expired <= 0 {
      c := c.(expired := DEFAULTS.expired);
    }
    if c.consumed <= 0 {
      c := c.(consumed := DEFAULTS.consumed);
    }
    if c.otp <= 0 {
      c := c.(otp := DEFAULTS.otp);
    }
    if c.delivery <= 0 {
      c := c.(delivery := DEFAULTS.delivery);
    }
  }

  /** Whole seconds since the epoch, rounding down. */
  function Unix(ns: int): (s: int)
    ensures s * 1_000_000_000 <= ns < (s + 1) * 1_000_000_000
  {
    ns / SECOND
  }

  // ---- What a series of batches removes --------------------------------------------------------

  datatype Work = ExpiredTokens | SettledTokens | DeadCodes | OldDeliveries

  /** The three tables the job deletes from. */
  datatype Tables = Tables(tokens: Tokens.Table, otps: Otps.Table, deliveries: D.Table)

  /** How many rows the next delete could still find. */
  function Backlog(w: Work, before: int, t: Tables): nat {
    match w
    case ExpiredTokens => |Tokens.ExpiredRows(t.tokens, before)|
    case SettledTokens => |Tokens.SettledRows(t.tokens, before)|
    case DeadCodes => |Otps.Purgeable(t.otps, before)|
    case OldDeliveries => |D.SettledIds(t.deliveries, before)|
  }

  /** `n` rows are gone, all of them candidates, and the others are untouched. */
  predicate Dropped<R(==)>(rows: map<string, R>, left: map<string, R>, candidates: set<string>, n: nat) {
    && left.Keys <= rows.Keys
    && (forall id | id in left :: left[id] == rows[id])
    && (forall id | id in rows && id !in left :: id in candidates)
    && |left.Keys| + n == |rows.Keys|
  }

  predicate DroppedRows(rows: D.Table, left: D.Table, candidates: set<int>, n: nat) {
    var gone := D.Ids(rows) - D.Ids(left);
    left == D.Without(rows, gone) && gone <= candidates && |D.Ids(left)| + n == |D.Ids(rows)|
  }

  /** From `a` to `b` this work removed `n` rows it may remove, and nothing else changed. */
  predicate Removed(w: Work, before: int, a: Tables, b: Tables, n: nat) {
    match w
    case ExpiredTokens =>
      b == a.(tokens := b.tokens) && Dropped(a.tokens, b.tokens, Tokens.ExpiredRows(a.tokens, before), n)
    case SettledTokens =>
      b == a.(tokens := b.tokens) && Dropped(a.tokens, b.tokens, Tokens.SettledRows(a.tokens, before), n)
    case DeadCodes =>
      b == a.(otps := b.otps) && Dropped(a.otps, b.otps, Otps.Purgeable(a.otps, before), n)
    case OldDeliveries =>
      && b == a.(deliveries := b.deliveries)
      && DroppedRows(a.deliveries, b.deliveries, D.SettledIds(a.deliveries, before), n)
  }

  lemma Together<T>(all: set<T>, x: set<T>, y: set<T>)
    requires all == x + y && x !! y
    ensures |all| == |x| + |y|
  {
  }

  lemma DroppedBatch<R>(rows: map<string, R>, victims: set<string>, c: set<string>)
    requires victims <= c <= rows.Keys
    ensures Dropped(rows, rows - victims, c, |victims|)
  {
    Together(rows.Keys, (rows - victims).Keys, victims);
  }

  lemma DroppedTwice<R>(rows: map<string, R>, next: map<string, R>, last: map<string, R>,
                        c: set<string>, later: set<string>, n: nat, m: nat)
    requires Dropped(rows, next, c, n) && Dropped(next, last, later, m) && later <= c
    ensures Dropped(rows, last, c, n + m)
  {
  }

  lemma {:induction false} WithoutNone(rows: D.Table)
    ensures D.Without(rows, {}) == rows
  {
    if rows != [] {
      WithoutNone(rows[1..]);
    }
  }

  lemma {:induction false} WithoutTwice(rows: D.Table, x: set<int>, y: set<int>)
    ensures D.Without(D.Without(rows, x), y) == D.Without(rows, x + y)
  {
    if rows != [] {
      WithoutTwice(rows[1..], x, y);
    }
  }

  lemma WithoutIds(rows: D.Table, x: set<int>, before: int)
    requires D.Ordered(rows)
    ensures D.Ordered(D.Without(rows, x))
    ensures D.Ids(D.Without(rows, x)) == D.Ids(rows) - x
    ensures D.SettledIds(D.Without(rows, x), before) == D.SettledIds(rows, before) - x
  {
    D.WithoutKeeps(rows, x);
    assert forall d | d in rows && d.id !in x :: d in D.Without(rows, x);
  }

  lemma SettledAreRows(rows: D.Table, before: int)
    ensures D.SettledIds(rows, before) <= D.Ids(rows)
  {
  }

  lemma GoneFrom<T>(all: set<T>, x: set<T>, y: set<T>)
    requires x <= all && y <= all - x
    ensures all - (all - x - y) == x + y && all - (all - x) == x
  {
  }

  lemma DroppedRowsBatch(rows: D.Table, victims: set<int>, before: int)
    requires D.Ordered(rows) && victims <= D.SettledIds(rows, before)
    ensures DroppedRows(rows, D.Without(rows, victims), D.SettledIds(rows, before), |victims|)
  {
    hide D.Without, D.SettledIds, D.Ordered, D.Ids;
    var all := D.Ids(rows);
    SettledAreRows(rows, before);
    WithoutIds(rows, victims, before);
    GoneFrom(all, victims, {});
    Together(all, all - victims, victims);
  }

  lemma DroppedRowsTwice(rows: D.Table, next: D.Table, last: D.Table, before: int, n: nat, m: nat)
    requires D.Ordered(rows)
    requires DroppedRows(rows, next, D.SettledIds(rows, before), n)
    requires DroppedRows(next, last, D.SettledIds(next, before), m)
    ensures DroppedRows(rows, last, D.SettledIds(rows, before), n + m)
  {
    hide D.Without, D.SettledIds, D.Ordered, D.Ids;
    var x, y := D.Ids(rows) - D.Ids(next), D.Ids(next) - D.Ids(last);
    WithoutIds(rows, x, before);
    WithoutIds(next, y, before);
    WithoutTwice(rows, x, y);
    GoneFrom(D.Ids(rows), x, y);
  }

  predicate Within<R(==)>(rows: map<string, R>, left: map<string, R>) {
    left.Keys <= rows.Keys && forall id | id in left :: left[id] == rows[id]
  }

  /** What can be found later could be found before. */
  lemma FewerTokens(a: Tokens.Table, b: Tokens.Table, before: int)
    requires Within(a, b)
    ensures Tokens.ExpiredRows(b, before) <= Tokens.ExpiredRows(a, before)
    ensures Tokens.SettledRows(b, before) <= Tokens.SettledRows(a, before)
  {
  }

  lemma FewerCodes(a: Otps.Table, b: Otps.Table, before: int)
    requires Within(a, b)
    ensures Otps.Purgeable(b, before) <= Otps.Purgeable(a, before)
  {
  }

  lemma RemovedAgain(w: Work, before: int, a: Tables, b: Tables, c: Tables, n: nat, m: nat)
    requires D.Ordered(a.deliveries) && Removed(w, before, a, b, n) && Removed(w, before, b, c, m)
    ensures Removed(w, before, a, c, n + m)
  {
    match w
    case ExpiredTokens =>
      FewerTokens(a.tokens, b.tokens, before);
      DroppedTwice(a.tokens, b.tokens, c.tokens,
                   Tokens.ExpiredRows(a.tokens, before), Tokens.ExpiredRows(b.tokens, before), n, m);
    case SettledTokens =>
      FewerTokens(a.tokens, b.tokens, before);
      DroppedTwice(a.tokens, b.tokens, c.tokens,
                   Tokens.SettledRows(a.tokens, before), Tokens.SettledRows(b.tokens, before), n, m);
    case DeadCodes =>
      FewerCodes(a.otps, b.otps, before);
      DroppedTwice(a.otps, b.otps, c.otps, Otps.Purgeable(a.otps, before), Otps.Purgeable(b.otps, before), n, m);
    case OldDeliveries =>
      DroppedRowsTwice(a.deliveries, b.deliveries, c.deliveries, before, n, m);
  }

  lemma ExpiredLeft(a: Tokens.Table, b: Tokens.Table, before: int, n: nat)
    requires Dropped(a, b, Tokens.ExpiredRows(a, before), n)
    ensures |Tokens.ExpiredRows(b, before)| == |Tokens.ExpiredRows(a, before)| - n
  {
    Together(a.Keys, b.Keys, a.Keys - b.Keys);
    Together(Tokens.ExpiredRows(a, before), Tokens.ExpiredRows(b, before), a.Keys - b.Keys);
  }

  lemma SettledLeft(a: Tokens.Table, b: Tokens.Table, before: int, n: nat)
    requires Dropped(a, b, Tokens.SettledRows(a, before), n)
    ensures |Tokens.SettledRows(b, before)| == |Tokens.SettledRows(a, before)| - n
  {
    Together(a.Keys, b.Keys, a.Keys - b.Keys);
    Together(Tokens.SettledRows(a, before), Tokens.SettledRows(b, before), a.Keys - b.Keys);
  }

  lemma DeadLeft(a: Otps.Table, b: Otps.Table, before: int, n: nat)
    requires Dropped(a, b, Otps.Purgeable(a, before), n)
    ensures |Otps.Purgeable(b, before)| == |Otps.Purgeable(a, before)| - n
  {
    Together(a.Keys, b.Keys, a.Keys - b.Keys);
    Together(Otps.Purgeable(a, before), Otps.Purgeable(b, before), a.Keys - b.Keys);
  }

  lemma RecordsLeft(a: D.Table, b: D.Table, before: int, n: nat)
    requires D.Ordered(a) && DroppedRows(a, b, D.SettledIds(a, before), n)
    ensures |D.SettledIds(b, before)| == |D.SettledIds(a, before)| - n
  {
    hide D.Without, D.SettledIds, D.Ordered, D.Ids;
    var gone := D.Ids(a) - D.Ids(b);
    WithoutIds(a, gone, before);
    Together(D.Ids(a), D.Ids(b), gone);
    Together(D.SettledIds(a, before), D.SettledIds(b, before), gone);
  }

  lemma BacklogFalls(w: Work, before: int, a: Tables, b: Tables, n: nat)
    requires D.Ordered(a.deliveries) && Removed(w, before, a, b, n)
    ensures Backlog(w, before, b) == Backlog(w, before, a) - n
  {
    match w
    case ExpiredTokens => ExpiredLeft(a.tokens, b.tokens, before, n);
    case SettledTokens => SettledLeft(a.tokens, b.tokens, before, n);
    case DeadCodes => DeadLeft(a.otps, b.otps, before, n);
    case OldDeliveries => RecordsLeft(a.deliveries, b.deliveries, before, n);
  }

  function Least(a: nat, b: nat): nat { if a <= b then a else b }

  /** The most one series can remove when it is interrupted in the given round. */
  function Quota(stopAt: nat): nat { BATCH_SIZE * Least(stopAt, MAX_BATCHES) }

  lemma ExpiredBatch(a: Tables, b: Tables, before: int, victims: set<string>)
    requires Tokens.IsBatch(victims, Tokens.ExpiredRows(a.tokens, before), BATCH_SIZE)
    requires b == a.(tokens := a.tokens - victims)
    ensures Removed(ExpiredTokens, before, a, b, |victims|)
    ensures |victims| == Least(Backlog(ExpiredTokens, before, a), BATCH_SIZE)
  {
    DroppedBatch(a.tokens, victims, Tokens.ExpiredRows(a.tokens, before));
  }

  lemma SettledBatch(a: Tables, b: Tables, before: int, victims: set<string>)
    requires Tokens.IsBatch(victims, Tokens.SettledRows(a.tokens, before), BATCH_SIZE)
    requires b == a.(tokens := a.tokens - victims)
    ensures Removed(SettledTokens, before, a, b, |victims|)
    ensures |victims| == Least(Backlog(SettledTokens, before, a), BATCH_SIZE)
  {
    DroppedBatch(a.tokens, victims, Tokens.SettledRows(a.tokens, before));
  }

  lemma DeadBatch(a: Tables, b: Tables, before: int, victims: set<string>)
    requires victims <= Otps.Purgeable(a.otps, before)
    requires |victims| == Least(|Otps.Purgeable(a.otps, before)|, BATCH_SIZE)
    requires b == a.(otps := a.otps - victims)
    ensures Removed(DeadCodes, before, a, b, |victims|)
    ensures |victims| == Least(Backlog(DeadCodes, before, a), BATCH_SIZE)
  {
    DroppedBatch(a.otps, victims, Otps.Purgeable(a.otps, before));
  }

  lemma RecordsBatch(a: Tables, b: Tables, before: int, victims: set<int>)
    requires D.Ordered(a.deliveries) && victims <= D.SettledIds(a.deliveries, before)
    requires |victims| == Least(|D.SettledIds(a.deliveries, before)|, BATCH_SIZE)
    requires b == a.(deliveries := D.Without(a.deliveries, victims))
    ensures Removed(OldDeliveries, before, a, b, |victims|)
    ensures |victims| == Least(Backlog(OldDeliveries, before, a), BATCH_SIZE)
  {
    DroppedRowsBatch(a.deliveries, victims, before);
  }

  /** The job, over the database it was built with. */
  class Job {
    const db: Store.DB
    const cfg: Config

    constructor (database: Store.DB, given: Config)
      ensures db == database && Positive(cfg) && Filled(given, cfg)
    {
      db := database;
      var filled := WithDefaults(given);
      cfg := filled;
    }

    function Snapshot(): Tables
      reads db
    {
      Tables(db.tokens, db.otps, db.deliveries)
    }

    /** The delete a series repeats. */
    method DeleteBatch(w: Work, before: int) returns (n: nat)
      requires db.Valid()
      modifies db`tokens, db`otps, db`deliveries
      ensures db.Valid()
      ensures n == Least(Backlog(w, before, old(Snapshot())), BATCH_SIZE)
      ensures Removed(w, before, old(Snapshot()), Snapshot(), n)
    {
      hide Removed, Backlog;
      ghost var was := Snapshot();
      match w {
        case ExpiredTokens =>
          ghost var victims;
          n, victims := db.DeleteExpiredTokens(before, BATCH_SIZE);
          ExpiredBatch(was, Snapshot(), before, victims);
        case SettledTokens =>
          ghost var victims;
          n, victims := db.DeleteSettledTokens(before, BATCH_SIZE);
          SettledBatch(was, Snapshot(), before, victims);
        case DeadCodes =>
          ghost var victims;
          n, victims := db.DeleteDeadOTPs(before, BATCH_SIZE);
          DeadBatch(was, Snapshot(), before, victims);
        case OldDeliveries =>
          ghost var victims;
          n, victims := db.DeleteOldDeliveries(before, BATCH_SIZE);
          RecordsBatch(was, Snapshot(), before, victims);
      }
    }

    /** Repeats one delete until a batch comes back short or the cap is reached; `stopAt` is the round
        in which the context is cancelled or the delete fails, if that comes first. The message about
        the cap is right unless the backlog was an exact multiple of it. */
    method Drain(w: Work, before: int, stopAt: nat) returns (total: nat, capped: bool)
      requires db.Valid()
      modifies db`tokens, db`otps, db`deliveries
      ensures db.Valid()
      ensures total == Least(Backlog(w, before, old(Snapshot())), Quota(stopAt))
      ensures Removed(w, before, old(Snapshot()), Snapshot(), total)
      ensures Backlog(w, before, Snapshot()) == Backlog(w, before, old(Snapshot())) - total
      ensures total <= 1000 * stopAt && total <= 20_000
      ensures capped <==> stopAt >= 20 && Backlog(w, before, old(Snapshot())) >= 20_000
      ensures capped ==> (Backlog(w, before, Snapshot()) > 0 <==> Backlog(w, before, old(Snapshot())) != 20_000)
    {
      hide Removed, Backlog;
      total := 0;
      ghost var start := Snapshot();
      ghost var backlog := Backlog(w, before, start);
      NothingRemoved(w, before, start);
      for i := 0 to MAX_BATCHES
        invariant db.Valid()
        invariant i <= stopAt && total == BATCH_SIZE * i
        invariant Removed(w, before, start, Snapshot(), total)
        invariant total <= backlog && Backlog(w, before, Snapshot()) == backlog - total
      {
        if i == stopAt {
          return total, false;
        }
        ghost var now := Snapshot();
        var n := DeleteBatch(w, before);
        RemovedAgain(w, before, start, now, Snapshot(), total, n);
        BacklogFalls(w, before, now, Snapshot(), n);
        total := total + n;
        if n < BATCH_SIZE {
          return total, false;
        }
      }
      return total, true;
    }

    /** One round. Nothing that can still be redeemed, validated or delivered goes, whatever the
        interruptions; and a series that is not interrupted clears any backlog up to the cap. */
    method Sweep(now: int, stops: (nat, nat, nat, nat)) returns (expired: nat, settled: nat, codes: nat, records: nat)
      requires db.Valid() && Positive(cfg)
      modifies db`tokens, db`otps, db`deliveries
      ensures db.Valid()
      ensures Within(old(db.tokens), db.tokens) && Within(old(db.otps), db.otps)
      ensures |db.tokens.Keys| + expired + settled == |old(db.tokens).Keys|
      ensures |db.otps.Keys| + codes == |old(db.otps).Keys|
      ensures |D.Ids(db.deliveries)| + records == |D.Ids(old(db.deliveries))|
      ensures expired == Least(|Tokens.ExpiredRows(old(db.tokens), Unix(now - cfg.expired))|, Quota(stops.0))
      ensures settled <= Least(|Tokens.SettledRows(old(db.tokens), Unix(now - cfg.consumed))|, Quota(stops.1))
      ensures codes == Least(|Otps.Purgeable(old(db.otps), Unix(now - cfg.otp))|, Quota(stops.2))
      ensures records == Least(|D.SettledIds(old(db.deliveries), Unix(now - cfg.delivery))|, Quota(stops.3))
      ensures forall id | id in old(db.tokens) && id !in db.tokens ::
        && FinishedToken(old(db.tokens)[id], Unix(now))
        && OldToken(old(db.tokens)[id], Unix(now - cfg.expired), Unix(now - cfg.consumed))
      ensures forall id | id in old(db.otps) && id !in db.otps ::
        && FinishedCode(old(db.otps)[id], Unix(now))
        && OtpAnswers.LongDead(old(db.otps)[id], Unix(now - cfg.otp))
      ensures forall d :: d in db.deliveries ==> d in old(db.deliveries)
      ensures forall d | d in old(db.deliveries) && d !in db.deliveries :: OldDelivery(d, Unix(now - cfg.delivery))
      ensures stops.0 >= 20 && |Tokens.ExpiredRows(old(db.tokens), Unix(now - cfg.expired))| <= 20_000 ==>
        forall id | id in db.tokens :: db.tokens[id].expiresAt >= Unix(now - cfg.expired)
      ensures stops.1 >= 20 && |Tokens.SettledRows(old(db.tokens), Unix(now - cfg.consumed))| <= 20_000 ==>
        forall id | id in db.tokens :: !TokenAnswers.LongSettled(db.tokens[id], Unix(now - cfg.consumed))
      ensures stops.2 >= 20 && |Otps.Purgeable(old(db.otps), Unix(now - cfg.otp))| <= 20_000 ==>
        forall id | id in db.otps :: !OtpAnswers.LongDead(db.otps[id], Unix(now - cfg.otp))
      ensures stops.3 >= 20 && |D.SettledIds(old(db.deliveries), Unix(now - cfg.delivery))| <= 20_000 ==>
        forall d | d in db.deliveries :: !OldDelivery(d, Unix(now - cfg.delivery))
    {
      hide Removed, Backlog, FinishedToken, FinishedCode, OldToken, OldDelivery, OtpAnswers.LongDead,
        TokenAnswers.LongSettled, Unix, Within, Tokens.DistinctValues, Tokens.ExpiredRows, Tokens.SettledRows,
        Otps.Purgeable, D.SettledIds, D.Ids;
      ghost var t0 := Snapshot();
      var capped;
      expired, capped := Drain(ExpiredTokens, Unix(now - cfg.expired), stops.0);
      ghost var t1 := Snapshot();
      settled, capped := Drain(SettledTokens, Unix(now - cfg.consumed), stops.1);
      ghost var t2 := Snapshot();
      codes, capped := Drain(DeadCodes, Unix(now - cfg.otp), stops.2);
      ghost var t3 := Snapshot();
      records, capped := Drain(OldDeliveries, Unix(now - cfg.delivery), stops.3);
      TokensSwept(t0, t1, t2, now, cfg, expired, settled);
      CodesSwept(t2, t3, now, cfg, codes);
      DeliveriesSwept(t3, Snapshot(), Unix(now - cfg.delivery), records);
    }
  }

  /** From `now` on the token can never again be redeemed. */
  ghost predicate FinishedToken(t: Tokens.Token, now: int) {
    forall u | u >= now :: Tokens.StatusOf(t, u) != Tokens.Active
  }

  ghost predicate FinishedCode(o: Otps.Otp, now: int) {
    forall u | u >= now :: !Otps.LiveAt(o, u)
  }

  /** What either token sweep may remove, in terms of the columns. */
  predicate OldToken(t: Tokens.Token, early: int, late: int) {
    t.expiresAt < early || TokenAnswers.LongSettled(t, late)
  }

  /** Old, and delivered or given up. */
  predicate OldDelivery(d: D.Delivery, before: int) {
    d.createdAt < before && (d.deliveredAt.Some? || D.GaveUp(d))
  }

  /** A cutoff lies in the past, so whatever is a candidate has finished by now. */
  lemma CandidatesAreFinished(t: Tokens.Token, expiredBefore: int, settledBefore: int, now: int)
    requires expiredBefore <= now && (t.expiresAt < expiredBefore || Tokens.SettledBefore(t, settledBefore))
    ensures FinishedToken(t, now)
  {
  }

  lemma TokensGone(a: Tokens.Table, b: Tokens.Table, c: Tokens.Table, early: int, late: int, now: int, n: nat, m: nat)
    requires Dropped(a, b, Tokens.ExpiredRows(a, early), n) && Dropped(b, c, Tokens.SettledRows(b, late), m)
    requires early <= now
    ensures Within(a, c) && |c.Keys| + n + m == |a.Keys|
    ensures forall id | id in a && id !in c :: FinishedToken(a[id], now) && OldToken(a[id], early, late)
  {
    hide FinishedToken;
    forall id | id in a && id !in c ensures FinishedToken(a[id], now) && OldToken(a[id], early, late) {
      CandidatesAreFinished(a[id], early, late, now);
    }
  }

  lemma TokensCleared(a: Tokens.Table, b: Tokens.Table, c: Tokens.Table, early: int, late: int, n: nat, m: nat)
    requires Dropped(a, b, Tokens.ExpiredRows(a, early), n) && Dropped(b, c, Tokens.SettledRows(b, late), m)
    ensures n == |Tokens.ExpiredRows(a, early)| ==> forall id | id in c :: c[id].expiresAt >= early
    ensures |Tokens.SettledRows(b, late)| <= |Tokens.SettledRows(a, late)|
    ensures m == |Tokens.SettledRows(b, late)| ==> forall id | id in c :: !TokenAnswers.LongSettled(c[id], late)
  {
    hide Tokens.ExpiredRows, Tokens.SettledRows, TokenAnswers.LongSettled;
    ExpiredLeft(a, b, early, n);
    SettledLeft(b, c, late, m);
    FewerTokens(b, c, early);
    FewerTokens(a, b, late);
    SubsetNotLarger(Tokens.SettledRows(b, late), Tokens.SettledRows(a, late));
    TokenAnswers.NoneExpired(c, early);
    TokenAnswers.NoneSettled(c, late);
  }

  lemma TokensSwept(a: Tables, b: Tables, c: Tables, now: int, cfg: Config, n: nat, m: nat)
    requires Positive(cfg)
    requires Removed(ExpiredTokens, Unix(now - cfg.expired), a, b, n)
    requires Removed(SettledTokens, Unix(now - cfg.consumed), b, c, m)
    ensures c == a.(tokens := c.tokens) && Within(a.tokens, c.tokens) && |c.tokens.Keys| + n + m == |a.tokens.Keys|
    ensures forall id | id in a.tokens && id !in c.tokens ::
      && FinishedToken(a.tokens[id], Unix(now))
      && OldToken(a.tokens[id], Unix(now - cfg.expired), Unix(now - cfg.consumed))
    ensures var early := Unix(now - cfg.expired);
      && Backlog(ExpiredTokens, early, a) == |Tokens.ExpiredRows(a.tokens, early)|
      && (n == Backlog(ExpiredTokens, early, a) ==> forall id | id in c.tokens :: c.tokens[id].expiresAt >= early)
    ensures var late := Unix(now - cfg.consumed);
      && Backlog(SettledTokens, late, b) <= |Tokens.SettledRows(a.tokens, late)|
      && (m == Backlog(SettledTokens, late, b) ==>
            forall id | id in c.tokens :: !TokenAnswers.LongSettled(c.tokens[id], late))
  {
    hide FinishedToken;
    var early, late := Unix(now - cfg.expired), Unix(now - cfg.consumed);
    TokensGone(a.tokens, b.tokens, c.tokens, early, late, Unix(now), n, m);
    TokensCleared(a.tokens, b.tokens, c.tokens, early, late, n, m);
  }

  lemma CodesSwept(a: Tables, b: Tables, now: int, cfg: Config, n: nat)
    requires Positive(cfg) && Removed(DeadCodes, Unix(now - cfg.otp), a, b, n)
    ensures Within(a.otps, b.otps) && |b.otps.Keys| + n == |a.otps.Keys|
    ensures b == a.(otps := b.otps)
    ensures forall id | id in a.otps && id !in b.otps ::
      FinishedCode(a.otps[id], Unix(now)) && OtpAnswers.LongDead(a.otps[id], Unix(now - cfg.otp))
    ensures Backlog(DeadCodes, Unix(now - cfg.otp), a) == |Otps.Purgeable(a.otps, Unix(now - cfg.otp))|
    ensures n == Backlog(DeadCodes, Unix(now - cfg.otp), a) ==>
      forall id | id in b.otps :: !OtpAnswers.LongDead(b.otps[id], Unix(now - cfg.otp))
  {
    OtpAnswers.NonePurgeable(b.otps, Unix(now - cfg.otp));
    assert Unix(now - cfg.otp) <= Unix(now);
    DeadLeft(a.otps, b.otps, Unix(now - cfg.otp), n);
  }

  lemma DeliveriesSwept(a: Tables, b: Tables, before: int, n: nat)
    requires D.Ordered(a.deliveries) && Removed(OldDeliveries, before, a, b, n)
    ensures forall d :: d in b.deliveries ==> d in a.deliveries
    ensures b == a.(deliveries := b.deliveries) && |D.Ids(b.deliveries)| + n == |D.Ids(a.deliveries)|
    ensures forall d | d in a.deliveries && d !in b.deliveries :: OldDelivery(d, before)
    ensures Backlog(OldDeliveries, before, a) == |D.SettledIds(a.deliveries, before)|
    ensures n == Backlog(OldDeliveries, before, a) ==> forall d | d in b.deliveries :: !OldDelivery(d, before)
  {
    var gone := D.Ids(a.deliveries) - D.Ids(b.deliveries);
    D.WithoutKeeps(a.deliveries, gone);
    RecordsLeft(a.deliveries, b.deliveries, before, n);
    D.SettledIsOver(a.deliveries, before);
    D.SettledIsOver(b.deliveries, before);
  }

  lemma NothingRemoved(w: Work, before: int, a: Tables)
    ensures Removed(w, before, a, a, 0)
  {
    match w
    case ExpiredTokens => assert a.tokens.Keys - a.tokens.Keys == {};
    case SettledTokens => assert a.tokens.Keys - a.tokens.Keys == {};
    case DeadCodes => assert a.otps.Keys - a.otps.Keys == {};
    case OldDeliveries =>
      WithoutNone(a.deliveries);
      assert D.Ids(a.deliveries) - D.Ids(a.deliveries) == {};
  }

  // ---- A series of batches is one sweep of the simulations ---------------------------------------

  lemma GoneCount<R>(rows: map<string, R>, left: map<string, R>, c: set<string>, n: nat)
    requires Dropped(rows, left, c, n) && c <= rows.Keys
    ensures var victims := rows.Keys - left.Keys;
      victims <= c && |victims| == n && left == rows - victims && n <= |c|
  {
    Together(rows.Keys, left.Keys, rows.Keys - left.Keys);
    SubsetNotLarger(rows.Keys - left.Keys, c);
  }

  lemma PurgeableAreRows(otps: Otps.Table, before: int)
    ensures Otps.Purgeable(otps, before) <= otps.Keys
  {
  }

  lemma CodesPurged(w: OtpSweep.World, now: int, retention: int, n: nat, victims: set<string>)
    requires victims <= Otps.Purgeable(w.swept, now - retention)
    requires |victims| == n <= |Otps.Purgeable(w.swept, now - retention)|
    ensures var op := OtpSweep.Sweep(now, retention, n, victims);
      OtpSweep.Legal(w, op) && OtpSweep.Apply(w, op).swept == w.swept - victims && OtpSweep.Apply(w, op).full == w.full
  {
  }

  /** The candidates of either token sweep. */
  function Finished(rows: Tokens.Table, before: int, settled: bool): set<string> {
    if settled then Tokens.SettledRows(rows, before) else Tokens.ExpiredRows(rows, before)
  }

  lemma FinishedAreRows(rows: Tokens.Table, before: int, settled: bool)
    ensures Finished(rows, before, settled) <= rows.Keys
  {
  }

  lemma TokensPurged(w: TokenSweep.World, now: int, retention: int, settled: bool, n: nat, victims: set<string>)
    requires var c := Finished(w.swept, now - retention, settled); victims <= c && |victims| == n <= |c|
    ensures var op := TokenSweep.Sweep(now, retention, settled, n, victims);
      && TokenSweep.Legal(w, op)
      && TokenSweep.Apply(w, op).swept == w.swept - victims && TokenSweep.Apply(w, op).full == w.full
  {
  }

  /** What a drain does to the codes of a swept store is one step of the simulation, so no answer to a
      timely validation or generate can tell that the job has run. */
  lemma DrainIsCodeSweep(w: OtpSweep.World, left: Otps.Table, now: int, retention: int, n: nat)
    requires Dropped(w.swept, left, Otps.Purgeable(w.swept, now - retention), n)
    ensures var op := OtpSweep.Sweep(now, retention, n, w.swept.Keys - left.Keys);
      OtpSweep.Legal(w, op) && OtpSweep.Apply(w, op).swept == left && OtpSweep.Apply(w, op).full == w.full
  {
    hide Dropped, Otps.Purgeable, OtpSweep.Legal, OtpSweep.Apply;
    PurgeableAreRows(w.swept, now - retention);
    GoneCount(w.swept, left, Otps.Purgeable(w.swept, now - retention), n);
    CodesPurged(w, now, retention, n, w.swept.Keys - left.Keys);
  }

  /** The same for either drain of the tokens. */
  lemma DrainIsTokenSweep(w: TokenSweep.World, left: Tokens.Table, now: int, retention: int, settled: bool, n: nat)
    requires Dropped(w.swept, left, Finished(w.swept, now - retention, settled), n)
    ensures var op := TokenSweep.Sweep(now, retention, settled, n, w.swept.Keys - left.Keys);
      TokenSweep.Legal(w, op) && TokenSweep.Apply(w, op).swept == left && TokenSweep.Apply(w, op).full == w.full
  {
    hide Dropped, Finished, TokenSweep.Legal, TokenSweep.Apply;
    var before := now - retention;
    FinishedAreRows(w.swept, before, settled);
    GoneCount(w.swept, left, Finished(w.swept, before, settled), n);
    TokensPurged(w, now, retention, settled, n, w.swept.Keys - left.Keys);
  }

  lemma GoneRows(rows: D.Table, left: D.Table, before: int, n: nat)
    requires D.Ordered(rows) && DroppedRows(rows, left, D.SettledIds(rows, before), n)
    ensures var victims := D.Ids(rows) - D.Ids(left);
      && victims <= D.SettledIds(rows, before) && |victims| == n <= |D.SettledIds(rows, before)|
      && left == D.Without(rows, victims)
  {
    var victims := D.Ids(rows) - D.Ids(left);
    WithoutIds(rows, victims, before);
    Together(D.Ids(rows), D.Ids(left), victims);
    SubsetNotLarger(victims, D.SettledIds(rows, before));
  }

  /** And for the drain of the deliveries. */
  lemma DrainIsDeliverySweep(w: DeliverySweep.World, left: D.Table, before: int, n: nat)
    requires D.Ordered(w.pruned.rows) && DroppedRows(w.pruned.rows, left, D.SettledIds(w.pruned.rows, before), n)
    ensures var op := DeliverySweep.Purge(before, n, D.Ids(w.pruned.rows) - D.Ids(left));
      && DeliverySweep.Legal(w, op) && DeliverySweep.Apply(w, op).full == w.full
      && DeliverySweep.Apply(w, op).pruned == w.pruned.(rows := left)
  {
    hide DroppedRows, D.SettledIds, D.Without;
    GoneRows(w.pruned.rows, left, before, n);
  }
}
