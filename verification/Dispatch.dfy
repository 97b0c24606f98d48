/** The webhook dispatcher: the bounded hand-off from request handlers, the fan-out of one event into
    rows, and the sweep that attempts every delivery that is due. */
module Dispatch {
  import opened Common
  import Tokens
  import D = Deliveries
  import BriefSweep
  import opened SendRounds
  import Store

  const QUEUE_SIZE := 512

  /** A change to a token that its environment's webhooks are to hear of. */
  datatype Note = Note(env: int, eventType: string, token: Tokens.Token)

  /** How a notification is written for one receiver: with or without the token's own payload. */
  type Render = (string, Note, bool) -> string

  // ---- Fan-out ---------------------------------------------------------------------------------

  function Interested(hooks: seq<Store.Webhook>, eventType: string): seq<Store.Webhook> {
    if hooks == [] then []
    else
      Interested(hooks[..|hooks| - 1], eventType)
      + if hooks[|hooks| - 1].Wants(eventType) then [hooks[|hooks| - 1]] else []
  }

  function Audience(hooks: seq<Store.Webhook>, note: Note): seq<Store.Webhook> {
    Interested(Store.Enabled(hooks, note.env), note.eventType)
  }

  /** The audience is every enabled webhook of the environment that subscribes, each once, in id order. */
  lemma AudienceIsExact(hooks: seq<Store.Webhook>, note: Note)
    requires forall i, j | 0 <= i < j < |hooks| :: hooks[i].id < hooks[j].id
    ensures var a := Audience(hooks, note);
      && (forall i, j | 0 <= i < j < |a| :: a[i].id < a[j].id)
      && (forall h :: h in a <==>
            && h in hooks && h.env == note.env && h.disabledAt.None?
            && (h.events == [] || note.eventType in h.events))
  {
    EnabledAre(hooks, note.env);
    InterestedAre(Store.Enabled(hooks, note.env), note.eventType);
  }

  lemma {:induction false} EnabledAre(hooks: seq<Store.Webhook>, env: int)
    requires forall i, j | 0 <= i < j < |hooks| :: hooks[i].id < hooks[j].id
    ensures var e := Store.Enabled(hooks, env);
      && (forall i, j | 0 <= i < j < |e| :: e[i].id < e[j].id)
      && (forall h :: h in e <==> h in hooks && h.env == env && h.disabledAt.None?)
  {
    if hooks != [] {
      var n := |hooks| - 1;
      assert hooks == hooks[..n] + [hooks[n]];
      EnabledAre(hooks[..n], env);
    }
  }

  lemma {:induction false} InterestedAre(hooks: seq<Store.Webhook>, eventType: string)
    requires forall i, j | 0 <= i < j < |hooks| :: hooks[i].id < hooks[j].id
    ensures var e := Interested(hooks, eventType);
      && (forall i, j | 0 <= i < j < |e| :: e[i].id < e[j].id)
      && (forall h :: h in e <==> h in hooks && h.Wants(eventType))
  {
    if hooks != [] {
      var n := |hooks| - 1;
      assert hooks == hooks[..n] + [hooks[n]];
      InterestedAre(hooks[..n], eventType);
      forall h | h in Interested(hooks[..n], eventType) ensures h.id < hooks[n].id {
        assert h in hooks[..n];
      }
    }
  }

  /** One row per listener: consecutive ids, one event id, due at once. */
  function Fan(rows: D.Table, note: Note, eventId: string, listeners: seq<Store.Webhook>, render: Render,
               clock: nat -> int): D.Table
  {
    rows + seq(|listeners|, i requires 0 <= i < |listeners| =>
      D.Delivery(D.NextId(rows) + i, listeners[i].id, eventId, note.eventType,
                 render(eventId, note, listeners[i].includePayload), 0, Some(clock(i)), None, clock(i)))
  }

  lemma FanEmpty(rows: D.Table, note: Note, eventId: string, render: Render, clock: nat -> int)
    ensures Fan(rows, note, eventId, [], render, clock) == rows
  {
  }

  lemma FanLength(rows: D.Table, note: Note, eventId: string, listeners: seq<Store.Webhook>, render: Render,
                  clock: nat -> int)
    ensures |Fan(rows, note, eventId, listeners, render, clock)| == |rows| + |listeners|
  {
  }

  lemma FanGrows(rows: D.Table, note: Note, eventId: string, listeners: seq<Store.Webhook>, h: Store.Webhook,
                 render: Render, clock: nat -> int)
    ensures var before := Fan(rows, note, eventId, listeners, render, clock);
      Fan(rows, note, eventId, listeners + [h], render, clock)
      == D.EnqueueDelivery(before, h.id, eventId, note.eventType, render(eventId, note, h.includePayload),
                           clock(|listeners|))
  {
  }

  /** Where recording an event can fail: listing the webhooks, loading the environment or making the
      event id, or writing a row once `after` rows are written. */
  datatype Fault = NoFault | ListFails | PrepareFails | WriteFails(after: nat)

  /** The event is written out for its whole audience: nothing fails, or nothing that is needed. */
  predicate Succeeds(hooks: seq<Store.Webhook>, note: Note, fault: Fault) {
    match fault
    case NoFault => true
    case ListFails => false
    case PrepareFails => Store.Enabled(hooks, note.env) == []
    case WriteFails(after) => after >= |Audience(hooks, note)|
  }

  /** The receivers whose rows get written: all of them, or those before the write that fails. */
  function Written(audience: seq<Store.Webhook>, ok: bool, fault: Fault): seq<Store.Webhook> {
    if ok then audience
    else if fault.WriteFails? && fault.after <= |audience| then audience[..fault.after]
    else []
  }

  class Dispatcher {
    const db: Store.DB

    /** The channel to the recorder, and the pending nudge to the sender. */
    var queue: seq<Note>
    var wake: bool

    /** History: what was accepted, how much of it was taken, what was turned away. */
    ghost var accepted: seq<Note>
    ghost var taken: nat
    ghost var dropped: seq<Note>
    ghost var notified: nat

    ghost predicate Valid()
      reads this, db
    {
      && db.Valid()
      && |queue| <= QUEUE_SIZE
      && taken <= |accepted| && queue == accepted[taken..]
      && notified == |dropped| + |queue| + taken
    }

    constructor (database: Store.DB)
      requires database.Valid()
      ensures Valid() && db == database && queue == [] && !wake && notified == 0
    {
      db, queue, wake := database, [], false;
      accepted, taken, dropped, notified := [], 0, [], 0;
    }

    /** Never blocks: a full queue drops. */
    method Notify(note: Note)
      requires Valid()
      modifies this`queue, this`accepted, this`dropped, this`notified
      ensures Valid() && notified == old(notified) + 1
      ensures |old(queue)| < 512 ==>
        queue == old(queue) + [note] && accepted == old(accepted) + [note] && dropped == old(dropped)
      ensures |old(queue)| >= 512 ==>
        queue == old(queue) && accepted == old(accepted) && dropped == old(dropped) + [note]
    {
      notified := notified + 1;
      if |queue| < QUEUE_SIZE {
        queue := queue + [note];
        accepted := accepted + [note];
      } else {
        dropped := dropped + [note];
      }
    }

    method Nudge()
      modifies this`wake
      ensures wake
    {
      wake := true;
    }

    /** Writes one event out. A failure leaves the rows already written and does not wake the sender. */
    method Record(note: Note, eventId: string, render: Render, clock: nat -> int, fault: Fault) returns (ok: bool)
      requires Valid()
      modifies this`wake, db`deliveries
      ensures Valid()
      ensures ok <==> Succeeds(db.hooks, note, fault)
      ensures var audience := Audience(db.hooks, note);
        && db.deliveries == Fan(old(db.deliveries), note, eventId, Written(audience, ok, fault), render, clock)
        && wake == (old(wake) || (ok && audience != []))
      ensures !ok && !fault.WriteFails? ==> db.deliveries == old(db.deliveries)
      ensures match fault
        case NoFault => ok
        case ListFails => !ok
        case PrepareFails => ok <==> forall h | h in db.hooks && h.env == note.env :: h.disabledAt.Some?
        case WriteFails(after) =>
          && (ok <==> after >= |Audience(db.hooks, note)|)
          && (!ok ==> |db.deliveries| == |old(db.deliveries)| + after)
    {
      hide Fan, Interested, Store.Enabled, Tokens.DistinctValues;
      FanEmpty(db.deliveries, note, eventId, render, clock);
      if fault == ListFails {
        return false;
      }
      var hooks := db.ListEnabledWebhooks(note.env);
      EnabledAre(db.hooks, note.env);
      if |hooks| == 0 {
        NobodyInterested(note.eventType);
        return true;
      }
      if fault == PrepareFails {
        assert hooks[0] in hooks;
        return false;
      }
      var queued;
      ok, queued := FanOut(hooks, note, eventId, render, clock, fault);
      assert ok ==> Audience(db.hooks, note)[..queued] == Audience(db.hooks, note);
      FanLength(old(db.deliveries), note, eventId, Audience(db.hooks, note)[..queued], render, clock);
      if ok && queued > 0 {
        Nudge();
      }
    }

    /** The loop over the receivers; it stops at the first row that cannot be written. */
    method FanOut(hooks: seq<Store.Webhook>, note: Note, eventId: string, render: Render, clock: nat -> int,
                  fault: Fault)
      returns (ok: bool, queued: nat)
      requires db.Valid() && forall h | h in hooks :: h in db.hooks
      modifies db`deliveries
      ensures db.Valid()
      ensures queued <= |Interested(hooks, note.eventType)|
      ensures ok ==> queued == |Interested(hooks, note.eventType)|
      ensures ok <==> !(fault.WriteFails? && fault.after < |Interested(hooks, note.eventType)|)
      ensures !ok ==> fault == WriteFails(queued) && queued < |Interested(hooks, note.eventType)|
      ensures db.deliveries ==
        Fan(old(db.deliveries), note, eventId, Interested(hooks, note.eventType)[..queued], render, clock)
    {
      hide Fan, D.EnqueueDelivery, Store.Linked, Tokens.DistinctValues;
      queued := 0;
      ghost var rows := db.deliveries;
      FanEmpty(rows, note, eventId, render, clock);
      for i := 0 to |hooks|
        invariant db.Valid() && queued == |Interested(hooks[..i], note.eventType)|
        invariant Interested(hooks[..i], note.eventType) <= Interested(hooks, note.eventType)
        invariant fault.WriteFails? ==> queued <= fault.after
        invariant db.deliveries == Fan(rows, note, eventId, Interested(hooks[..i], note.eventType), render, clock)
      {
        PrefixInterested(hooks, i + 1, note.eventType);
        assert hooks[..i + 1][..i] == hooks[..i];
        var hook := hooks[i];
        var wants := hook.Subscribes(note.eventType);
        ghost var soFar := Interested(hooks[..i], note.eventType);
        assert Interested(hooks[..i + 1], note.eventType) == if wants then soFar + [hook] else soFar;
        assert Interested(hooks, note.eventType)[..queued] == soFar;
        if wants {
          if fault == WriteFails(queued) {
            return false, queued;
          }
          assert hook in db.hooks;
          FanGrows(rows, note, eventId, soFar, hook, render, clock);
          var body := render(eventId, note, hook.includePayload);
          var written := db.EnqueueDelivery(hook.id, eventId, note.eventType, body, clock(queued));
          queued := queued + 1;
        }
      }
      assert hooks[..|hooks|] == hooks;
      assert Interested(hooks, note.eventType)[..queued] == Interested(hooks, note.eventType);
      return true, queued;
    }

    /** One turn of the record loop: the oldest event leaves the queue whatever becomes of it. */
    method RecordNext(eventId: string, render: Render, clock: nat -> int, fault: Fault) returns (ok: bool)
      requires Valid() && queue != []
      modifies this`queue, this`taken, this`wake, db`deliveries
      ensures Valid()
      ensures queue == old(queue)[1..] && taken == old(taken) + 1 && accepted[taken - 1] == old(queue)[0]
      ensures ok <==> Succeeds(db.hooks, old(queue)[0], fault)
      ensures var note := old(queue)[0]; var audience := Audience(db.hooks, note);
        && db.deliveries == Fan(old(db.deliveries), note, eventId, Written(audience, ok, fault), render, clock)
        && wake == (old(wake) || (ok && audience != []))
    {
      var note := queue[0];
      queue := queue[1..];
      taken := taken + 1;
      ok := Record(note, eventId, render, clock, fault);
    }

    /** One attempt: post, then write down what happened. The record may be lost. */
    method Attempt(d: D.Delivery, w: World)
      requires db.Valid()
      modifies db`deliveries
      ensures db.Valid()
      ensures db.deliveries ==
        if FateOf(w, d).Recorded? then
          D.RecordResult(old(db.deliveries), d.id, ResultOf(w, d))
        else old(db.deliveries)
      ensures w.fate(d.id).Lost? ==> db.deliveries == old(db.deliveries)
      ensures w.fate(d.id).Recorded? ==>
        var at, n := w.fate(d.id).at, d.attempt + 1;
        db.deliveries == D.RecordResult(old(db.deliveries), d.id,
          if w.fate(d.id).accepted then D.Outcome(n, None, Some(at))
          else if n == 1 then D.Outcome(n, Some(at + 30), None)
          else if n == 2 then D.Outcome(n, Some(at + 120), None)
          else if n == 3 then D.Outcome(n, Some(at + 600), None)
          else D.Outcome(n, None, None))
    {
      hide D.RecordResult, Store.Linked, Tokens.DistinctValues;
      var n := d.attempt + 1;
      var fate := w.fate(d.id);
      if fate.Lost? {
        return;
      }
      if fate.accepted {
        db.RecordDeliveryResult(d.id, D.Outcome(n, None, Some(fate.at)));
        return;
      }
      var next := None;
      if n <= |D.RETRY_SCHEDULE| {
        next := Some(fate.at + D.RETRY_SCHEDULE[n - 1]);
      }
      db.RecordDeliveryResult(d.id, D.Outcome(n, next, None));
    }

    /** Each webhook is loaded once for the batch; what cannot be loaded is passed over. */
    method LoadJobs(due: seq<D.Delivery>, w: World) returns (jobs: set<D.Delivery>)
      requires db.Valid() && forall d | d in due :: d in db.deliveries
      ensures jobs == set d | d in due && !w.unreadable(d.hook)
    {
      var hooks: map<int, Store.Webhook> := map[];
      jobs := {};
      for i := 0 to |due|
        invariant forall h | h in hooks :: !w.unreadable(h)
        invariant jobs == set d | d in due[..i] && !w.unreadable(d.hook)
      {
        assert due[..i + 1] == due[..i] + [due[i]];
        if due[i].hook !in hooks {
          if w.unreadable(due[i].hook) {
            continue;
          }
          assert due[i] in due;
          var found := db.GetWebhookByID(due[i].hook);
          hooks := hooks[due[i].hook := found.value];
        }
        jobs := jobs + {due[i]};
      }
      assert due[..|due|] == due;
    }

    /** The attempts run side by side and finish in any order; this returns when all have. */
    method RunJobs(todo: set<D.Delivery>, w: World) returns (posts: multiset<int>)
      requires db.Valid() && D.Ordered(db.deliveries)
      requires forall d | d in todo :: d in db.deliveries && !w.unreadable(d.hook)
      modifies db`deliveries
      ensures db.Valid()
      ensures posts == multiset(set d | d in todo :: d.id)
      ensures db.deliveries == AfterAttempts(w, old(db.deliveries), set d | d in todo :: d.id)
    {
      hide AfterAttempts, D.RecordResult, D.AttemptOutcome, Store.Linked, Tokens.DistinctValues;
      ghost var rows := db.deliveries;
      ghost var ids := {};
      var jobs := todo;
      posts := multiset{};
      NoAttempts(w, rows);
      while jobs != {}
        invariant db.Valid() && jobs <= todo
        invariant ids == set d | d in todo - jobs :: d.id
        invariant posts == multiset(ids)
        invariant db.deliveries == AfterAttempts(w, rows, ids)
      {
        var d :| d in jobs;
        AttemptDone(w, rows, ids, d);
        Attempt(d, w);
        posts := posts + multiset{d.id};
        ids := ids + {d.id};
        jobs := jobs - {d};
      }
      assert todo - jobs == todo;
    }

    /** One batch: list what is due, load the webhooks, attempt, wait for all. Each delivery that can be
        posted is posted once. */
    method SendBatch(at: int, w: World) returns (count: nat, posts: multiset<int>)
      requires db.Valid()
      modifies db`deliveries
      ensures db.Valid()
      ensures count == |D.DueDeliveries(old(db.deliveries), at, 50)|
      ensures db.deliveries == Round(w, old(db.deliveries), at)
      ensures posts == multiset(Posted(w, old(db.deliveries), at))
    {
      hide D.DueDeliveries, AfterAttempts, Tokens.DistinctValues;
      ghost var rows := db.deliveries;
      var due := db.DueDeliveries(at, SWEEP_BATCH);
      D.DueListIsExact(rows, at, SWEEP_BATCH);
      var jobs := LoadJobs(due, w);
      posts := RunJobs(jobs, w);
      assert (set d | d in jobs :: d.id) == Posted(w, rows, at);
      PostedIsEnough(w, rows, at);
      return |due|, posts;
    }

    /** Batch after batch until one comes back short. `clock` gives the time of each listing, `ws` what
        each round meets, and `cancelled` the rounds in which the context is cancelled or the listing
        fails. It terminates unless it hangs, however long it takes; then the last listing was short and
        every delivery due at the start has been posted, or its webhook could not be read in the last
        round. If it is over before the shortest retry delay, none is recorded twice. */
    method Sweep(ws: nat -> World, clock: nat -> int, cancelled: nat -> bool, ghost start: int, ghost horizon: int)
      returns (posts: multiset<int>, finished: bool, ghost rounds: nat, ghost when: map<int, nat>)
      requires db.Valid() && ((exists k: nat :: cancelled(k)) || !Hangs(ws, db.deliveries, clock))
      modifies db`deliveries
      ensures db.Valid()
      ensures (forall k: nat :: !cancelled(k)) ==> finished
      ensures db.deliveries == Rounds(ws, old(db.deliveries), clock, rounds)
      ensures finished ==> rounds >= 1 && EndsIn(ws, old(db.deliveries), clock, rounds - 1)
      ensures finished && (forall k: nat :: start <= clock(k)) ==>
        forall d | d in old(db.deliveries) && D.IsDue(d, start) ::
          !ws(rounds - 1).unreadable(d.hook) ==> posts[d.id] >= 1
      ensures Brief(ws, clock, start, horizon) ==>
        BriefSweep.SoFar(ws, old(db.deliveries), db.deliveries, posts, when, horizon)
      ensures Brief(ws, clock, start, horizon) && finished ==>
        && (forall d | d in old(db.deliveries) && D.IsDue(d, start) :: d.id in when || !Settles(ws(rounds - 1), d))
        && (forall d | d in db.deliveries && D.IsDue(d, start) :: !Settles(ws(rounds - 1), d))
    {
      hide AfterAttempts, Posted, Batch, D.DueDeliveries, Round, Rounds, EndsIn, Reached, Hangs, Settles, D.IsDue,
        Tokens.DistinctValues, BriefSweep.SoFar, BriefSweep.Recorded, Brief;
      ghost var rows := db.deliveries;
      ghost var last := LastRound(ws, rows, clock, cancelled);
      BriefSweep.Start(ws, rows, horizon);
      posts, when, rounds := multiset{}, map[], 0;
      var k := 0;
      NoRounds(ws, rows, clock);
      while true
        invariant db.Valid() && rounds == k <= last && db.deliveries == Rounds(ws, rows, clock, k)
        invariant forall d | d in rows :: posts[d.id] >= 1 || d in db.deliveries
        invariant Brief(ws, clock, start, horizon) ==> BriefSweep.SoFar(ws, rows, db.deliveries, posts, when, horizon)
        decreases last - k
      {
        if cancelled(k) {
          return posts, false, rounds, when;
        }
        ghost var now := db.deliveries;
        var count, more := SendBatch(clock(k), ws(k));
        OneRound(ws, rows, clock, k);
        forall d | d in now ensures d in db.deliveries || more[d.id] >= 1 {
          KeptOrPosted(ws(k), now, clock(k), d);
        }
        if Brief(ws, clock, start, horizon) {
          BriefSweep.NextRound(ws, clock, rows, now, posts, when, start, horizon, k);
          if count < SWEEP_BATCH {
            BriefSweep.LastRound(ws, clock, rows, now, posts, when, start, horizon, k);
          }
        }
        posts, when := posts + more, when + BriefSweep.Recorded(ws(k), now, clock(k), k);
        k, rounds := k + 1, rounds + 1;
        if count < SWEEP_BATCH {
          if forall j: nat :: start <= clock(j) {
            ShortRoundPosts(ws(k - 1), now, start, clock(k - 1));
          }
          return posts, true, rounds, when;
        }
      }
    }
  }

  lemma NobodyInterested(eventType: string)
    ensures Interested([], eventType) == []
  {
  }

  lemma {:induction false} PrefixInterested(hooks: seq<Store.Webhook>, n: nat, eventType: string)
    requires n <= |hooks|
    ensures Interested(hooks[..n], eventType) <= Interested(hooks, eventType)
    decreases |hooks|
  {
    if n < |hooks| {
      assert hooks[..|hooks| - 1][..n] == hooks[..n];
      PrefixInterested(hooks[..|hooks| - 1], n, eventType);
    } else {
      assert hooks[..n] == hooks;
    }
  }
}
