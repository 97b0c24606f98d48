/** The SQL predicates behind the listing filters and the status counts, with their placeholders, and
    their agreement with the status the service derives in code. */
module Status {
  import opened Common
  import Tokens
  import Otps

  /** The columns of either table the predicates read. */
  datatype Column = RevokedAt | ConsumedAt | ExpiresAt | Count | Limit

  datatype Condition =
    | IsNull(col: Column)
    | NotNull(col: Column)
    | Above(col: Column)                    // col > ?
    | AtMost(col: Column)                   // col <= ?
    | Less(left: Column, right: Column)
    | AtLeast(left: Column, right: Column)
    | And(l: Condition, r: Condition)
    | Or(l: Condition, r: Condition)

  /** Placeholders in the text of a condition. */
  function Holes(c: Condition): nat {
    match c
    case Above(_) => 1
    case AtMost(_) => 1
    case And(l, r) => Holes(l) + Holes(r)
    case Or(l, r) => Holes(l) + Holes(r)
    case _ => 0
  }

  datatype Record = Record(revokedAt: Option<int>, consumedAt: Option<int>, expiresAt: int, count: int,
                           limit: Option<int>)

  function Get(row: Record, col: Column): Option<int> {
    match col
    case RevokedAt => row.revokedAt
    case ConsumedAt => row.consumedAt
    case ExpiresAt => Some(row.expiresAt)
    case Count => Some(row.count)
    case Limit => row.limit
  }

  /** A truth value of SQL; None is NULL. */
  type Truth = Option<bool>

  /** Three-valued evaluation; arguments are bound to placeholders from left to right. */
  function Eval(c: Condition, row: Record, args: seq<int>): Truth
    requires |args| >= Holes(c)
  {
    match c
    case IsNull(col) => Some(Get(row, col).None?)
    case NotNull(col) => Some(Get(row, col).Some?)
    case Above(col) => if Get(row, col).None? then None else Some(Get(row, col).value > args[0])
    case AtMost(col) => if Get(row, col).None? then None else Some(Get(row, col).value <= args[0])
    case Less(x, y) =>
      if Get(row, x).None? || Get(row, y).None? then None else Some(Get(row, x).value < Get(row, y).value)
    case AtLeast(x, y) =>
      if Get(row, x).None? || Get(row, y).None? then None else Some(Get(row, x).value >= Get(row, y).value)
    case And(l, r) =>
      var p, q := Eval(l, row, args), Eval(r, row, args[Holes(l)..]);
      if p == Some(false) || q == Some(false) then Some(false)
      else if p.None? || q.None? then None
      else Some(true)
    case Or(l, r) =>
      var p, q := Eval(l, row, args), Eval(r, row, args[Holes(l)..]);
      if p == Some(true) || q == Some(true) then Some(true)
      else if p.None? || q.None? then None
      else Some(false)
  }

  /** WHERE keeps a row only when its condition is true, not when it is NULL. */
  predicate Keeps(c: Condition, row: Record, args: seq<int>)
    requires |args| >= Holes(c)
  {
    Eval(c, row, args) == Some(true)
  }

  /** Condition text with the arguments it comes with. */
  datatype Bound = Bound(cond: Condition, args: seq<int>)

  function TokenRecord(t: Tokens.Token): Record {
    Record(t.revokedAt, None, t.expiresAt, t.used, t.maxUses)
  }

  function OtpRecord(o: Otps.Otp): Record {
    Record(o.revokedAt, o.consumedAt, o.expiresAt, o.attempts, Some(o.maxAttempts))
  }

  function TokenPredicate(status: Tokens.Status, ts: int): Bound {
    match status
    case Revoked => Bound(NotNull(RevokedAt), [])
    case Expired => Bound(And(IsNull(RevokedAt), AtMost(ExpiresAt)), [ts])
    case Exhausted =>
      Bound(And(And(And(IsNull(RevokedAt), Above(ExpiresAt)), NotNull(Limit)), AtLeast(Count, Limit)), [ts])
    case Active =>
      Bound(And(And(IsNull(RevokedAt), Above(ExpiresAt)), Or(IsNull(Limit), Less(Count, Limit))), [ts])
  }

  function OtpPredicate(status: Otps.Status, ts: int): Bound {
    match status
    case Revoked => Bound(NotNull(RevokedAt), [])
    case Consumed => Bound(And(IsNull(RevokedAt), NotNull(ConsumedAt)), [])
    case Expired => Bound(And(And(IsNull(RevokedAt), IsNull(ConsumedAt)), AtMost(ExpiresAt)), [ts])
    case Locked =>
      Bound(And(And(And(IsNull(RevokedAt), IsNull(ConsumedAt)), Above(ExpiresAt)), AtLeast(Count, Limit)), [ts])
    case Active =>
      Bound(And(And(And(IsNull(RevokedAt), IsNull(ConsumedAt)), Above(ExpiresAt)), Less(Count, Limit)), [ts])
  }

  lemma KeepsAnd(l: Condition, r: Condition, row: Record, args: seq<int>)
    requires |args| >= Holes(l) + Holes(r)
    ensures Keeps(And(l, r), row, args) <==> Keeps(l, row, args) && Keeps(r, row, args[Holes(l)..])
  {
  }

  lemma KeepsOr(l: Condition, r: Condition, row: Record, args: seq<int>)
    requires |args| >= Holes(l) + Holes(r)
    ensures Keeps(Or(l, r), row, args) <==> Keeps(l, row, args) || Keeps(r, row, args[Holes(l)..])
  {
  }

  /** A conjunction whose one placeholder, if any, comes last in its left part or first in its right. */
  lemma KeepsNext(l: Condition, r: Condition, row: Record, ts: int)
    requires Holes(l) + Holes(r) <= 1
    ensures Keeps(And(l, r), row, [ts]) <==> Keeps(l, row, [ts]) && Keeps(r, row, if Holes(l) == 0 then [ts] else [])
  {
    KeepsAnd(l, r, row, [ts]);
    assert [ts][0..] == [ts] && [ts][1..] == [];
  }

  const UNREVOKED_AND_UNEXPIRED := And(IsNull(RevokedAt), Above(ExpiresAt))

  const BELOW_LIMIT := Or(IsNull(Limit), Less(Count, Limit))

  /** The two conjunctions the token predicates are built from. */
  lemma TokenParts(t: Tokens.Token, ts: int)
    ensures Holes(UNREVOKED_AND_UNEXPIRED) == 1 && Holes(And(UNREVOKED_AND_UNEXPIRED, NotNull(Limit))) == 1
    ensures Keeps(UNREVOKED_AND_UNEXPIRED, TokenRecord(t), [ts]) <==> t.revokedAt.None? && t.expiresAt > ts
    ensures Keeps(And(UNREVOKED_AND_UNEXPIRED, NotNull(Limit)), TokenRecord(t), [ts]) <==>
      t.revokedAt.None? && t.expiresAt > ts && t.maxUses.Some?
  {
    KeepsNext(IsNull(RevokedAt), Above(ExpiresAt), TokenRecord(t), ts);
    assert Holes(UNREVOKED_AND_UNEXPIRED) == 1;
    KeepsNext(UNREVOKED_AND_UNEXPIRED, NotNull(Limit), TokenRecord(t), ts);
  }

  /** The condition on the limit, which may be NULL. */
  lemma BelowLimit(t: Tokens.Token)
    ensures Holes(BELOW_LIMIT) == 0
    ensures Keeps(BELOW_LIMIT, TokenRecord(t), []) <==> t.maxUses.None? || t.used < t.maxUses.value
  {
    var none: seq<int> := [];
    KeepsOr(IsNull(Limit), Less(Count, Limit), TokenRecord(t), none);
    assert none[0..] == none;
  }

  /** At any instant a token satisfies the SQL predicate of a status exactly when that is its status; the
      NULL a comparison with an absent limit gives never decides otherwise. */
  lemma TokenPredicateAgrees(t: Tokens.Token, status: Tokens.Status, ts: int)
    ensures var p := TokenPredicate(status, ts);
      Holes(p.cond) == |p.args| && (Keeps(p.cond, TokenRecord(t), p.args) <==> Tokens.StatusOf(t, ts) == status)
  {
    var row, alive := TokenRecord(t), UNREVOKED_AND_UNEXPIRED;
    TokenParts(t, ts);
    BelowLimit(t);
    match status
    case Revoked =>
    case Expired => KeepsNext(IsNull(RevokedAt), AtMost(ExpiresAt), row, ts);
    case Exhausted => KeepsNext(And(alive, NotNull(Limit)), AtLeast(Count, Limit), row, ts);
    case Active => KeepsNext(alive, BELOW_LIMIT, row, ts);
  }

  lemma OtpParts(o: Otps.Otp, ts: int)
    ensures var row, unused := OtpRecord(o), And(IsNull(RevokedAt), IsNull(ConsumedAt));
      && Holes(unused) == 0 && Holes(And(unused, Above(ExpiresAt))) == 1
      && (Keeps(unused, row, [ts]) <==> o.revokedAt.None? && o.consumedAt.None?)
      && (Keeps(And(unused, Above(ExpiresAt)), row, [ts]) <==>
            o.revokedAt.None? && o.consumedAt.None? && o.expiresAt > ts)
  {
    var row, unused := OtpRecord(o), And(IsNull(RevokedAt), IsNull(ConsumedAt));
    KeepsNext(IsNull(RevokedAt), IsNull(ConsumedAt), row, ts);
    assert Holes(unused) == 0;
    KeepsNext(unused, Above(ExpiresAt), row, ts);
  }

  lemma OtpPredicateAgrees(o: Otps.Otp, status: Otps.Status, ts: int)
    ensures var p := OtpPredicate(status, ts);
      Holes(p.cond) == |p.args| && (Keeps(p.cond, OtpRecord(o), p.args) <==> Otps.StatusOf(o, ts) == status)
  {
    var row, unused := OtpRecord(o), And(IsNull(RevokedAt), IsNull(ConsumedAt));
    OtpParts(o, ts);
    match status
    case Revoked =>
    case Consumed => KeepsAnd(IsNull(RevokedAt), NotNull(ConsumedAt), row, []);
    case Expired => KeepsNext(unused, AtMost(ExpiresAt), row, ts);
    case Locked => KeepsNext(And(unused, Above(ExpiresAt)), AtLeast(Count, Limit), row, ts);
    case Active => KeepsNext(And(unused, Above(ExpiresAt)), Less(Count, Limit), row, ts);
  }

  // ---- One pass over the table for all counts ---------------------------------------------------------

  /** A row as the counting query sees it. */
  datatype Row = Row(env: int, record: Record)

  function HolesOf(selects: seq<Condition>): nat {
    if selects == [] then 0 else Holes(selects[0]) + HolesOf(selects[1..])
  }

  /** `SELECT COUNT(*) FILTER (WHERE c0), ... FROM t WHERE environment_id = ?`. Placeholders are bound in
      the order they are written: those of the filters first, the environment's last. */
  function FilterCounts(rows: map<string, Row>, selects: seq<Condition>, args: seq<int>): seq<nat>
    requires |args| == HolesOf(selects) + 1
  {
    if selects == [] then []
    else
      var env := args[|args| - 1];
      [|set id | id in rows && rows[id].env == env && Keeps(selects[0], rows[id].record, args)|]
      + FilterCounts(rows, selects[1..], args[Holes(selects[0])..])
  }

  predicate Fitting(bounds: seq<Bound>) {
    forall b | b in bounds :: Holes(b.cond) == |b.args|
  }

  function Conds(bounds: seq<Bound>): seq<Condition> {
    if bounds == [] then [] else [bounds[0].cond] + Conds(bounds[1..])
  }

  function Args(bounds: seq<Bound>): seq<int> {
    if bounds == [] then [] else bounds[0].args + Args(bounds[1..])
  }

  /** Rows of the environment one predicate keeps when it is run with its own arguments. */
  function Kept(rows: map<string, Row>, env: int, b: Bound): set<string>
    requires Holes(b.cond) == |b.args|
  {
    set id | id in rows && rows[id].env == env && Keeps(b.cond, rows[id].record, b.args)
  }

  /** Arguments past those of a condition do not matter to it. */
  lemma {:induction false} ExtraArgs(c: Condition, row: Record, args: seq<int>, more: seq<int>)
    requires |args| == Holes(c)
    ensures Eval(c, row, args + more) == Eval(c, row, args)
    decreases c, 1
  {
    match c
    case And(l, r) => ExtraArgsPair(c, l, r, row, args, more);
    case Or(l, r) => ExtraArgsPair(c, l, r, row, args, more);
    case _ =>
  }

  lemma {:induction false} ExtraArgsPair(c: Condition, l: Condition, r: Condition, row: Record, args: seq<int>,
                                         more: seq<int>)
    requires c == And(l, r) || c == Or(l, r)
    requires |args| == Holes(l) + Holes(r)
    ensures Eval(l, row, args + more) == Eval(l, row, args)
    ensures Eval(r, row, (args + more)[Holes(l)..]) == Eval(r, row, args[Holes(l)..])
    decreases c, 0
  {
    var a, b := args[..Holes(l)], args[Holes(l)..];
    assert args == a + b && args + more == a + (b + more) && (args + more)[Holes(l)..] == b + more;
    ExtraArgs(l, row, a, b);
    ExtraArgs(l, row, a, b + more);
    ExtraArgs(r, row, b, more);
  }

  lemma {:induction false} ConcatenatedArgsFit(bounds: seq<Bound>)
    requires Fitting(bounds)
    ensures HolesOf(Conds(bounds)) == |Args(bounds)| && |Conds(bounds)| == |bounds|
  {
    if bounds != [] {
      assert bounds[0] in bounds && forall b | b in bounds[1..] :: b in bounds;
      ConcatenatedArgsFit(bounds[1..]);
      assert Conds(bounds)[1..] == Conds(bounds[1..]);
    }
  }

  /** The first filter reads its own arguments, whatever follows them. */
  lemma FirstFilter(rows: map<string, Row>, b: Bound, env: int, more: seq<int>)
    requires Holes(b.cond) == |b.args|
    ensures (set id | id in rows && rows[id].env == env && Keeps(b.cond, rows[id].record, b.args + more))
      == Kept(rows, env, b)
  {
    forall id | id in rows
      ensures Keeps(b.cond, rows[id].record, b.args + more) == Keeps(b.cond, rows[id].record, b.args)
    {
      ExtraArgs(b.cond, rows[id].record, b.args, more);
    }
  }

  lemma FirstCount(rows: map<string, Row>, b: Bound, rest: seq<Bound>, env: int)
    requires Holes(b.cond) == |b.args| && HolesOf(Conds(rest)) == |Args(rest)|
    ensures HolesOf([b.cond] + Conds(rest)) == |b.args| + |Args(rest)|
    ensures FilterCounts(rows, [b.cond] + Conds(rest), b.args + Args(rest) + [env])
         == [|Kept(rows, env, b)|] + FilterCounts(rows, Conds(rest), Args(rest) + [env])
  {
    var more := Args(rest) + [env];
    var all := b.args + Args(rest) + [env];
    assert all == b.args + more && all[|b.args|..] == more && all[|all| - 1] == env;
    assert ([b.cond] + Conds(rest))[1..] == Conds(rest);
    FirstFilter(rows, b, env, more);
  }

  /** With the arguments of all predicates concatenated and the environment appended, every filter gets
      its own and the environment test gets the last. */
  lemma {:induction false} CountsBindInOrder(rows: map<string, Row>, bounds: seq<Bound>, env: int)
    requires Fitting(bounds) && HolesOf(Conds(bounds)) == |Args(bounds)|
    ensures var counts := FilterCounts(rows, Conds(bounds), Args(bounds) + [env]);
      && |counts| == |bounds|
      && forall i | 0 <= i < |bounds| :: bounds[i] in bounds && counts[i] == |Kept(rows, env, bounds[i])|
  {
    hide Kept, Keeps, Holes;
    if bounds != [] {
      var b, rest := bounds[0], bounds[1..];
      assert b in bounds && forall x | x in rest :: x in bounds;
      ConcatenatedArgsFit(rest);
      CountsBindInOrder(rows, rest, env);
      FirstCount(rows, b, rest, env);
      forall i | 0 < i < |bounds| ensures bounds[i] == rest[i - 1] {}
    }
  }

  /** The statuses in the order of the panel's chips. */
  const TOKEN_STATUSES := [Tokens.Active, Tokens.Expired, Tokens.Exhausted, Tokens.Status.Revoked]

  const OTP_STATUSES := [Otps.Active, Otps.Consumed, Otps.Expired, Otps.Locked, Otps.Status.Revoked]

  function TokenRows(rows: Tokens.Table): map<string, Row> {
    map id | id in rows :: Row(rows[id].env, TokenRecord(rows[id]))
  }

  function OtpRows(rows: Otps.Table): map<string, Row> {
    map id | id in rows :: Row(rows[id].key.env, OtpRecord(rows[id]))
  }

  lemma {:induction false} ArgsAppend(bounds: seq<Bound>, b: Bound)
    ensures Conds(bounds + [b]) == Conds(bounds) + [b.cond]
    ensures Args(bounds + [b]) == Args(bounds) + b.args
  {
    var all := bounds + [b];
    if bounds == [] {
      assert all == [b] && all[1..] == [];
      assert Conds(all) == [b.cond] + Conds([]) && Args(all) == b.args + Args([]);
    } else {
      var rest := bounds[1..];
      ArgsAppend(rest, b);
      assert all[0] == bounds[0] && all[1..] == rest + [b];
      assert Conds(all) == [bounds[0].cond] + (Conds(rest) + [b.cond]);
      assert Args(all) == bounds[0].args + (Args(rest) + b.args);
      ConcatIsAssociative([bounds[0].cond], Conds(rest), [b.cond]);
      ConcatIsAssociative(bounds[0].args, Args(rest), b.args);
    }
  }

  lemma ConcatIsAssociative<T>(x: seq<T>, y: seq<T>, z: seq<T>)
    ensures x + (y + z) == x + y + z
  {
  }

  /** One query for all counts: the loop writes a filter per predicate and collects the arguments, the
      environment is appended last. */
  method CountByPredicates(rows: map<string, Row>, predicates: seq<Bound>, env: int) returns (counts: seq<nat>)
    requires Fitting(predicates)
    ensures |counts| == |predicates|
    ensures forall i | 0 <= i < |counts| :: predicates[i] in predicates && counts[i] == |Kept(rows, env, predicates[i])|
  {
    var selects: seq<Condition>, args: seq<int> := [], [];
    for i := 0 to |predicates|
      invariant selects == Conds(predicates[..i]) && args == Args(predicates[..i])
    {
      var p := predicates[i];
      selects := selects + [p.cond];
      args := args + p.args;
      ArgsAppend(predicates[..i], p);
      assert predicates[..i] + [p] == predicates[..i + 1];
    }
    assert predicates[..|predicates|] == predicates;
    ConcatenatedArgsFit(predicates);
    CountsBindInOrder(rows, predicates, env);
    args := args + [env];
    counts := FilterCounts(rows, selects, args);
  }

  function TokenPredicates(ts: int): (r: seq<Bound>)
    ensures |r| == 4 && forall i | 0 <= i < 4 :: r[i] == TokenPredicate(TOKEN_STATUSES[i], ts)
  {
    seq(4, i requires 0 <= i < 4 => TokenPredicate(TOKEN_STATUSES[i], ts))
  }

  function OtpPredicates(ts: int): (r: seq<Bound>)
    ensures |r| == 5 && forall i | 0 <= i < 5 :: r[i] == OtpPredicate(OTP_STATUSES[i], ts)
  {
    seq(5, i requires 0 <= i < 5 => OtpPredicate(OTP_STATUSES[i], ts))
  }

  lemma TokenFilters(rows: Tokens.Table, env: int, ts: int)
    ensures Fitting(TokenPredicates(ts))
    ensures forall i | 0 <= i < 4 ::
      Kept(TokenRows(rows), env, TokenPredicates(ts)[i]) == TokensOf(rows, env, TOKEN_STATUSES[i], ts)
  {
    forall i | 0 <= i < 4
      ensures Holes(TokenPredicates(ts)[i].cond) == |TokenPredicates(ts)[i].args|
      ensures Kept(TokenRows(rows), env, TokenPredicates(ts)[i]) == TokensOf(rows, env, TOKEN_STATUSES[i], ts)
    {
      TokensKept(rows, env, TOKEN_STATUSES[i], ts);
    }
  }

  lemma OtpFilters(rows: Otps.Table, env: int, ts: int)
    ensures Fitting(OtpPredicates(ts))
    ensures forall i | 0 <= i < 5 ::
      Kept(OtpRows(rows), env, OtpPredicates(ts)[i]) == OtpsOf(rows, env, OTP_STATUSES[i], ts)
  {
    forall i | 0 <= i < 5
      ensures Holes(OtpPredicates(ts)[i].cond) == |OtpPredicates(ts)[i].args|
      ensures Kept(OtpRows(rows), env, OtpPredicates(ts)[i]) == OtpsOf(rows, env, OTP_STATUSES[i], ts)
    {
      OtpsKept(rows, env, OTP_STATUSES[i], ts);
    }
  }

  method CountTokensByStatus(rows: Tokens.Table, env: int, ts: int) returns (counts: seq<nat>)
    ensures |counts| == |TOKEN_STATUSES|
    ensures forall i | 0 <= i < |counts| :: counts[i] == |TokensOf(rows, env, TOKEN_STATUSES[i], ts)|
  {
    TokenFilters(rows, env, ts);
    counts := CountByPredicates(TokenRows(rows), TokenPredicates(ts), env);
  }

  method CountOtpsByStatus(rows: Otps.Table, env: int, ts: int) returns (counts: seq<nat>)
    ensures |counts| == |OTP_STATUSES|
    ensures forall i | 0 <= i < |counts| :: counts[i] == |OtpsOf(rows, env, OTP_STATUSES[i], ts)|
  {
    OtpFilters(rows, env, ts);
    counts := CountByPredicates(OtpRows(rows), OtpPredicates(ts), env);
  }

  /** A status filter selects exactly the rows of the environment with that status. */
  lemma TokensKept(rows: Tokens.Table, env: int, status: Tokens.Status, ts: int)
    ensures Holes(TokenPredicate(status, ts).cond) == |TokenPredicate(status, ts).args|
    ensures Kept(TokenRows(rows), env, TokenPredicate(status, ts)) == TokensOf(rows, env, status, ts)
  {
    forall t: Tokens.Token { TokenPredicateAgrees(t, status, ts); }
  }

  lemma OtpsKept(rows: Otps.Table, env: int, status: Otps.Status, ts: int)
    ensures Holes(OtpPredicate(status, ts).cond) == |OtpPredicate(status, ts).args|
    ensures Kept(OtpRows(rows), env, OtpPredicate(status, ts)) == OtpsOf(rows, env, status, ts)
  {
    forall o: Otps.Otp { OtpPredicateAgrees(o, status, ts); }
  }

  // ---- The statuses partition the rows ----------------------------------------------------------------

  function TokensOf(rows: Tokens.Table, env: int, status: Tokens.Status, ts: int): set<string> {
    set id | id in rows && rows[id].env == env && Tokens.StatusOf(rows[id], ts) == status
  }

  function OtpsOf(rows: Otps.Table, env: int, status: Otps.Status, ts: int): set<string> {
    set id | id in rows && rows[id].key.env == env && Otps.StatusOf(rows[id], ts) == status
  }

  /** Whatever the instant, the four counts add up to the tokens of the environment. */
  lemma TokenCountsAddUp(rows: Tokens.Table, env: int, ts: int)
    ensures |TokensOf(rows, env, Tokens.Active, ts)| + |TokensOf(rows, env, Tokens.Expired, ts)|
          + |TokensOf(rows, env, Tokens.Exhausted, ts)| + |TokensOf(rows, env, Tokens.Status.Revoked, ts)|
         == |set id | id in rows && rows[id].env == env|
  {
    var a, e := TokensOf(rows, env, Tokens.Active, ts), TokensOf(rows, env, Tokens.Expired, ts);
    var x, r := TokensOf(rows, env, Tokens.Exhausted, ts), TokensOf(rows, env, Tokens.Status.Revoked, ts);
    assert (set id | id in rows && rows[id].env == env) == a + e + (x + r);
  }

  /** And the five counts to the codes of the environment. */
  lemma OtpCountsAddUp(rows: Otps.Table, env: int, ts: int)
    ensures |OtpsOf(rows, env, Otps.Active, ts)| + |OtpsOf(rows, env, Otps.Consumed, ts)|
          + |OtpsOf(rows, env, Otps.Expired, ts)| + |OtpsOf(rows, env, Otps.Locked, ts)|
          + |OtpsOf(rows, env, Otps.Status.Revoked, ts)|
         == |set id | id in rows && rows[id].key.env == env|
  {
    var a, c := OtpsOf(rows, env, Otps.Active, ts), OtpsOf(rows, env, Otps.Consumed, ts);
    var e, l := OtpsOf(rows, env, Otps.Expired, ts), OtpsOf(rows, env, Otps.Locked, ts);
    var r := OtpsOf(rows, env, Otps.Status.Revoked, ts);
    assert (set id | id in rows && rows[id].key.env == env) == a + c + (e + l) + r;
  }
}
