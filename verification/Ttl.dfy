/** Lifetime arithmetic in 64-bit integers: a duration is a count of nanoseconds that wraps when it
    overflows, and the guards are there to see that it never does. */
module Ttl {
  import opened Common
  import opened Text

  const SECOND: int := 1_000_000_000

  const HOUR: int := 3600 * SECOND

  datatype Unit = Unit(name: string, singular: string, plural: string, seconds: int)

  const UNITS: seq<Unit> := [
    Unit("second", "second", "seconds", 1),
    Unit("minute", "minute", "minutes", 60),
    Unit("hour", "hour", "hours", 3600),
    Unit("day", "day", "days", 86400)
  ]

  /** Two's complement wrap-around of a 64-bit result. */
  function Wrap(n: int): (r: int)
    ensures IsInt64(r)
    ensures IsInt64(n) ==> r == n
  {
    (n - MIN_INT64) % 0x1_0000_0000_0000_0000 + MIN_INT64
  }

  /** Division of 64-bit integers truncates toward zero. */
  function Quot(a: int, b: int): int
    requires b > 0
  {
    if a >= 0 then a / b else -((-a) / b)
  }

  /** The whole seconds in a duration. */
  function Seconds(d: int): int { Quot(d, SECOND) }

  method LookupUnit(name: string) returns (r: Option<Unit>)
    ensures r.Some? ==> r.value in UNITS && r.value.name == name
    ensures r.None? ==> forall u | u in UNITS :: u.name != name
    ensures r == FindUnit(name)
  {
    for i := 0 to |UNITS|
      invariant forall j | 0 <= j < i :: UNITS[j].name != name
    {
      if UNITS[i].name == name {
        return Some(UNITS[i]);
      }
    }
    return None;
  }

  function FindUnit(name: string): Option<Unit> {
    if name == "second" then Some(UNITS[0])
    else if name == "minute" then Some(UNITS[1])
    else if name == "hour" then Some(UNITS[2])
    else if name == "day" then Some(UNITS[3])
    else None
  }

  datatype Error = LifetimeRequired | UnknownUnit | AboveCeiling | TtlRequired

  function Parse(value: string, unit: string, ceiling: int): Result<int, Error> {
    match ParseInt(Trim(value))
    case None => Err(LifetimeRequired)
    case Some(n) =>
      if n < 1 then Err(LifetimeRequired)
      else
        match FindUnit(unit)
        case None => Err(UnknownUnit)
        case Some(u) =>
          if n > Quot(Seconds(ceiling), u.seconds) then Err(AboveCeiling)
          else Ok(Wrap(Wrap(n * u.seconds) * SECOND))
  }

  lemma MulKeepsOrder(a: int, b: int, c: int)
    requires a <= b && c > 0
    ensures a * c <= b * c
  {
  }

  lemma QuotBounds(a: int, b: int, n: int)
    requires b > 0 && n >= 1
    ensures n <= Quot(a, b) <==> n * b <= a
  {
    MulKeepsOrder(1, n, b);
    if a >= 0 {
      var q := a / b;
      assert q * b <= a < (q + 1) * b;
      if n <= q { MulKeepsOrder(n, q, b); } else { MulKeepsOrder(q + 1, n, b); }
    } else {
      assert (-a) / b >= 0;
    }
  }

  /** A pair is accepted exactly when the count is a positive 64-bit integer, the unit is known and the
      mathematical product is within the ceiling in whole seconds; nothing wraps on the way, and the
      result is the exact product and no more than the ceiling. */
  lemma ParseIsExact(value: string, unit: string, ceiling: int)
    requires IsInt64(ceiling)
    ensures var r, n, u := Parse(value, unit, ceiling), ParseInt(Trim(value)), FindUnit(unit);
      && (r.Ok? <==> n.Some? && n.value >= 1 && u.Some? && n.value * u.value.seconds <= Seconds(ceiling))
      && (r.Ok? ==> r.value == n.value * u.value.seconds * 1_000_000_000 <= ceiling)
      && (r.Err? ==>
            r.error == (if n.None? || n.value < 1 then LifetimeRequired
                        else if u.None? then UnknownUnit else AboveCeiling))
    ensures FindUnit(unit).Some? <==> unit in ["second", "minute", "hour", "day"]
    ensures FindUnit(unit).Some? ==>
      FindUnit(unit).value.seconds == (if unit == "second" then 1 else if unit == "minute" then 60
                                       else if unit == "hour" then 3600 else 86400)
  {
    var n, u := ParseInt(Trim(value)), FindUnit(unit);
    if n.Some? && n.value >= 1 && u.Some? {
      QuotBounds(Seconds(ceiling), u.value.seconds, n.value);
      var product := n.value * u.value.seconds;
      if product <= Seconds(ceiling) {
        QuotBounds(ceiling, SECOND, product);
        assert 1 <= product && product * SECOND <= ceiling;
      }
    }
  }

  // ---- Human ---------------------------------------------------------------------------------------

  /** The largest unit that divides a positive number of seconds. */
  function LargestUnit(seconds: int): Unit
    requires seconds >= 1
  {
    if seconds % 86400 == 0 then UNITS[3]
    else if seconds % 3600 == 0 then UNITS[2]
    else if seconds % 60 == 0 then UNITS[1]
    else UNITS[0]
  }

  function Render(n: int, u: Unit): string {
    if n == 1 then "1 " + u.singular else FormatInt(n) + " " + u.plural
  }

  /** Searches the table from its end, as the panel prints it. */
  method Human(d: int) returns (text: string)
    ensures Seconds(d) <= 0 ==> text == "0 seconds"
    ensures Seconds(d) >= 1 ==> var u := LargestUnit(Seconds(d)); text == Render(Seconds(d) / u.seconds, u)
  {
    var seconds := Seconds(d);
    if seconds <= 0 {
      return "0 seconds";
    }
    var i := |UNITS| - 1;
    while i >= 0
      invariant -1 <= i < |UNITS|
      invariant forall j | i < j < |UNITS| :: seconds % UNITS[j].seconds != 0
    {
      var u := UNITS[i];
      if seconds % u.seconds == 0 {
        return Render(seconds / u.seconds, u);
      }
      i := i - 1;
    }
    return FormatInt(seconds) + " seconds";
  }

  lemma LargestUnitDivides(seconds: int)
    requires seconds >= 1
    ensures var u := LargestUnit(seconds);
      && u in UNITS && FindUnit(u.name) == Some(u)
      && (seconds / u.seconds) * u.seconds == seconds
      && 1 <= seconds / u.seconds <= seconds
      && (forall v | v in UNITS && seconds % v.seconds == 0 :: v.seconds <= u.seconds)
  {
    var u := LargestUnit(seconds);
    assert u == UNITS[0] || u == UNITS[1] || u == UNITS[2] || u == UNITS[3];
  }

  /** The text shown for a duration is a count and a unit, which typed back into the form give the same
      whole seconds; no larger unit would have. */
  lemma HumanParsesBack(d: int, ceiling: int)
    requires IsInt64(d) && IsInt64(ceiling) && Seconds(d) >= 1 && d <= ceiling
    ensures var u := LargestUnit(Seconds(d)); var n := Seconds(d) / u.seconds;
      && Parse(FormatInt(n), u.name, ceiling) == Ok(Seconds(d) * SECOND)
      && (forall v | v in UNITS && Seconds(d) % v.seconds == 0 :: v.seconds <= u.seconds)
      && Cut(Render(n, u), ' ') == Some((FormatInt(n), if n == 1 then u.name else u.name + "s"))
  {
    var seconds := Seconds(d);
    LargestUnitDivides(seconds);
    QuotBounds(d, SECOND, seconds);
    QuotBounds(ceiling, SECOND, seconds);
    var u := LargestUnit(seconds);
    CountParses(seconds / u.seconds, u, ceiling);
    RenderedParts(seconds / u.seconds, u);
  }

  /** The text is the count, a space and the unit, in the singular for one. */
  lemma RenderedParts(n: int, u: Unit)
    requires IsInt64(n) && n >= 1 && u in UNITS
    ensures Cut(Render(n, u), ' ') == Some((FormatInt(n), if n == 1 then u.name else u.name + "s"))
  {
    DigitsLook(n);
    var word := if n == 1 then u.name else u.name + "s";
    UnitWords(u);
    assert n == 1 ==> FormatInt(n) == "1";
    CutAtFirst(FormatInt(n), ' ', word);
    assert Render(n, u) == FormatInt(n) + [' '] + word;
  }

  lemma UnitWords(u: Unit)
    requires u in UNITS
    ensures u.singular == u.name && u.plural == u.name + "s"
  {
    assert u == UNITS[0] || u == UNITS[1] || u == UNITS[2] || u == UNITS[3];
    assert "seconds" == "second" + "s" && "minutes" == "minute" + "s";
    assert "hours" == "hour" + "s" && "days" == "day" + "s";
  }

  lemma CountParses(n: int, u: Unit, ceiling: int)
    requires IsInt64(n) && n >= 1 && FindUnit(u.name) == Some(u) && IsInt64(ceiling)
    requires n * u.seconds <= Seconds(ceiling)
    ensures Parse(FormatInt(n), u.name, ceiling) == Ok(n * u.seconds * SECOND)
  {
    FormatParses(n);
    TrimAfterSpace([], FormatInt(n));
    assert [] + FormatInt(n) == FormatInt(n);
    ParseIsExact(FormatInt(n), u.name, ceiling);
  }

  // ---- Limits --------------------------------------------------------------------------------------

  /** The two deployments of the same rule: tokens may live ten years at most, codes one day. */
  datatype Bounds = Bounds(default: int, absolute: int)

  type Policy = b: Bounds | 0 < b.default <= b.absolute && IsInt64(b.absolute) witness Bounds(1, 1)

  const TOKENS: Policy := Bounds(90 * 24 * HOUR, 10 * 365 * 24 * HOUR)

  const CODES: Policy := Bounds(HOUR, 24 * HOUR)

  function NewLimits(p: Policy, maxTtl: int): int {
    var m := if maxTtl <= 0 then p.default else maxTtl;
    if m > p.absolute then p.absolute else m
  }

  function Ceiling(p: Policy, maxTtl: int): int {
    if maxTtl > p.absolute || maxTtl <= 0 then p.absolute else maxTtl
  }

  function ValidateTtl(p: Policy, maxTtl: int, seconds: int): Result<int, Error> {
    if seconds <= 0 then Err(TtlRequired)
    else if seconds > Seconds(Ceiling(p, maxTtl)) then Err(AboveCeiling)
    else Ok(Wrap(seconds * SECOND))
  }

  /** What a configured limit comes to: unset, tokens may live 90 days and codes an hour; set, it is cut
      at ten years and at a day. */
  lemma LongestLifetimes(maxTtl: int)
    ensures Ceiling(TOKENS, NewLimits(TOKENS, maxTtl)) ==
      if maxTtl <= 0 then 7_776_000_000_000_000
      else if maxTtl <= 315_360_000_000_000_000 then maxTtl
      else 315_360_000_000_000_000
    ensures Ceiling(CODES, NewLimits(CODES, maxTtl)) ==
      if maxTtl <= 0 then 3_600_000_000_000
      else if maxTtl <= 86_400_000_000_000 then maxTtl
      else 86_400_000_000_000
  {
  }

  /** The API and the form accept the same lifetimes: a whole number of seconds from one up to the
      ceiling, turned into exactly that duration. Configuring a limit and reading it back agree. */
  lemma ApiAndFormAgree(p: Policy, maxTtl: int, seconds: int)
    requires IsInt64(maxTtl) && IsInt64(seconds)
    ensures var c := Ceiling(p, maxTtl); var r := ValidateTtl(p, maxTtl, seconds);
      && 0 < c <= p.absolute
      && (r.Ok? <==> 1 <= seconds <= Seconds(c))
      && (r.Ok? ==> r.value == seconds * 1_000_000_000 <= c)
      && (r.Err? ==> r.error == if seconds <= 0 then TtlRequired else AboveCeiling)
      && (r.Ok? <==> Parse(FormatInt(seconds), "second", c).Ok?)
      && (r.Ok? ==> r == Parse(FormatInt(seconds), "second", c))
    ensures Ceiling(p, NewLimits(p, maxTtl)) == NewLimits(p, maxTtl)
  {
    var c := Ceiling(p, maxTtl);
    FormatParses(seconds);
    TrimAfterSpace([], FormatInt(seconds));
    assert [] + FormatInt(seconds) == FormatInt(seconds);
    ParseIsExact(FormatInt(seconds), "second", c);
    if seconds >= 1 {
      QuotBounds(c, SECOND, seconds);
    }
  }
}
