/** The few string routines the service leans on: trimming, cutting, and decimal integers of 64 bits. */
module Text {
  import opened Common

  const MIN_INT64: int := -0x8000_0000_0000_0000

  const MAX_INT64: int := 0x7fff_ffff_ffff_ffff

  predicate IsInt64(n: int) { MIN_INT64 <= n <= MAX_INT64 }

  /** Unicode White_Space, what strings.TrimSpace removes. */
  predicate IsSpace(c: char) {
    || '\t' <= c <= '\r' || c == ' ' || c == '\U{0085}' || c == '\U{00A0}' || c == '\U{1680}'
    || '\U{2000}' <= c <= '\U{200A}' || c == '\U{2028}' || c == '\U{2029}' || c == '\U{202F}'
    || c == '\U{205F}' || c == '\U{3000}'
  }

  function TrimLeft(s: string): string {
    if s != [] && IsSpace(s[0]) then TrimLeft(s[1..]) else s
  }

  function TrimRight(s: string): string {
    if s != [] && IsSpace(s[|s| - 1]) then TrimRight(s[..|s| - 1]) else s
  }

  function Trim(s: string): string { TrimRight(TrimLeft(s)) }

  /** Neither empty nor with space at either end. */
  predicate Trimmed(s: string) {
    s != [] && !IsSpace(s[0]) && !IsSpace(s[|s| - 1])
  }

  predicate AllSpace(s: string) { forall c | c in s :: IsSpace(c) }

  lemma {:induction false} TrimLeftDrops(space: string, s: string)
    requires AllSpace(space)
    ensures TrimLeft(space + s) == TrimLeft(s)
  {
    if space == [] {
      assert space + s == s;
    } else {
      assert (space + s)[1..] == space[1..] + s;
      TrimLeftDrops(space[1..], s);
    }
  }

  lemma TrimAfterSpace(space: string, s: string)
    requires AllSpace(space) && (s == [] || Trimmed(s))
    ensures Trim(space + s) == s
  {
    TrimLeftDrops(space, s);
  }

  /** strings.Cut: the parts around the first separator, if there is one. */
  function Cut(s: string, sep: char): Option<(string, string)> {
    if s == [] then None
    else if s[0] == sep then Some(([], s[1..]))
    else
      match Cut(s[1..], sep)
      case None => None
      case Some((a, b)) => Some(([s[0]] + a, b))
  }

  lemma {:induction false} CutIs(s: string, sep: char)
    ensures Cut(s, sep).None? <==> sep !in s
    ensures Cut(s, sep).Some? ==> var (a, b) := Cut(s, sep).value; s == a + [sep] + b && sep !in a
  {
    if s != [] && s[0] != sep {
      CutIs(s[1..], sep);
      assert s == [s[0]] + s[1..];
    }
  }

  lemma {:induction false} CutAtFirst(a: string, sep: char, b: string)
    requires sep !in a
    ensures Cut(a + [sep] + b, sep) == Some((a, b))
  {
    var s := a + [sep] + b;
    if a == [] {
      assert s[1..] == b;
    } else {
      assert s[1..] == a[1..] + [sep] + b && [a[0]] + a[1..] == a && s[0] == a[0];
      CutAtFirst(a[1..], sep, b);
    }
  }

  // ---- Decimal integers --------------------------------------------------------------------------

  predicate IsDigit(c: char) { '0' <= c <= '9' }

  function Digit(n: nat): char
    requires n < 10
  {
    '0' + n as char
  }

  function Digits(n: nat): string {
    if n < 10 then [Digit(n)] else Digits(n / 10) + [Digit(n % 10)]
  }

  predicate AllDigits(s: string) { forall c | c in s :: IsDigit(c) }

  function Value(s: string): nat
    requires AllDigits(s)
  {
    if s == [] then 0 else
      assert s[|s| - 1] in s;
      Value(s[..|s| - 1]) * 10 + (s[|s| - 1] as int - '0' as int)
  }

  /** strconv.FormatInt(n, 10). */
  function FormatInt(n: int): string {
    if n < 0 then "-" + Digits(-n) else Digits(n)
  }

  /** strconv.ParseInt(s, 10, 64); None for a syntax error or a value out of range. */
  function ParseInt(s: string): (r: Option<int>)
    ensures r.Some? ==> IsInt64(r.value)
  {
    var signed := s != [] && (s[0] == '-' || s[0] == '+');
    var body := if signed then s[1..] else s;
    if body == [] || !AllDigits(body) then None
    else
      var n: int := Value(body) * if signed && s[0] == '-' then -1 else 1;
      if IsInt64(n) then Some(n) else None
  }

  lemma {:induction false} DigitsValue(n: nat)
    ensures Digits(n) != [] && AllDigits(Digits(n)) && Value(Digits(n)) == n
  {
    if n >= 10 {
      DigitsValue(n / 10);
      var s := Digits(n);
      assert s[..|s| - 1] == Digits(n / 10);
    } else {
      assert Digits(n)[..0] == [];
    }
  }

  lemma DigitsLook(n: nat)
    ensures forall c | c in Digits(n) :: IsDigit(c)
    ensures Trimmed(Digits(n)) && '.' !in Digits(n) && Digits(n)[0] != '-' && Digits(n)[0] != '+'
  {
    DigitsValue(n);
    var s := Digits(n);
    assert s[0] in s && s[|s| - 1] in s;
  }

  /** Every 64-bit integer reads back from its decimal form, which holds no dot and no space. */
  lemma FormatParses(n: int)
    requires IsInt64(n)
    ensures ParseInt(FormatInt(n)) == Some(n)
    ensures '.' !in FormatInt(n) && Trimmed(FormatInt(n))
  {
    var m: nat := if n < 0 then -n else n;
    var s := Digits(m);
    DigitsValue(m);
    DigitsLook(m);
    if n < 0 {
      assert FormatInt(n) == ['-'] + s && (['-'] + s)[1..] == s;
    }
  }

  predicate AllZeros(s: string) { forall i | 0 <= i < |s| :: s[i] == '0' }

  /** Leading zeros do not count. */
  lemma {:induction false} ZerosValue(zeros: string, n: nat)
    requires AllZeros(zeros)
    ensures AllDigits(zeros + Digits(n)) && Value(zeros + Digits(n)) == n
  {
    var s := zeros + Digits(n);
    DigitsValue(n);
    if n >= 10 {
      ZerosValue(zeros, n / 10);
      assert s[..|s| - 1] == zeros + Digits(n / 10);
    } else if zeros != [] {
      ZerosValue(zeros[1..], 0);
      assert s[..|s| - 1] == zeros && zeros[1..] + Digits(0) == zeros by {
        assert zeros[1..] + ['0'] == zeros;
      }
    } else {
      assert s == Digits(n);
    }
  }

  /** Any digits are zeros followed by the decimal form of their value. */
  lemma {:induction false} DigitsAre(s: string) returns (zeros: string)
    requires s != [] && AllDigits(s)
    ensures AllZeros(zeros) && s == zeros + Digits(Value(s))
  {
    var init, c := s[..|s| - 1], s[|s| - 1];
    assert c in s && IsDigit(c) && Digit(c as int - '0' as int) == c;
    if init == [] {
      zeros := [];
    } else {
      zeros := DigitsAre(init);
      if Value(init) == 0 {
        zeros := zeros + ['0'];
      }
    }
    assert s == init + [c];
  }

  /** An optional sign, leading zeros and the decimal form. */
  predicate Spells(s: string, zeros: string, n: int) {
    var body := zeros + Digits(if n < 0 then -n else n);
    AllZeros(zeros) && ((n >= 0 && (s == body || s == "+" + body)) || (n <= 0 && s == "-" + body))
  }

  lemma SpelledIsRead(s: string, zeros: string, n: int)
    requires Spells(s, zeros, n)
    ensures ParseInt(s) == if IsInt64(n) then Some(n) else None
  {
    hide Digits, Value;
    var m: nat := if n < 0 then -n else n;
    var body := zeros + Digits(m);
    ZerosValue(zeros, m);
    DigitsLook(m);
    assert body[0] in body && ("+" + body)[1..] == body && ("-" + body)[1..] == body;
  }

  lemma ReadIsSpelled(s: string, n: int) returns (zeros: string)
    requires ParseInt(s) == Some(n)
    ensures Spells(s, zeros, n)
  {
    hide Digits, Value;
    var body := if s[0] == '-' || s[0] == '+' then s[1..] else s;
    zeros := DigitsAre(body);
    assert s == "-" + body || s == "+" + body || s == body;
  }

  /** What reads as `n` is exactly what spells it, for the integers of 64 bits. */
  lemma ParseIntIsExact(s: string, n: int)
    ensures ParseInt(s) == Some(n) <==>
      -9223372036854775808 <= n <= 9223372036854775807 && exists zeros :: Spells(s, zeros, n)
  {
    if ParseInt(s) == Some(n) {
      var zeros := ReadIsSpelled(s, n);
    }
    if zeros :| Spells(s, zeros, n) {
      SpelledIsRead(s, zeros, n);
    }
  }
}
