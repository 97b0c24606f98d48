/** The LIKE operator as SQLite evaluates it with `ESCAPE '\'`, and the escaping of a search term. */
module Like {

  /** ASCII letters compare without case; everything else exactly. */
  function Fold(c: char): char {
    if 'A' <= c <= 'Z' then (c as int + 32) as char else c
  }

  predicate SameChar(a: char, b: char) { Fold(a) == Fold(b) }

  /** Two characters are told apart unless they are equal or the two cases of one ASCII letter. */
  lemma SameCharIs(a: char, b: char)
    ensures SameChar(a, b) <==>
      || a == b
      || ('A' <= a <= 'Z' && b as int == a as int + 32)
      || ('A' <= b <= 'Z' && a as int == b as int + 32)
  {
  }

  predicate Matches(pattern: string, x: string)
    decreases |pattern| + |x|
  {
    if pattern == "" then x == ""
    else if pattern[0] == '%' then
      Matches(pattern[1..], x) || (x != "" && Matches(pattern, x[1..]))
    else if pattern[0] == '\\' then
      |pattern| >= 2 && x != "" && SameChar(pattern[1], x[0]) && Matches(pattern[2..], x[1..])
    else if pattern[0] == '_' then
      x != "" && Matches(pattern[1..], x[1..])
    else
      x != "" && SameChar(pattern[0], x[0]) && Matches(pattern[1..], x[1..])
  }

  /** Backslash, percent and underscore each get a backslash, in one pass. */
  function EscapeLike(s: string): string {
    if s == "" then ""
    else (if s[0] in "\\%_" then ['\\', s[0]] else [s[0]]) + EscapeLike(s[1..])
  }

  /** The term stands in `x` at position `i`, up to ASCII case. */
  predicate OccursAt(x: string, s: string, i: nat) {
    i + |s| <= |x| && forall j | 0 <= j < |s| :: SameChar(s[j], x[i + j])
  }

  lemma {:induction false} PercentMatchesAll(x: string)
    ensures Matches("%", x)
  {
    if x != "" { PercentMatchesAll(x[1..]); }
    assert "%"[1..] == "";
  }

  lemma OccursCons(x: string, s: string)
    requires s != ""
    ensures OccursAt(x, s, 0) <==> x != "" && SameChar(s[0], x[0]) && OccursAt(x[1..], s[1..], 0)
  {
    if x != "" && SameChar(s[0], x[0]) && OccursAt(x[1..], s[1..], 0) {
      forall j | 0 <= j < |s| ensures SameChar(s[j], x[j]) {
        if j > 0 { assert SameChar(s[1..][j - 1], x[1..][j - 1]); }
      }
    }
  }

  lemma OccursShift(x: string, s: string, i: nat)
    requires x != ""
    ensures OccursAt(x, s, i + 1) <==> OccursAt(x[1..], s, i)
  {
    assert forall j | i <= j < |x| - 1 :: x[1..][j] == x[j + 1];
    if OccursAt(x, s, i + 1) {
      forall j | 0 <= j < |s| ensures SameChar(s[j], x[1..][i + j]) {
        assert SameChar(s[j], x[i + 1 + j]);
      }
    }
  }

  /** An escaped term followed by a percent matches exactly the strings that start with the term. */
  lemma {:induction false} EscapedPrefix(s: string, x: string)
    ensures Matches(EscapeLike(s) + "%", x) <==> OccursAt(x, s, 0)
  {
    if s == "" {
      assert EscapeLike(s) + "%" == "%";
      PercentMatchesAll(x);
    } else {
      var tail := EscapeLike(s[1..]) + "%";
      var pattern := EscapeLike(s) + "%";
      OccursCons(x, s);
      if x != "" { EscapedPrefix(s[1..], x[1..]); }
      if s[0] in "\\%_" {
        assert pattern == ['\\', s[0]] + tail && pattern[2..] == tail;
      } else {
        assert pattern == [s[0]] + tail && pattern[1..] == tail;
      }
    }
  }

  /** The filter the listing builds matches an identifier exactly when the typed term occurs in it, up
      to ASCII case, whatever wildcards or backslashes the term holds. */
  lemma {:induction false} SearchIsSubstring(s: string, x: string)
    ensures Matches("%" + EscapeLike(s) + "%", x) <==> exists i | 0 <= i <= |x| :: OccursAt(x, s, i)
  {
    var pattern := "%" + EscapeLike(s) + "%";
    assert pattern[1..] == EscapeLike(s) + "%";
    EscapedPrefix(s, x);
    if x != "" {
      SearchIsSubstring(s, x[1..]);
      if i :| 0 <= i <= |x| - 1 && OccursAt(x[1..], s, i) {
        OccursShift(x, s, i);
      }
      if i :| 0 < i <= |x| && OccursAt(x, s, i) {
        OccursShift(x, s, i - 1);
      }
    }
  }
}
