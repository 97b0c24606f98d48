/** Breaking a migration file into statements. */
module SplitSql {
  import opened Text

  /** A finished piece of text becomes a statement unless it is blank. */
  function Flush(cur: string): seq<string> {
    if Trim(cur) == "" then [] else [Trim(cur)]
  }

  /** The lexer, between literals: `s` is what is left to read, `cur` the statement so far. */
  function Code(s: string, cur: string): seq<string>
    decreases |s|
  {
    if s == "" then Flush(cur)
    else if |s| >= 2 && s[0] == '-' && s[1] == '-' then Comment(s[2..], cur)
    else if s[0] == '\'' then Literal(s[1..], cur + "'")
    else if s[0] == ';' then Flush(cur) + Code(s[1..], "")
    else Code(s[1..], cur + [s[0]])
  }

  /** Inside a line comment, which is dropped up to its newline. */
  function Comment(s: string, cur: string): seq<string>
    decreases |s|
  {
    if s == "" then Flush(cur)
    else if s[0] == '\n' then Code(s[1..], cur + "\n")
    else Comment(s[1..], cur)
  }

  /** Inside a quoted literal, where '' is a quote and nothing else is special. */
  function Literal(s: string, cur: string): seq<string>
    decreases |s|
  {
    if s == "" then Flush(cur)
    else if s[0] != '\'' then Literal(s[1..], cur + [s[0]])
    else if |s| >= 2 && s[1] == '\'' then Literal(s[2..], cur + "''")
    else Code(s[1..], cur + "'")
  }

  /** Where the loop stands, by its two flags. */
  function Resume(s: string, cur: string, inStr: bool, inComment: bool): seq<string> {
    if inComment then Comment(s, cur) else if inStr then Literal(s, cur) else Code(s, cur)
  }

  /** The one-pass scanner over an index, two flags and a builder refines the lexer. */
  method SplitStatements(src: string) returns (out: seq<string>)
    ensures out == Code(src, "")
  {
    hide Trim;
    out := [];
    var cur, inStr, inComment := "", false, false;
    var i := 0;
    while i < |src|
      invariant 0 <= i <= |src|
      invariant !(inStr && inComment)
      invariant out + Resume(src[i..], cur, inStr, inComment) == Code(src, "")
    {
      var c := src[i];
      ghost var rest := src[i..];
      assert rest[0] == c && rest[1..] == src[i + 1..];
      if i + 1 < |src| { assert rest[1] == src[i + 1] && rest[2..] == src[i + 2..]; }
      if inComment {
        if c == '\n' {
          inComment := false;
          cur := cur + [c];
        }
      } else if inStr {
        if c == '\'' {
          if i + 1 < |src| && src[i + 1] == '\'' {
            i := i + 1;
            cur := cur + "''";
          } else {
            cur := cur + "'";
            inStr := false;
          }
        } else {
          cur := cur + [c];
        }
      } else if c == '-' && i + 1 < |src| && src[i + 1] == '-' {
        inComment := true;
        i := i + 1;
      } else if c == '\'' {
        inStr := true;
        cur := cur + [c];
      } else if c == ';' {
        var s := Trim(cur);
        if s != "" {
          out := out + [s];
        }
        cur := "";
      } else {
        cur := cur + [c];
      }
      i := i + 1;
    }
    var s := Trim(cur);
    if s != "" {
      out := out + [s];
    }
  }

  // ---- Splitting inverts joining --------------------------------------------------------------------

  /** Statement text: quotes balanced, no semicolon and no comment outside a literal. */
  predicate Clean(s: string)
    decreases |s|
  {
    if s == "" then true
    else if s[0] == '\'' then CleanLiteral(s[1..])
    else s[0] != ';' && !(|s| >= 2 && s[0] == '-' && s[1] == '-') && Clean(s[1..])
  }

  predicate CleanLiteral(s: string)
    decreases |s|
  {
    if s == "" then false
    else if s[0] != '\'' then CleanLiteral(s[1..])
    else if |s| >= 2 && s[1] == '\'' then CleanLiteral(s[2..])
    else Clean(s[1..])
  }

  /** What may stand between statements: white space and whole line comments. */
  predicate Gap(s: string)
    decreases |s|
  {
    if s == "" then true
    else if IsSpace(s[0]) then Gap(s[1..])
    else |s| >= 2 && s[0] == '-' && s[1] == '-' && CommentThenGap(s[2..])
  }

  predicate CommentThenGap(s: string)
    decreases |s|
  {
    s != "" && if s[0] == '\n' then Gap(s[1..]) else CommentThenGap(s[1..])
  }

  /** The text after `s` neither doubles a quote nor makes a comment with its end. */
  predicate Apart(s: string, rest: string) {
    s != "" && rest != "" && s[|s| - 1] == rest[0] ==> rest[0] != '\'' && rest[0] != '-'
  }

  lemma {:induction false} CodePassesClean(s: string, rest: string, cur: string)
    requires Clean(s) && Apart(s, rest)
    ensures Code(s + rest, cur) == Code(rest, cur + s)
    decreases |s|
  {
    var t := s + rest;
    if s == "" {
      assert t == rest && cur + s == cur;
    } else {
      assert t[0] == s[0] && t[1..] == s[1..] + rest;
      if |s| >= 2 { assert t[1] == s[1]; }
      if s[0] == '\'' {
        LiteralPassesClean(s[1..], rest, cur + "'");
        assert cur + "'" + s[1..] == cur + s;
      } else {
        assert !(|t| >= 2 && t[0] == '-' && t[1] == '-');
        CodePassesClean(s[1..], rest, cur + [s[0]]);
        assert cur + [s[0]] + s[1..] == cur + s;
      }
    }
  }

  lemma {:induction false} LiteralPassesClean(s: string, rest: string, cur: string)
    requires CleanLiteral(s) && Apart(s, rest)
    ensures Literal(s + rest, cur) == Code(rest, cur + s)
    decreases |s|
  {
    var t := s + rest;
    assert t[0] == s[0] && t[1..] == s[1..] + rest;
    if s[0] != '\'' {
      LiteralPassesClean(s[1..], rest, cur + [s[0]]);
      assert cur + [s[0]] + s[1..] == cur + s;
    } else if |s| >= 2 && s[1] == '\'' {
      assert t[1] == s[1] && t[2..] == s[2..] + rest;
      LiteralPassesClean(s[2..], rest, cur + "''");
      assert cur + "''" + s[2..] == cur + s;
    } else {
      if |s| >= 2 { assert t[1] == s[1]; }
      CodePassesClean(s[1..], rest, cur + "'");
      assert cur + "'" + s[1..] == cur + s;
    }
  }

  lemma {:induction false} CodePassesGap(gap: string, rest: string, cur: string) returns (space: string)
    requires Gap(gap)
    ensures AllSpace(space) && Code(gap + rest, cur) == Code(rest, cur + space)
    decreases |gap|
  {
    var t := gap + rest;
    if gap == "" {
      space := "";
      assert t == rest && cur + space == cur;
    } else if IsSpace(gap[0]) {
      assert t[0] == gap[0] && t[1..] == gap[1..] + rest;
      space := CodePassesGap(gap[1..], rest, cur + [gap[0]]);
      assert cur + [gap[0]] + space == cur + ([gap[0]] + space);
      space := [gap[0]] + space;
    } else {
      assert t[0] == '-' && t[1] == '-' && t[2..] == gap[2..] + rest;
      space := CommentPassesGap(gap[2..], rest, cur);
    }
  }

  lemma {:induction false} CommentPassesGap(gap: string, rest: string, cur: string) returns (space: string)
    requires CommentThenGap(gap)
    ensures AllSpace(space) && Comment(gap + rest, cur) == Code(rest, cur + space)
    decreases |gap|
  {
    var t := gap + rest;
    assert t[0] == gap[0] && t[1..] == gap[1..] + rest;
    if gap[0] == '\n' {
      space := CodePassesGap(gap[1..], rest, cur + "\n");
      assert cur + "\n" + space == cur + ("\n" + space);
      space := "\n" + space;
    } else {
      space := CommentPassesGap(gap[1..], rest, cur);
    }
  }

  lemma {:induction false} CommentPasses(comment: string, rest: string, cur: string)
    requires '\n' !in comment
    ensures Comment(comment + ("\n" + rest), cur) == Code(rest, cur + "\n")
  {
    var t := comment + ("\n" + rest);
    if comment == "" {
      assert t[0] == '\n' && t[1..] == rest;
    } else {
      assert t[0] == comment[0] && t[1..] == comment[1..] + ("\n" + rest);
      CommentPasses(comment[1..], rest, cur);
    }
  }

  lemma CommentGoes(a: string, comment: string, rest: string, cur: string)
    requires Clean(a) && (a != "" ==> a[|a| - 1] != '-') && '\n' !in comment
    ensures Code(a + ("--" + (comment + ("\n" + rest))), cur) == Code(rest, cur + a + "\n")
  {
    hide Literal, Clean, Flush;
    var body := comment + ("\n" + rest);
    CodePassesClean(a, "--" + body, cur);
    assert ("--" + body)[2..] == body;
    CommentPasses(comment, rest, cur + a);
  }

  lemma StatementEnds(s: string, rest: string, cur: string)
    requires Clean(s) && Trimmed(cur + s)
    ensures Code(s + (";" + rest), cur) == [cur + s] + Code(rest, "")
  {
    hide Literal, Clean, Comment;
    CodePassesClean(s, ";" + rest, cur);
    assert (";" + rest)[1..] == rest;
    FlushAfterGap("", cur + s);
    assert "" + "" + (cur + s) == cur + s;
  }

  /** A comment inside a statement goes, up to its newline, which stays and keeps the words apart. */
  lemma CommentInside(a: string, comment: string, b: string, rest: string)
    requires Clean(a) && (a != "" ==> a[|a| - 1] != '-') && '\n' !in comment
    requires Clean(b) && Trimmed(a + "\n" + b)
    ensures Code(a + ("--" + (comment + ("\n" + (b + (";" + rest))))), "") == [a + "\n" + b] + Code(rest, "")
  {
    hide Code, Clean, Trimmed;
    CommentGoes(a, comment, b + (";" + rest), "");
    assert "" + a + "\n" == a + "\n";
    StatementEnds(b, rest, a + "\n");
  }

  lemma {:induction false} OpenEnds(text: string, cur: string)
    ensures '\n' !in text ==> Comment(text, cur) == Flush(cur)
    ensures '\'' !in text ==> Literal(text, cur) == Flush(cur + text)
  {
    if text != "" {
      OpenEnds(text[1..], cur);
      OpenEnds(text[1..], cur + [text[0]]);
      assert cur + [text[0]] + text[1..] == cur + text;
    } else {
      assert cur + text == cur;
    }
  }

  /** A file may end inside a comment, which goes, or inside a literal, which is returned as it stands. */
  lemma FileMayEndOpen(a: string, text: string)
    requires Clean(a)
    ensures (a != "" ==> a[|a| - 1] != '-') && '\n' !in text ==> Code(a + ("--" + text), "") == Flush(a)
    ensures (a != "" ==> a[|a| - 1] != '\'') && '\'' !in text ==> Code(a + ("'" + text), "") == Flush(a + "'" + text)
  {
    assert "" + a == a;
    if (a != "" ==> a[|a| - 1] != '-') && '\n' !in text {
      CodePassesClean(a, "--" + text, "");
      assert ("--" + text)[2..] == text;
      OpenEnds(text, a);
    }
    if (a != "" ==> a[|a| - 1] != '\'') && '\'' !in text {
      CodePassesClean(a, "'" + text, "");
      assert ("'" + text)[1..] == text;
      OpenEnds(text, a + "'");
    }
  }

  /** A file: each statement after its gap and before a semicolon, and a gap at the end. */
  datatype Section = Section(gap: string, stmt: string)

  function Join(file: seq<Section>, tail: string): string {
    if file == [] then tail
    else file[0].gap + (file[0].stmt + (";" + Join(file[1..], tail)))
  }

  predicate WellFormed(file: seq<Section>, tail: string) {
    Gap(tail) && forall x | x in file :: Gap(x.gap) && Clean(x.stmt) && Trimmed(x.stmt)
  }

  function Statements(file: seq<Section>): seq<string> {
    if file == [] then [] else [file[0].stmt] + Statements(file[1..])
  }

  lemma FlushAfterGap(space: string, s: string)
    requires AllSpace(space) && (s == "" || Trimmed(s))
    ensures Flush("" + space + s) == if s == "" then [] else [s]
  {
    assert "" + space + s == space + s;
    TrimAfterSpace(space, s);
  }

  /** Any list of trimmed, non-empty statements with balanced quotes comes back exactly, whatever white
      space and comments stand around them, and whatever semicolons, dashes and doubled quotes stand
      inside their literals. */
  lemma {:induction false} SplitInvertsJoin(file: seq<Section>, tail: string)
    requires WellFormed(file, tail)
    ensures Code(Join(file, tail), "") == Statements(file)
  {
    if file == [] {
      var space := CodePassesGap(tail, "", "");
      assert tail + "" == tail && "" + space + "" == "" + space;
      FlushAfterGap(space, "");
    } else {
      var x := file[0];
      assert x in file;
      var after := ";" + Join(file[1..], tail);
      var space := CodePassesGap(x.gap, x.stmt + after, "");
      CodePassesClean(x.stmt, after, "" + space);
      FlushAfterGap(space, x.stmt);
      assert after[1..] == Join(file[1..], tail);
      SplitInvertsJoin(file[1..], tail);
    }
  }

  /** The last statement of a file needs no semicolon. */
  lemma {:induction false} LastNeedsNoSemicolon(file: seq<Section>, last: Section)
    requires WellFormed(file, "") && WellFormed([last], "")
    ensures Code(Join(file, last.gap + last.stmt), "") == Statements(file) + [last.stmt]
    decreases file
  {
    assert last in [last];
    if file == [] {
      var space := CodePassesGap(last.gap, last.stmt, "");
      assert last.stmt + "" == last.stmt;
      CodePassesClean(last.stmt, "", "" + space);
      FlushAfterGap(space, last.stmt);
    } else {
      var x := file[0];
      assert x in file;
      var after := ";" + Join(file[1..], last.gap + last.stmt);
      var space := CodePassesGap(x.gap, x.stmt + after, "");
      CodePassesClean(x.stmt, after, "" + space);
      FlushAfterGap(space, x.stmt);
      assert after[1..] == Join(file[1..], last.gap + last.stmt);
      LastNeedsNoSemicolon(file[1..], last);
      assert Statements(file) + [last.stmt] == [x.stmt] + (Statements(file[1..]) + [last.stmt]);
    }
  }
}
