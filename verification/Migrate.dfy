/** Applying the embedded migrations, each in its own transaction, in runs that may be cut short. */
module Migrate {
  import SplitSql

  datatype File = File(name: string, content: string)

  function Statements(f: File): seq<string> { SplitSql.Code(f.content, "") }

  /** What is committed: the statements executed so far and the rows of schema_migrations. */
  datatype Schema = Schema(executed: seq<string>, applied: seq<string>)

  predicate DistinctNames(files: seq<File>) {
    forall i, j | 0 <= i < j < |files| :: files[i].name != files[j].name
  }

  function Names(files: seq<File>): seq<string> {
    if files == [] then [] else Names(files[..|files| - 1]) + [files[|files| - 1].name]
  }

  function Script(files: seq<File>): seq<string> {
    if files == [] then [] else Script(files[..|files| - 1]) + Statements(files[|files| - 1])
  }

  /** The files a run has to apply, in order. */
  function Missing(files: seq<File>, applied: seq<string>): seq<File> {
    if files == [] then []
    else
      var last := files[|files| - 1];
      Missing(files[..|files| - 1], applied) + if last.name in applied then [] else [last]
  }

  /** The schema after a run that committed the first `n` of its transactions. */
  function Committed(s: Schema, todo: seq<File>): Schema {
    Schema(s.executed + Script(todo), s.applied + Names(todo))
  }

  /** The connection the migrations run on. A transaction buffers its writes until it commits. */
  class Connection {
    var schema: Schema

    constructor ()
      ensures schema == Schema([], [])
    {
      schema := Schema([], []);
    }

    /** One file in its own transaction: its statements, then its row in schema_migrations. Each takes
        one of the `budget` the process has before it dies or the database refuses; a transaction that
        does not get through is rolled back. */
    method ApplyFile(file: File, budget: nat) returns (ok: bool, left: nat)
      modifies this
      ensures ok == (budget > |Statements(file)|)
      ensures ok ==> left == budget - |Statements(file)| - 1
      ensures schema == if ok then Committed(old(schema), [file]) else old(schema)
      ensures ok ==>
        schema == Schema(old(schema).executed + Statements(file), old(schema).applied + [file.name])
    {
      left := budget;
      var pending := schema;
      var statements := SplitSql.SplitStatements(file.content);
      for j := 0 to |statements|
        invariant left == budget - j
        invariant schema == old(schema)
        invariant pending == Schema(schema.executed + statements[..j], schema.applied)
      {
        if left == 0 {
          return false, 0;
        }
        left := left - 1;
        pending := pending.(executed := pending.executed + [statements[j]]);
      }
      if left == 0 {
        return false, 0;
      }
      left := left - 1;
      assert Script([file]) == Statements(file) && Names([file]) == [file.name] by {
        assert [file][..0] == [];
      }
      schema := pending.(applied := pending.applied + [file.name]);
      ok := true;
    }

    /** One run over the files in name order. */
    method Migrate(files: seq<File>, budget: nat) returns (ok: bool)
      requires DistinctNames(files)
      modifies this
      ensures exists n :: OneRun(files, old(schema), n, schema)
      ensures ok ==> OneRun(files, old(schema), |Missing(files, old(schema).applied)|, schema)
      ensures budget >= |Script(files)| + |files| ==> ok
    {
      ghost var start := schema;
      var left: nat := budget;
      assert Committed(start, []) == start;
      for i := 0 to |files|
        invariant schema == Committed(start, Missing(files[..i], start.applied))
        invariant left + |Script(files[..i])| + i >= budget
      {
        ghost var todo := Missing(files[..i], start.applied);
        SeqStep(files, i);
        MissingNames(files[..i], start.applied, files[i].name);
        MissingStep(files, i, start.applied);
        if files[i].name in schema.applied {
          continue;
        }
        var done, rest := ApplyFile(files[i], left);
        if !done {
          StoppedRun(files, i, start);
          ScriptGrows(files, i);
          return false;
        }
        left := rest;
        CommittedAppend(start, todo, files[i]);
      }
      assert files[..|files|] == files;
      StoppedRun(files, |files|, start);
      return true;
    }
  }

  /** A run that commits the first `n` of the transactions it has to. */
  predicate OneRun(files: seq<File>, before: Schema, n: nat, after: Schema) {
    var todo := Missing(files, before.applied);
    n <= |todo| && after == Committed(before, todo[..n])
  }

  /** What a run leaves is one more entry in the list of interrupted runs. */
  lemma OneMoreRun(files: seq<File>, counts: seq<nat>, n: nat, after: Schema)
    requires OneRun(files, AfterRuns(files, counts), n, after)
    ensures after == AfterRuns(files, counts + [n])
  {
    assert (counts + [n])[..|counts|] == counts;
  }

  lemma StoppedRun(files: seq<File>, i: nat, start: Schema)
    requires i <= |files|
    ensures var n := |Missing(files[..i], start.applied)|;
      && OneRun(files, start, n, Committed(start, Missing(files[..i], start.applied)))
      && (i == |files| ==> n == |Missing(files, start.applied)|)
  {
    MissingPrefix(files, i, start.applied);
    var todo := Missing(files[..i], start.applied);
    assert Missing(files, start.applied)[..|todo|] == todo;
    if i == |files| { assert files[..i] == files; }
  }

  lemma SeqStep(files: seq<File>, i: nat)
    requires i < |files|
    ensures files[..i + 1][..i] == files[..i] && files[..i + 1][i] == files[i]
    ensures DistinctNames(files) ==> files[i].name !in Names(files[..i])
  {
    if DistinctNames(files) { NamesAre(files[..i], files[i].name); }
  }

  lemma MissingStep(files: seq<File>, i: nat, applied: seq<string>)
    requires i < |files|
    ensures Script(files[..i + 1]) == Script(files[..i]) + Statements(files[i])
    ensures Missing(files[..i + 1], applied)
         == if files[i].name in applied then Missing(files[..i], applied) else Missing(files[..i], applied) + [files[i]]
  {
    SeqStep(files, i);
  }

  lemma {:induction false} NamesAre(files: seq<File>, name: string)
    ensures name in Names(files) <==> exists f | f in files :: f.name == name
  {
    if files != [] {
      var n := |files| - 1;
      NamesAre(files[..n], name);
      assert files == files[..n] + [files[n]];
    }
  }

  /** A name is among those to apply only if it is in the files and was not applied. */
  lemma {:induction false} MissingNames(files: seq<File>, applied: seq<string>, name: string)
    ensures name in Names(Missing(files, applied)) <==> name in Names(files) && name !in applied
  {
    if files != [] {
      var n := |files| - 1;
      MissingNames(files[..n], applied, name);
      var todo := Missing(files[..n], applied);
      if files[n].name !in applied {
        assert Missing(files, applied)[..|todo|] == todo;
      } else {
        assert Missing(files, applied) == todo;
      }
    }
  }

  lemma {:induction false} MissingPrefix(files: seq<File>, i: nat, applied: seq<string>)
    requires i <= |files|
    ensures Missing(files[..i], applied) <= Missing(files, applied)
  {
    if i < |files| {
      var n := |files| - 1;
      MissingPrefix(files[..n], i, applied);
      assert files[..n][..i] == files[..i];
    } else {
      assert files[..i] == files;
    }
  }

  lemma {:induction false} ScriptGrows(files: seq<File>, i: nat)
    requires i < |files|
    ensures |Script(files[..i])| + |Statements(files[i])| <= |Script(files)|
  {
    var n := |files| - 1;
    if i < n {
      ScriptGrows(files[..n], i);
      assert files[..n][..i] == files[..i];
    }
  }

  lemma CommittedAppend(s: Schema, todo: seq<File>, f: File)
    ensures Committed(s, todo + [f]) == Committed(Committed(s, todo), [f])
  {
    assert (todo + [f])[..|todo|] == todo;
    assert [f][..0] == [];
    assert Script([f]) == Statements(f) && Names([f]) == [f.name];
  }

  // ---- Any number of interrupted runs -----------------------------------------------------------------

  /** The schema after runs over the same files that were cut short after `counts[k]` commits each. */
  function AfterRuns(files: seq<File>, counts: seq<nat>): Schema {
    if counts == [] then Schema([], [])
    else
      var n := |counts| - 1;
      var before := AfterRuns(files, counts[..n]);
      var todo := Missing(files, before.applied);
      Committed(before, if counts[n] <= |todo| then todo[..counts[n]] else todo)
  }

  /** The first `k` files, each applied once and in order, and nothing else. */
  predicate UpTo(files: seq<File>, k: nat, s: Schema) {
    k <= |files| && s == Schema(Script(files[..k]), Names(files[..k]))
  }

  lemma {:induction false} MissingAfter(files: seq<File>, k: nat)
    requires DistinctNames(files) && k <= |files|
    ensures Missing(files, Names(files[..k])) == files[k..]
  {
    MissingFrom(files, files, k);
    assert files[..|files|] == files;
  }

  lemma {:induction false} MissingFrom(all: seq<File>, files: seq<File>, k: nat)
    requires DistinctNames(all) && k <= |files| <= |all| && files == all[..|files|]
    ensures Missing(files, Names(all[..k])) == files[k..]
  {
    if |files| == k {
      NoneMissing(all, files, k);
    } else {
      var n := |files| - 1;
      MissingFrom(all, files[..n], k);
      SeqStep(all, n);
      NamesAre(all[..k], files[n].name);
      assert files[n].name !in Names(all[..k]);
      assert files[..n][k..] + [files[n]] == files[k..];
    }
  }

  lemma {:induction false} NoneMissing(all: seq<File>, files: seq<File>, k: nat)
    requires |files| <= k <= |all| && files == all[..|files|]
    ensures Missing(files, Names(all[..k])) == []
  {
    if files != [] {
      var n := |files| - 1;
      NoneMissing(all, files[..n], k);
      assert all[..k][n] == files[n];
      NamesAre(all[..k], files[n].name);
    }
  }

  lemma {:induction false} ScriptConcat(a: seq<File>, b: seq<File>)
    ensures Script(a + b) == Script(a) + Script(b) && Names(a + b) == Names(a) + Names(b)
  {
    if b == [] {
      assert a + b == a;
    } else {
      var n := |b| - 1;
      assert (a + b)[..|a + b| - 1] == a + b[..n];
      ScriptConcat(a, b[..n]);
    }
  }

  lemma CommitNext(files: seq<File>, k: nat, m: nat)
    requires k <= m <= |files|
    ensures Committed(Schema(Script(files[..k]), Names(files[..k])), files[k..m])
         == Schema(Script(files[..m]), Names(files[..m]))
  {
    ScriptConcat(files[..k], files[k..m]);
    assert files[..k] + files[k..m] == files[..m];
  }

  /** However many runs were interrupted and wherever, what is applied is a prefix of the files, each
      once and in order, with exactly their statements executed. */
  lemma {:induction false} AlwaysAPrefix(files: seq<File>, counts: seq<nat>) returns (k: nat)
    requires DistinctNames(files)
    ensures UpTo(files, k, AfterRuns(files, counts))
  {
    if counts == [] {
      k := 0;
      assert files[..0] == [];
    } else {
      var n := |counts| - 1;
      var j := AlwaysAPrefix(files, counts[..n]);
      MissingAfter(files, j);
      k := if j + counts[n] <= |files| then j + counts[n] else |files|;
      CommitNext(files, j, k);
      assert files[j..k] == if counts[n] <= |files[j..]| then files[j..][..counts[n]] else files[j..];
    }
  }

  /** One uninterrupted run after any number of interrupted ones leaves every migration applied exactly
      once, in order; and a further run finds nothing to do. */
  lemma CompleteRunFinishes(files: seq<File>, counts: seq<nat>)
    requires DistinctNames(files)
    ensures var before := AfterRuns(files, counts); var after := Committed(before, Missing(files, before.applied));
      after == Schema(Script(files), Names(files)) && Missing(files, after.applied) == []
  {
    var k := AlwaysAPrefix(files, counts);
    MissingAfter(files, k);
    CommitNext(files, k, |files|);
    assert files[k..|files|] == files[k..] && files[..|files|] == files;
    MissingAfter(files, |files|);
  }
}
