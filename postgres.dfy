/** The statement handling inside `PostgresExecutor.execute`: the
    substituted query is cut at every `;`, each piece is trimmed, empty
    pieces are dropped, and the statements run one by one, each with
    autocommit when it is a database- or system-level command. The first
    failing statement aborts the run. The database itself is an oracle
    that says, for a statement and its autocommit flag, whether it
    succeeds. */
module Postgres {
  import opened Text

  /** The trimmed, non-empty pieces, in order:
      `[q.strip() for q in pieces if q.strip()]`. */
  function KeepStatements(pieces: seq<string>): (r: seq<string>)
    ensures |r| <= |pieces|
    ensures forall st :: st in r ==> st != [] && NoEdgeSpace(st)
    ensures forall st :: st in r ==> exists p :: p in pieces && st == Strip(p)
  {
    if pieces == [] then []
    else
      var t := Strip(pieces[0]);
      var rest := KeepStatements(pieces[1..]);
      assert forall st :: st in rest ==> exists p :: p in pieces && st == Strip(p) by {
        forall st | st in rest ensures exists p :: p in pieces && st == Strip(p) {
          var p :| p in pieces[1..] && st == Strip(p);
          assert p in pieces;
        }
      }
      (if t != [] then [t] else []) + rest
  }

  lemma {:induction false} KeepStatementsAppend(a: seq<string>, b: seq<string>)
    ensures KeepStatements(a + b) == KeepStatements(a) + KeepStatements(b)
  {
    if a != [] {
      assert (a + b)[1..] == a[1..] + b;
      KeepStatementsAppend(a[1..], b);
    } else {
      assert a + b == b;
    }
  }

  /** The statements `execute` runs for a query: each non-empty, trimmed
      and free of `;`, and no more of them than pieces between `;`s. */
  function SplitStatements(query: string): (r: seq<string>)
    ensures forall st :: st in r ==> st != [] && NoEdgeSpace(st) && ';' !in st
    ensures |r| <= multiset(query)[';'] + 1
  {
    var pieces := SplitOn(query, ';');
    SplitOnCount(query, ';');
    var r := KeepStatements(pieces);
    assert forall st :: st in r ==> ';' !in st by {
      forall st | st in r ensures ';' !in st {
        var p :| p in pieces && st == Strip(p);
        StripKeeps(p, ';');
      }
    }
    r
  }

  /** Statements keep their order in the query: the statements of two
      queries joined by `;` are those of the first followed by those of the
      second. */
  lemma StatementsAppend(a: string, b: string)
    ensures SplitStatements(a + ";" + b) == SplitStatements(a) + SplitStatements(b)
  {
    SplitOnAppend(a, ';', b);
    KeepStatementsAppend(SplitOn(a, ';'), SplitOn(b, ';'));
  }

  /** A query without `;` is a single statement, its trimmed text, unless
      that is empty. */
  lemma SingleStatement(query: string)
    requires ';' !in query
    ensures SplitStatements(query) == if Strip(query) == [] then [] else [Strip(query)]
  {
    assert SplitOnce(query, ';') == None;
    assert SplitOn(query, ';') == [query];
    assert [query][1..] == [];
  }

  /** The commands that cannot run inside a transaction. */
  const AUTOCOMMIT_COMMANDS: seq<string> := ["CREATE DATABASE", "DROP DATABASE", "ALTER SYSTEM"]

  /** A statement runs with autocommit exactly when its upper-cased text
      contains one of the commands that cannot run in a transaction, in any
      position. */
  function NeedsAutocommit(statement: string): (r: bool)
    ensures r <==> exists cmd, i :: cmd in AUTOCOMMIT_COMMANDS && OccursAt(Upper(statement), cmd, i)
  {
    var u := Upper(statement);
    Contains(u, "CREATE DATABASE") || Contains(u, "DROP DATABASE") || Contains(u, "ALTER SYSTEM")
  }

  /** The test ignores letter case. */
  lemma AutocommitIgnoresCase(statement: string)
    ensures NeedsAutocommit(Upper(statement)) == NeedsAutocommit(statement)
  {
    assert Upper(Upper(statement)) == Upper(statement);
  }

  /** A statement that contains one of the commands written in any letter
      case runs with autocommit. */
  lemma CommandInAnyCase(statement: string, cmd: string, i: nat)
    requires cmd in AUTOCOMMIT_COMMANDS
    requires i + |cmd| <= |statement| && Upper(statement[i..i + |cmd|]) == cmd
    ensures NeedsAutocommit(statement)
  {
    var u := Upper(statement);
    assert u[i..i + |cmd|] == Upper(statement[i..i + |cmd|]);
    assert OccursAt(u, cmd, i);
  }

  /** For instance, a lower-case `create database` statement. */
  lemma CreateDatabaseIsAutocommit()
    ensures NeedsAutocommit("create database app")
  {
    var s := "create database app";
    assert Upper(s[0..15]) == "CREATE DATABASE";
    CommandInAnyCase(s, "CREATE DATABASE", 0);
  }

  /** The call `execute` makes for each statement: its text and whether it
      runs with autocommit. */
  function Plan(statements: seq<string>): (r: seq<(string, bool)>)
    ensures |r| == |statements|
    ensures forall i :: 0 <= i < |r| ==> r[i].0 == statements[i] && r[i].1 == NeedsAutocommit(r[i].0)
  {
    seq(|statements|, i requires 0 <= i < |statements| => (statements[i], NeedsAutocommit(statements[i])))
  }

  /** The index of the first call the database rejects, if any. */
  function FirstFailure(calls: seq<(string, bool)>, run: (string, bool) -> bool): (r: Option<nat>)
    ensures r.None? <==> forall i :: 0 <= i < |calls| ==> run(calls[i].0, calls[i].1)
    ensures r.Some? ==> r.value < |calls| && !run(calls[r.value].0, calls[r.value].1)
                        && forall i :: 0 <= i < r.value ==> run(calls[i].0, calls[i].1)
  {
    if calls == [] then None
    else if !run(calls[0].0, calls[0].1) then Some(0)
    else match FirstFailure(calls[1..], run)
      case None => None
      case Some(k) => Some(k + 1)
  }

  datatype Outcome = Completed | Failed(index: nat, statement: string)

  /** `PostgresExecutor.execute`: substitutes the environment into the
      template, splits the result into statements and runs them. */
  method Execute(template: string, env: map<string, string>,
                 substitute: (string, map<string, string>) -> string,
                 run: (string, bool) -> bool)
    returns (calls: seq<(string, bool)>, outcome: Outcome)
    ensures var plan := Plan(SplitStatements(substitute(template, env)));
            match FirstFailure(plan, run)
            case None => outcome == Completed && calls == plan
            case Some(k) => outcome == Failed(k, plan[k].0) && calls == plan[..k + 1]
  {
    var query := substitute(template, env);
    var statements := SplitStatements(query);
    calls, outcome := RunStatements(statements, run);
  }

  /** The loop of `execute`: runs the statements in order, each with its
      autocommit flag, and stops at the first one the database rejects.
      `calls` lists the calls made. */
  method RunStatements(statements: seq<string>, run: (string, bool) -> bool)
    returns (calls: seq<(string, bool)>, outcome: Outcome)
    ensures var plan := Plan(statements);
            match FirstFailure(plan, run)
            case None => outcome == Completed && calls == plan
            case Some(k) => outcome == Failed(k, plan[k].0) && calls == plan[..k + 1]
  {
    ghost var plan := Plan(statements);
    calls := [];
    outcome := Completed;
    var i := 0;
    while i < |statements|
      invariant 0 <= i <= |statements|
      invariant calls == plan[..i]
      invariant forall j :: 0 <= j < i ==> run(plan[j].0, plan[j].1)
    {
      var statement := statements[i];
      var autocommit := NeedsAutocommit(statement);
      assert plan[i] == (statement, autocommit);
      assert plan[..i + 1] == plan[..i] + [plan[i]];
      calls := calls + [(statement, autocommit)];
      if !run(statement, autocommit) {
        outcome := Failed(i, statement);
        FirstFailureAt(plan, run, i);
        return;
      }
      i := i + 1;
    }
    assert plan[..i] == plan;
    assert FirstFailure(plan, run).None?;
  }

  /** A failing call preceded only by successful ones is the first failure. */
  lemma {:induction false} FirstFailureAt(calls: seq<(string, bool)>, run: (string, bool) -> bool, k: nat)
    requires k < |calls| && !run(calls[k].0, calls[k].1)
    requires forall i :: 0 <= i < k ==> run(calls[i].0, calls[i].1)
    ensures FirstFailure(calls, run) == Some(k)
  {
    if k > 0 {
      FirstFailureAt(calls[1..], run, k - 1);
    }
  }
}
