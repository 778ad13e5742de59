/**
 Exactly when a commit preserves the database. A commit puts the scripts of several files into one, skips the first
 lines of each, and moves the development scripts behind all the up scripts. Whether that shows depends on the
 scripts: it does not, under any meaning that lines may have, exactly when the same statements are run in the same
 order.
 */
module CommitLaws {
  import opened Options
  import opened Sequences
  import opened RevisionChain
  import opened DbMigration
  import opened MigrationLaws

  /**
   How script files are written: the header and the blank line the tool adds, which lines are comments, and which
   lines end a statement. A statement that no line ends goes on to the end of its file.
   */
  datatype Format<!S> = Format(header: seq<S>, blank: S, comment: S -> bool, terminates: S -> bool)
  {
    predicate Commented() {
      |header| == HEADER_LINES && comment(blank) && forall i | 0 <= i < |header| :: comment(header[i])
    }
  }

  /** A database engine to which comments mean nothing, and which is done with a statement that has ended. */
  ghost predicate Reads<S(!new), D(!new)>(d: Dialect<S, D>, format: Format<S>) {
    && d.header == format.header && d.blank == format.blank
    && (forall line | format.comment(line) :: Inert(d, line))
    && (forall x :: Settled(d, d.finish(x)))
    && (forall line, x | format.terminates(line) && !format.comment(line) :: Settled(d, d.exec(line, x)))
  }

  /** The statements an engine was given, and the lines of one that has not ended. */
  datatype Journal<S> = Journal(statements: seq<seq<S>>, open: seq<S>)

  /** The engine that writes down the statements it is given. */
  function Recording<S>(format: Format<S>): Dialect<S, Journal<S>> {
    Dialect((line: S, j: Journal<S>) =>
              if format.comment(line) then j
              else if format.terminates(line) then Journal(j.statements + [j.open + [line]], [])
              else Journal(j.statements, j.open + [line]),
            (j: Journal<S>) => if j.open == [] then j else Journal(j.statements + [j.open], []),
            Journal([], []), format.header, format.blank)
  }

  // ---------------------------------------------------------------------------------------------
  // Scripts and statements

  /** A script without its comments. */
  function Code<S>(format: Format<S>, script: seq<S>): seq<S> {
    if script == [] then []
    else (if format.comment(script[0]) then [] else [script[0]]) + Code(format, script[1..])
  }

  /** The statements of lines of code that go on from the lines of an open one. */
  function Split<S>(format: Format<S>, code: seq<S>, open: seq<S>): seq<seq<S>>
    decreases |code|
  {
    if code == [] then (if open == [] then [] else [open])
    else if format.terminates(code[0]) then [open + [code[0]]] + Split(format, code[1..], [])
    else Split(format, code[1..], open + [code[0]])
  }

  function Statements<S>(format: Format<S>, script: seq<S>): seq<seq<S>> {
    Split(format, Code(format, script), [])
  }

  function AllStatements<S>(format: Format<S>, files: seq<seq<S>>): seq<seq<S>> {
    if files == [] then [] else Statements(format, files[0]) + AllStatements(format, files[1..])
  }

  function AllCode<S>(format: Format<S>, files: seq<seq<S>>): seq<S> {
    if files == [] then [] else Code(format, files[0]) + AllCode(format, files[1..])
  }

  /** The last line of code ends no statement. */
  predicate EndsOpen<S>(format: Format<S>, script: seq<S>) {
    var code := Code(format, script);
    code != [] && !format.terminates(code[|code| - 1])
  }

  lemma {:induction false} CodeAppend<S>(format: Format<S>, a: seq<S>, b: seq<S>)
    ensures Code(format, a + b) == Code(format, a) + Code(format, b)
    decreases |a|
  {
    if a == [] {
      assert a + b == b;
    } else {
      assert (a + b)[1..] == a[1..] + b;
      CodeAppend(format, a[1..], b);
    }
  }

  lemma {:induction false} NoCodeIff<S>(format: Format<S>, script: seq<S>)
    ensures Code(format, script) == [] <==> forall i | 0 <= i < |script| :: format.comment(script[i])
    decreases |script|
  {
    if script != [] {
      NoCodeIff(format, script[1..]);
      if forall i | 0 <= i < |script[1..]| :: format.comment(script[1..][i]) {
        forall i | 0 < i < |script|
          ensures format.comment(script[i])
        {
          assert script[1..][i - 1] == script[i];
        }
      }
    }
  }

  lemma {:induction false} AllRunAppend<S, D>(d: Dialect<S, D>, a: seq<seq<S>>, b: seq<seq<S>>, x: D)
    ensures AllRun(d, a + b, x) == AllRun(d, b, AllRun(d, a, x))
    decreases |a|
  {
    if a == [] {
      assert a + b == b;
    } else {
      assert (a + b)[1..] == a[1..] + b;
      AllRunAppend(d, a[1..], b, Executed(d, a[0], x));
    }
  }

  lemma {:induction false} AllRunHead<S, D>(d: Dialect<S, D>, first: seq<S>, rest: seq<seq<S>>, x: D)
    ensures AllRun(d, [first] + rest, x) == AllRun(d, rest, Executed(d, first, x))
  {
    assert ([first] + rest)[1..] == rest;
  }

  lemma {:induction false} RunOne<S, D>(d: Dialect<S, D>, script: seq<S>, line: S, x: D)
    ensures RunScript(d, script + [line], x) == d.exec(line, RunScript(d, script, x))
  {
    RunAppend(d, script, [line], x);
    assert [line][1..] == [];
  }

  /** To an engine a file is its statements, each as a file of its own. */
  lemma {:induction false} SplitRuns<S(!new), D(!new)>(d: Dialect<S, D>, format: Format<S>, script: seq<S>,
                                                       open: seq<S>, x: D)
    requires Reads(d, format) && Settled(d, x)
    ensures Executed(d, script, RunScript(d, open, x)) == AllRun(d, Split(format, Code(format, script), open), x)
    decreases |script|
  {
    if script == [] {
      EndRuns(d, format, open, x);
    } else {
      var line, rest := script[0], script[1..];
      assert Executed(d, script, RunScript(d, open, x)) == Executed(d, rest, d.exec(line, RunScript(d, open, x)));
      hide Executed, RunScript, AllRun;
      if format.comment(line) {
        assert Inert(d, line);
        NothingInFront(Code(format, rest));
        SplitRuns(d, format, rest, open, x);
      } else {
        assert ([line] + Code(format, rest))[1..] == Code(format, rest);
        RunOne(d, open, line, x);
        if format.terminates(line) {
          var next := RunScript(d, open + [line], x);
          EndedStatement(d, format, open, line, x);
          RunNothing(d, next);
          SplitRuns(d, format, rest, [], next);
          AllRunHead(d, open + [line], Split(format, Code(format, rest), []), x);
        } else {
          SplitRuns(d, format, rest, open + [line], x);
        }
      }
    }
  }

  lemma {:induction false} EndRuns<S(!new), D(!new)>(d: Dialect<S, D>, format: Format<S>, open: seq<S>, x: D)
    requires Reads(d, format) && Settled(d, x)
    ensures Executed(d, [], RunScript(d, open, x)) == AllRun(d, Split(format, Code(format, []), open), x)
  {
    if open != [] {
      assert Split(format, Code(format, []), open) == [open];
      assert [open][1..] == [];
      assert AllRun(d, [open], x) == AllRun(d, [], Executed(d, open, x));
    }
  }

  lemma {:induction false} EndedStatement<S(!new), D(!new)>(d: Dialect<S, D>, format: Format<S>, open: seq<S>,
                                                            line: S, x: D)
    requires Reads(d, format) && format.terminates(line) && !format.comment(line)
    ensures
      var next := RunScript(d, open + [line], x);
      Settled(d, next) && Executed(d, open + [line], x) == next
  {
    RunOne(d, open, line, x);
    hide RunScript;
    assert Settled(d, d.exec(line, RunScript(d, open, x)));
  }

  lemma {:induction false} OnlyStatementsCount<S(!new), D(!new)>(d: Dialect<S, D>, format: Format<S>,
                                                                 files: seq<seq<S>>, x: D)
    requires Reads(d, format) && Settled(d, x)
    ensures AllRun(d, files, x) == AllRun(d, AllStatements(format, files), x)
    decreases |files|
  {
    if files != [] {
      hide RunScript, Split, Code;
      SplitRuns(d, format, files[0], [], x);
      RunNothing(d, x);
      AllRunAppend(d, Statements(format, files[0]), AllStatements(format, files[1..]), x);
      OnlyStatementsCount(d, format, files[1..], Executed(d, files[0], x));
    }
  }

  lemma {:induction false} RecordingRuns<S>(format: Format<S>, script: seq<S>, done: seq<seq<S>>, open: seq<S>)
    ensures Executed(Recording(format), script, Journal(done, open))
         == Journal(done + Split(format, Code(format, script), open), [])
    decreases |script|
  {
    var d := Recording(format);
    if script == [] {
      assert Code(format, script) == [];
      assert done + [] == done;
    } else {
      var line, rest := script[0], script[1..];
      var next := d.exec(line, Journal(done, open));
      assert Executed(d, script, Journal(done, open)) == Executed(d, rest, next);
      RecordingRuns(format, rest, next.statements, next.open);
      hide RunScript;
      if format.comment(line) {
        NothingInFront(Code(format, rest));
      } else {
        assert ([line] + Code(format, rest))[1..] == Code(format, rest);
        if format.terminates(line) {
          Regroup(done, [open + [line]], Split(format, Code(format, rest), []));
        }
      }
    }
  }

  lemma {:induction false} RecordingRunsAll<S>(format: Format<S>, files: seq<seq<S>>, done: seq<seq<S>>)
    ensures AllRun(Recording(format), files, Journal(done, [])) == Journal(done + AllStatements(format, files), [])
    decreases |files|
  {
    if files == [] {
      assert done + [] == done;
    } else {
      hide RunScript, Split, Code, Executed;
      RecordingRuns(format, files[0], done, []);
      RecordingRunsAll(format, files[1..], done + Statements(format, files[0]));
      Regroup(done, Statements(format, files[0]), AllStatements(format, files[1..]));
    }
  }

  // ---------------------------------------------------------------------------------------------
  // What an upgrade runs

  function Files<S>(script: Option<seq<S>>): seq<seq<S>> {
    if script.Some? then [script.value] else []
  }

  function Lines<S>(script: Option<seq<S>>): seq<S> {
    if script.Some? then script.value else []
  }

  /** For the revisions before the commit. */
  function Interleaved<S>(revisions: seq<Revision<S>>, devel: bool): seq<seq<S>> {
    if revisions == [] then []
    else [revisions[0].up] + ((if devel then Files(revisions[0].devel) else []) + Interleaved(revisions[1..], devel))
  }

  /** For them afterwards. */
  function Regrouped<S, D>(d: Dialect<S, D>, existing: Option<seq<S>>, revisions: seq<Revision<S>>, devel: bool)
      : seq<seq<S>>
  {
    var merged := Merged(d, existing, revisions);
    [merged.up] + (if devel then Files(merged.devel) else [])
  }

  function Ups<S>(revisions: seq<Revision<S>>): seq<seq<S>> {
    Interleaved(revisions, false)
  }

  function Devels<S>(revisions: seq<Revision<S>>): seq<seq<S>> {
    if revisions == [] then [] else Files(revisions[0].devel) + Devels(revisions[1..])
  }

  lemma {:induction false} AllRunFiles<S, D>(d: Dialect<S, D>, script: Option<seq<S>>, x: D)
    ensures AllRun(d, Files(script), x) == if script.Some? then Executed(d, script.value, x) else x
  {
    if script.Some? {
      assert [script.value][1..] == [];
      assert AllRun(d, [script.value], x) == AllRun(d, [], Executed(d, script.value, x));
    }
  }

  lemma {:induction false} AppliedIsInterleaved<S, D>(d: Dialect<S, D>, revisions: seq<Revision<S>>, devel: bool, x: D)
    ensures RevisionsApplied(d, revisions, devel, x) == AllRun(d, Interleaved(revisions, devel), x)
    decreases |revisions|
  {
    if revisions != [] {
      hide Executed, Files;
      var up, rest := revisions[0].up, revisions[1..];
      var files := if devel then Files(revisions[0].devel) else [];
      var upgraded := Executed(d, up, x);
      AllRunHead(d, up, files + Interleaved(rest, devel), x);
      AllRunAppend(d, files, Interleaved(rest, devel), upgraded);
      AllRunFiles(d, revisions[0].devel, upgraded);
      AppliedIsInterleaved(d, rest, devel, AllRun(d, files, upgraded));
    }
  }

  /** What is merged depends on the lines the tool adds and not on what lines mean. */
  lemma {:induction false} MergedAlike<S, D, E>(d: Dialect<S, D>, e: Dialect<S, E>, existing: Option<seq<S>>,
                                               revisions: seq<Revision<S>>)
    requires d.header == e.header && d.blank == e.blank
    ensures Merged(d, existing, revisions) == Merged(e, existing, revisions)
    decreases |revisions|
  {
    if revisions != [] {
      MergedAlike(d, e, DevelAppended(d, existing, revisions[0]), revisions[1..]);
      BodiesAlike(d, e, revisions[1..]);
    }
  }

  lemma {:induction false} BodiesAlike<S, D, E>(d: Dialect<S, D>, e: Dialect<S, E>, revisions: seq<Revision<S>>)
    requires d.blank == e.blank
    ensures UpBodies(d, revisions) == UpBodies(e, revisions) && DownBodies(d, revisions) == DownBodies(e, revisions)
    decreases |revisions|
  {
    if revisions != [] {
      BodiesAlike(d, e, revisions[1..]);
    }
  }

  // ---------------------------------------------------------------------------------------------
  // The exact condition

  ghost predicate Complete<S>(repo: Repo<S>) {
    repo.current.Some? && forall i | 0 <= i <= repo.version :: i in repo.versions
  }

  /** The revisions to be committed, and a development script left over where they will go. */
  function Pending<S>(repo: Repo<S>): seq<Revision<S>>
    requires repo.current.Some?
  {
    BuiltChain(repo.current.value)
  }

  function LeftOver<S>(repo: Repo<S>): Option<seq<S>> {
    ExistingDevel(repo.versions, repo.version + 1)
  }

  ghost predicate Preserved<S, D>(d: Dialect<S, D>, repo: Repo<S>, devel: bool) {
    Upgraded(d, Committed(d, repo), None, devel).0.contents == Upgraded(d, repo, None, devel).0.contents
  }

  function Base<S, D>(d: Dialect<S, D>, repo: Repo<S>, devel: bool): D {
    MigratedUp(d, repo.versions, repo.version + 1, devel).0.contents
  }

  /** Both databases grow from the same one. */
  lemma {:induction false} UpgradesAreRuns<S, D>(d: Dialect<S, D>, repo: Repo<S>, devel: bool)
    requires Complete(repo)
    ensures Upgraded(d, repo, None, devel).0.contents
         == AllRun(d, Interleaved(Pending(repo), devel), Base(d, repo, devel))
    ensures Upgraded(d, Committed(d, repo), None, devel).0.contents
         == AllRun(d, Regrouped(d, LeftOver(repo), Pending(repo), devel), Base(d, repo, devel))
  {
    hide BuiltChain, Merged, Executed, Files;
    var next, merged := repo.version + 1, Merged(d, LeftOver(repo), Pending(repo));
    var base := Base(d, repo, devel);
    RecordedVersion(d, repo.versions, repo.version, devel);
    AppliedIsInterleaved(d, Pending(repo), devel, base);
    LaterVersionIrrelevant(d, repo.versions, next, merged, next, devel);
    AllRunHead(d, merged.up, if devel then Files(merged.devel) else [], base);
    AllRunFiles(d, merged.devel, Executed(d, merged.up, base));
    assert MigratedUp(d, repo.versions[next := merged], next + 1, devel).0
        == VersionApplied(d, merged, next, devel, MigratedUp(d, repo.versions, next, devel).0);
  }

  lemma BaseIsSettled<S(!new), D(!new)>(d: Dialect<S, D>, format: Format<S>, repo: Repo<S>, devel: bool)
    requires Complete(repo) && Reads(d, format)
    ensures Settled(d, Base(d, repo, devel))
  {
    RecordedVersion(d, repo.versions, repo.version, devel);
    MigratedIsSettled(d, repo.versions, repo.version + 1, devel);
  }

  /** With the same statements before and after, no engine can tell. */
  lemma {:induction false} SameStatementsPreserve<S(!new), D(!new)>(d: Dialect<S, D>, format: Format<S>,
                                                                    repo: Repo<S>, devel: bool)
    requires Complete(repo) && Reads(d, format)
    requires AllStatements(format, Interleaved(Pending(repo), devel))
          == AllStatements(format, Regrouped(Recording(format), LeftOver(repo), Pending(repo), devel))
    ensures Preserved(d, repo, devel)
  {
    hide Interleaved, BuiltChain, Merged, AllRun, AllStatements, Reads, Upgraded, Committed;
    UpgradesAreRuns(d, repo, devel);
    BaseIsSettled(d, format, repo, devel);
    ReadsAsWritten(d, format);
    MergedAlike(d, Recording(format), LeftOver(repo), Pending(repo));
    OnlyStatementsCount(d, format, Interleaved(Pending(repo), devel), Base(d, repo, devel));
    OnlyStatementsCount(d, format, Regrouped(d, LeftOver(repo), Pending(repo), devel), Base(d, repo, devel));
  }

  lemma ReadsAsWritten<S(!new), D(!new)>(d: Dialect<S, D>, format: Format<S>)
    requires Reads(d, format)
    ensures d.header == Recording(format).header && d.blank == Recording(format).blank
  {
  }

  /** A commit preserves the database under every meaning of the lines exactly when it keeps the statements. */
  lemma {:induction false} CommitPreservesIffSameStatements<S(!new)>(format: Format<S>, repo: Repo<S>, devel: bool)
    requires Complete(repo)
    ensures (forall d: Dialect<S, Journal<S>> | Reads(d, format) :: Preserved(d, repo, devel))
       <==> (AllStatements(format, Interleaved(Pending(repo), devel))
             == AllStatements(format, Regrouped(Recording(format), LeftOver(repo), Pending(repo), devel)))
  {
    hide Interleaved, Regrouped, BuiltChain, AllStatements, AllRun, Reads, Upgraded, Committed;
    var before := Interleaved(Pending(repo), devel);
    var d := Recording(format);
    var after := Regrouped(d, LeftOver(repo), Pending(repo), devel);
    if AllStatements(format, before) == AllStatements(format, after) {
      forall d: Dialect<S, Journal<S>> | Reads(d, format)
        ensures Preserved(d, repo, devel)
      {
        SameStatementsPreserve(d, format, repo, devel);
      }
    } else {
      RecordingReads(format);
      UpgradesAreRuns(d, repo, devel);
      BaseIsSettled(d, format, repo, devel);
      var base := Base(d, repo, devel);
      NothingOpen(format, base);
      RecordingRunsAll(format, before, base.statements);
      RecordingRunsAll(format, after, base.statements);
      PrefixCancels(base.statements, AllStatements(format, before), AllStatements(format, after));
      assert !Preserved(d, repo, devel);
    }
  }

  lemma RecordingReads<S(!new)>(format: Format<S>)
    ensures Reads(Recording(format), format)
  {
  }

  lemma NothingOpen<S>(format: Format<S>, j: Journal<S>)
    requires Settled(Recording(format), j)
    ensures j == Journal(j.statements, [])
  {
  }

  // ---------------------------------------------------------------------------------------------
  // Putting files together

  /** The lines of a statement that the code leaves open. */
  function Rest<S>(format: Format<S>, code: seq<S>, open: seq<S>): (rest: seq<S>)
    decreases |code|
  {
    if code == [] then open
    else Rest(format, code[1..], if format.terminates(code[0]) then [] else open + [code[0]])
  }

  /** The statements that it ends. */
  function Ended<S>(format: Format<S>, code: seq<S>, open: seq<S>): seq<seq<S>>
    decreases |code|
  {
    if code == [] then []
    else if format.terminates(code[0]) then [open + [code[0]]] + Ended(format, code[1..], [])
    else Ended(format, code[1..], open + [code[0]])
  }

  function Tail<T>(open: seq<T>): seq<seq<T>> {
    if open == [] then [] else [open]
  }

  lemma {:induction false} RestIff<S>(format: Format<S>, code: seq<S>, open: seq<S>)
    ensures Rest(format, code, open) == []
       <==> if code == [] then open == [] else format.terminates(code[|code| - 1])
    decreases |code|
  {
    if code != [] {
      RestIff(format, code[1..], if format.terminates(code[0]) then [] else open + [code[0]]);
    }
  }

  lemma {:induction false} SplitAppend<S>(format: Format<S>, a: seq<S>, b: seq<S>, open: seq<S>)
    ensures Split(format, a + b, open) == Ended(format, a, open) + Split(format, b, Rest(format, a, open))
    decreases |a|
  {
    if a == [] {
      assert a + b == b;
      NothingInFront(Split(format, b, open));
    } else {
      assert (a + b)[1..] == a[1..] + b;
      if format.terminates(a[0]) {
        SplitAppend(format, a[1..], b, []);
        Regroup([open + [a[0]]], Ended(format, a[1..], []), Split(format, b, Rest(format, a[1..], [])));
      } else {
        SplitAppend(format, a[1..], b, open + [a[0]]);
      }
    }
  }

  lemma {:induction false} SplitIsEndedAndTail<S>(format: Format<S>, code: seq<S>)
    ensures Split(format, code, []) == Ended(format, code, []) + Tail(Rest(format, code, []))
  {
    SplitAppend(format, code, [], []);
    assert code + [] == code;
  }

  /** However it starts, code comes to the same number of statements: an open one takes the first in. */
  lemma {:induction false} SplitSize<S>(format: Format<S>, code: seq<S>, open: seq<S>)
    requires code != []
    ensures |Split(format, code, open)| == |Split(format, code, [])|
    decreases |code|
  {
    var rest := code[1..];
    if !format.terminates(code[0]) && rest != [] {
      SplitSize(format, rest, open + [code[0]]);
      SplitSize(format, rest, [] + [code[0]]);
    }
  }

  lemma {:induction false} JoinedSplit<S>(format: Format<S>, a: seq<S>, b: seq<S>)
    ensures
      var apart := Split(format, a, []) + Split(format, b, []);
      var joined := Split(format, a + b, []);
      if Rest(format, a, []) == [] || b == [] then joined == apart else |joined| < |apart|
  {
    var open := Rest(format, a, []);
    SplitAppend(format, a, b, []);
    SplitIsEndedAndTail(format, a);
    if open == [] {
      assert Ended(format, a, []) + [] == Ended(format, a, []);
    } else if b == [] {
      assert Split(format, a, []) + [] == Split(format, a, []);
    } else {
      SplitSize(format, b, open);
    }
  }

  /** No file that leaves a statement open has code in a file behind it. */
  predicate NoneRunsOn<S>(format: Format<S>, files: seq<seq<S>>) {
    forall i, j | 0 <= i < j < |files| :: !EndsOpen(format, files[i]) || Code(format, files[j]) == []
  }

  lemma {:induction false} NoCodeAtAll<S>(format: Format<S>, files: seq<seq<S>>)
    ensures AllCode(format, files) == [] <==> forall j | 0 <= j < |files| :: Code(format, files[j]) == []
    decreases |files|
  {
    if files != [] {
      NoCodeAtAll(format, files[1..]);
      forall j | 0 < j < |files|
        ensures files[1..][j - 1] == files[j]
      {
      }
    }
  }

  lemma {:induction false} NoneRunsOnHead<S>(format: Format<S>, files: seq<seq<S>>)
    requires files != []
    ensures NoneRunsOn(format, files)
       <==> && (!EndsOpen(format, files[0]) || AllCode(format, files[1..]) == [])
            && NoneRunsOn(format, files[1..])
  {
    hide Code, EndsOpen, AllCode;
    var rest := files[1..];
    NoCodeAtAll(format, rest);
    assert forall j | 0 < j < |files| :: files[j] == rest[j - 1];
    assert forall j | 0 <= j < |rest| :: rest[j] == files[j + 1];
  }

  /** Files put together hold the same statements exactly when no statement runs on into the next. */
  lemma {:induction false} JoinedIff<S>(format: Format<S>, files: seq<seq<S>>)
    ensures |Split(format, AllCode(format, files), [])| <= |AllStatements(format, files)|
    ensures AllStatements(format, files) == Split(format, AllCode(format, files), []) <==> NoneRunsOn(format, files)
    decreases |files|
  {
    if files != [] {
      hide Split, Code, NoneRunsOn, Rest;
      var code, rest := Code(format, files[0]), files[1..];
      JoinedSplit(format, code, AllCode(format, rest));
      RestIff(format, code, []);
      JoinedIff(format, rest);
      NoneRunsOnHead(format, files);
      PrefixCancels(Split(format, code, []), AllStatements(format, rest), Split(format, AllCode(format, rest), []));
    }
  }

  function Flat<T>(parts: seq<seq<T>>): seq<T> {
    if parts == [] then [] else parts[0] + Flat(parts[1..])
  }

  lemma {:induction false} FlatAppend<T>(a: seq<seq<T>>, b: seq<seq<T>>)
    ensures Flat(a + b) == Flat(a) + Flat(b)
    decreases |a|
  {
    if a == [] {
      assert a + b == b;
    } else {
      assert (a + b)[1..] == a[1..] + b;
      FlatAppend(a[1..], b);
    }
  }

  /** Splitting loses no line. */
  lemma {:induction false} FlatSplit<S>(format: Format<S>, code: seq<S>, open: seq<S>)
    ensures Flat(Split(format, code, open)) == open + code
    decreases |code|
  {
    if code == [] {
      assert [open][1..] == [];
    } else {
      assert open + code == (open + [code[0]]) + code[1..];
      if format.terminates(code[0]) {
        FlatSplit(format, code[1..], []);
        assert ([open + [code[0]]] + Split(format, code[1..], []))[1..] == Split(format, code[1..], []);
        NothingInFront(code[1..]);
      } else {
        FlatSplit(format, code[1..], open + [code[0]]);
      }
    }
  }

  lemma {:induction false} FlatStatements<S>(format: Format<S>, files: seq<seq<S>>)
    ensures Flat(AllStatements(format, files)) == AllCode(format, files)
    decreases |files|
  {
    if files != [] {
      hide Split, Code;
      FlatSplit(format, Code(format, files[0]), []);
      NothingInFront(Code(format, files[0]));
      FlatStatements(format, files[1..]);
      FlatAppend(Statements(format, files[0]), AllStatements(format, files[1..]));
    }
  }

  // ---------------------------------------------------------------------------------------------
  // The skipped lines

  /** The lines that `read_sql` skips are comments. */
  predicate SkipsComments<S>(format: Format<S>, script: seq<S>) {
    forall i | 0 <= i < |script| && i < HEADER_LINES :: format.comment(script[i])
  }

  /** A script is its skipped lines and its body. */
  lemma SkippedAndBody<S>(format: Format<S>, script: seq<S>)
    ensures
      var skipped := script[..|script| - |Body(script)|];
      && Code(format, script) == Code(format, skipped) + Code(format, Body(script))
      && (Code(format, skipped) == [] <==> SkipsComments(format, script))
  {
    var skipped := script[..|script| - |Body(script)|];
    assert script == skipped + Body(script);
    CodeAppend(format, skipped, Body(script));
    NoCodeIff(format, skipped);
  }

  lemma {:induction false} BodyCode<S>(format: Format<S>, script: seq<S>)
    requires format.comment(format.blank)
    ensures Code(format, Body(script) + [format.blank]) == Code(format, Body(script))
  {
    CodeAppend(format, Body(script), [format.blank]);
    NoCodeIff(format, [format.blank]);
  }

  /** Code is skipped from the merged up script exactly where a skipped line is no comment. */
  lemma {:induction false} UpBodiesKeepIff<S>(format: Format<S>, revisions: seq<Revision<S>>)
    requires format.comment(format.blank)
    ensures |Code(format, UpBodies(Recording(format), revisions))| <= |AllCode(format, Ups(revisions))|
    ensures AllCode(format, Ups(revisions)) == Code(format, UpBodies(Recording(format), revisions))
       <==> forall k | 0 <= k < |revisions| :: SkipsComments(format, revisions[k].up)
    decreases |revisions|
  {
    if revisions != [] {
      hide Code, SkipsComments, Body;
      var d, up, rest := Recording(format), revisions[0].up, revisions[1..];
      UpsHead(revisions);
      SkippedAndBody(format, up);
      BodyCode(format, up);
      CodeAppend(format, Body(up) + [d.blank], UpBodies(d, rest));
      UpBodiesKeepIff(format, rest);
      SkippedSplit(Code(format, up[..|up| - |Body(up)|]), Code(format, Body(up)),
                   AllCode(format, Ups(rest)), Code(format, UpBodies(d, rest)));
      assert (forall k | 0 <= k < |revisions| :: SkipsComments(format, revisions[k].up))
        <==> SkipsComments(format, up) && forall k | 0 <= k < |rest| :: SkipsComments(format, rest[k].up) by {
        assert revisions == [revisions[0]] + rest;
      }
    }
  }

  lemma UpsHead<S>(revisions: seq<Revision<S>>)
    requires revisions != []
    ensures Ups(revisions) != [] && Ups(revisions)[0] == revisions[0].up && Ups(revisions)[1..] == Ups(revisions[1..])
  {
    NothingInFront(Ups(revisions[1..]));
  }

  lemma SkippedSplit<T>(skipped: seq<T>, body: seq<T>, before: seq<T>, after: seq<T>)
    requires |after| <= |before|
    ensures (skipped + body) + before == body + after <==> skipped == [] && before == after
  {
    if (skipped + body) + before == body + after {
      assert |skipped| == 0;
      assert skipped + body == body;
      PrefixCancels(body, before, after);
    }
  }

  lemma {:induction false} HeaderAdds<S>(format: Format<S>, script: seq<S>)
    requires format.Commented()
    ensures Code(format, format.header + script) == Code(format, script)
  {
    CodeAppend(format, format.header, script);
    NoCodeIff(format, format.header);
    NothingInFront(Code(format, script));
  }

  lemma {:induction false} OneFile<S>(format: Format<S>, file: seq<S>)
    ensures AllStatements(format, [file]) == Statements(format, file)
  {
    assert [file][1..] == [];
    assert Statements(format, file) + [] == Statements(format, file);
  }

  /**
   With development scripts off, a commit is safe exactly when it skips nothing but comments, and no up script
   that leaves its last statement open has code in an up script behind it.
   */
  lemma {:induction false} CommitPreservesIffMergeable<S(!new)>(format: Format<S>, repo: Repo<S>)
    requires Complete(repo) && format.Commented()
    ensures (forall d: Dialect<S, Journal<S>> | Reads(d, format) :: Preserved(d, repo, false))
       <==> && (forall k | 0 <= k < |Pending(repo)| :: SkipsComments(format, Pending(repo)[k].up))
            && NoneRunsOn(format, Ups(Pending(repo)))
  {
    hide BuiltChain, Preserved, Reads, SkipsComments, NoneRunsOn;
    CommitPreservesIffSameStatements(format, repo, false);
    UpsMergeIff(format, LeftOver(repo), Pending(repo));
  }

  lemma {:induction false} UpsMergeIff<S>(format: Format<S>, existing: Option<seq<S>>, revisions: seq<Revision<S>>)
    requires format.Commented()
    ensures AllStatements(format, Ups(revisions))
         == AllStatements(format, Regrouped(Recording(format), existing, revisions, false))
       <==> && (forall k | 0 <= k < |revisions| :: SkipsComments(format, revisions[k].up))
            && NoneRunsOn(format, Ups(revisions))
  {
    hide Code, Split, SkipsComments, NoneRunsOn, Interleaved;
    var d, merged := Recording(format), Merged(Recording(format), existing, revisions).up;
    assert Regrouped(d, existing, revisions, false) == [merged];
    OneFile(format, merged);
    HeaderAdds(format, UpBodies(d, revisions));
    UpBodiesKeepIff(format, revisions);
    FlatStatements(format, Ups(revisions));
    FlatSplit(format, Code(format, merged), []);
    NothingInFront(Code(format, merged));
    JoinedIff(format, Ups(revisions));
  }

  // ---------------------------------------------------------------------------------------------
  // Development scripts

  predicate HeadersCommented<S>(format: Format<S>, revisions: seq<Revision<S>>) {
    forall k | 0 <= k < |revisions| ::
      SkipsComments(format, revisions[k].up) && SkipsComments(format, Lines(revisions[k].devel))
  }

  lemma {:induction false} AllCodeFiles<S>(format: Format<S>, script: Option<seq<S>>)
    ensures AllCode(format, Files(script)) == Code(format, Lines(script))
  {
    if script.Some? {
      assert [script.value][1..] == [];
      assert AllCode(format, [script.value]) == Code(format, script.value) + [];
    }
  }

  lemma {:induction false} AllCodeAppend<S>(format: Format<S>, a: seq<seq<S>>, b: seq<seq<S>>)
    ensures AllCode(format, a + b) == AllCode(format, a) + AllCode(format, b)
    decreases |a|
  {
    hide Code;
    if a == [] {
      assert a + b == b;
    } else {
      assert (a + b)[1..] == a[1..] + b;
      AllCodeAppend(format, a[1..], b);
    }
  }

  lemma {:induction false} DevelMergedCode<S>(format: Format<S>, existing: Option<seq<S>>, revisions: seq<Revision<S>>)
    requires format.Commented() && HeadersCommented(format, revisions)
    ensures Code(format, Lines(DevelMerged(Recording(format), existing, revisions)))
         == Code(format, Lines(existing)) + AllCode(format, Devels(revisions))
    decreases |revisions|
  {
    hide Code, SkipsComments, DevelAppended, Lines, Files;
    if revisions == [] {
      assert Code(format, Lines(existing)) + [] == Code(format, Lines(existing));
    } else {
      var d, rest := Recording(format), revisions[1..];
      var appended := DevelAppended(d, existing, revisions[0]);
      forall k | 0 <= k < |rest|
        ensures rest[k] == revisions[k + 1]
      {
      }
      DevelAppendedCode(format, existing, revisions[0]);
      DevelMergedCode(format, appended, rest);
      AllCodeFiles(format, revisions[0].devel);
      AllCodeAppend(format, Files(revisions[0].devel), Devels(rest));
      Regroup(Code(format, Lines(existing)), Code(format, Lines(revisions[0].devel)), AllCode(format, Devels(rest)));
    }
  }

  lemma {:induction false} DevelAppendedCode<S>(format: Format<S>, existing: Option<seq<S>>, r: Revision<S>)
    requires format.Commented() && SkipsComments(format, Lines(r.devel))
    ensures Code(format, Lines(DevelAppended(Recording(format), existing, r)))
         == Code(format, Lines(existing)) + Code(format, Lines(r.devel))
  {
    hide Code, SkipsComments;
    var lines := Lines(r.devel);
    var added := Body(lines) + [format.blank];
    SkippedAndBody(format, lines);
    BodyCode(format, lines);
    NoCodeIff(format, []);
    CodeAppend(format, Lines(existing), added);
    HeaderAdds(format, added);
  }

  /**
   With development scripts on, a commit is safe exactly when the statements of all the files, one by one, are
   those of the up scripts put together, followed by those of the development scripts put together behind what a
   left-over script holds.
   */
  lemma {:induction false} DevelCommitPreservesIff<S(!new)>(format: Format<S>, repo: Repo<S>)
    requires Complete(repo) && format.Commented() && HeadersCommented(format, Pending(repo))
    ensures (forall d: Dialect<S, Journal<S>> | Reads(d, format) :: Preserved(d, repo, true))
       <==> (AllStatements(format, Interleaved(Pending(repo), true))
             == Split(format, AllCode(format, Ups(Pending(repo))), [])
                + Split(format, Code(format, Lines(LeftOver(repo))) + AllCode(format, Devels(Pending(repo))), []))
  {
    hide BuiltChain, Preserved, Reads;
    CommitPreservesIffSameStatements(format, repo, true);
    RegroupedStatements(format, LeftOver(repo), Pending(repo));
  }

  lemma {:induction false} RegroupedStatements<S>(format: Format<S>, existing: Option<seq<S>>,
                                                  revisions: seq<Revision<S>>)
    requires format.Commented() && HeadersCommented(format, revisions)
    ensures AllStatements(format, Regrouped(Recording(format), existing, revisions, true))
         == Split(format, AllCode(format, Ups(revisions)), [])
            + Split(format, Code(format, Lines(existing)) + AllCode(format, Devels(revisions)), [])
  {
    hide Code, SkipsComments, DevelMerged, UpBodies, Split, Interleaved, Devels;
    var d := Recording(format);
    var up, devel := d.header + UpBodies(d, revisions), DevelMerged(d, existing, revisions);
    UpBodiesKeepIff(format, revisions);
    HeaderAdds(format, UpBodies(d, revisions));
    DevelMergedCode(format, existing, revisions);
    FilesBehind(format, up, devel);
  }

  lemma {:induction false} FilesBehind<S>(format: Format<S>, up: seq<S>, devel: Option<seq<S>>)
    ensures AllStatements(format, [up] + Files(devel))
         == Split(format, Code(format, up), []) + Split(format, Code(format, Lines(devel)), [])
  {
    assert ([up] + Files(devel))[1..] == Files(devel);
    if devel.Some? {
      OneFile(format, devel.value);
    }
  }

  /** No up script with code comes after a development script with code. */
  predicate DevelsComeLast<S>(format: Format<S>, revisions: seq<Revision<S>>) {
    forall i, j | 0 <= i < j < |revisions| ::
      Code(format, Lines(revisions[i].devel)) == [] || Code(format, revisions[j].up) == []
  }

  /**
   The case to aim for: with no left-over script, development scripts only where no up script follows (in the last
   revision, say), and no statement running on from one up script, or one development script, into the next, every
   engine builds the same database before and after.
   */
  lemma {:induction false} DevelCommitPreservesIfLast<S(!new), D(!new)>(d: Dialect<S, D>, format: Format<S>,
                                                  repo: Repo<S>)
    requires Complete(repo) && Reads(d, format) && format.Commented() && HeadersCommented(format, Pending(repo))
    requires LeftOver(repo) == None && DevelsComeLast(format, Pending(repo))
    requires NoneRunsOn(format, Ups(Pending(repo))) && NoneRunsOn(format, Devels(Pending(repo)))
    ensures Preserved(d, repo, true)
  {
    hide BuiltChain, Preserved, Code, Split, Reads, AllStatements, Interleaved, Regrouped, NoneRunsOn, DevelsComeLast;
    var revisions := Pending(repo);
    RegroupedStatements(format, None, revisions);
    LastDevelsMove(format, revisions);
    JoinedIff(format, Ups(revisions));
    JoinedIff(format, Devels(revisions));
    NoCodeIff(format, []);
    NothingInFront(AllCode(format, Devels(revisions)));
    SameStatementsPreserve(d, format, repo, true);
  }

  lemma {:induction false} AllStatementsAppend<S>(format: Format<S>, a: seq<seq<S>>, b: seq<seq<S>>)
    ensures AllStatements(format, a + b) == AllStatements(format, a) + AllStatements(format, b)
    decreases |a|
  {
    hide Statements;
    if a == [] {
      assert a + b == b;
    } else {
      assert (a + b)[1..] == a[1..] + b;
      AllStatementsAppend(format, a[1..], b);
    }
  }

  lemma {:induction false} FilesWithoutCode<S>(format: Format<S>, script: Option<seq<S>>)
    requires Code(format, Lines(script)) == []
    ensures AllStatements(format, Files(script)) == []
  {
    if script.Some? {
      OneFile(format, script.value);
    }
  }

  lemma {:induction false} LastDevelsMove<S>(format: Format<S>, revisions: seq<Revision<S>>)
    requires DevelsComeLast(format, revisions)
    ensures AllStatements(format, Interleaved(revisions, true))
         == AllStatements(format, Ups(revisions)) + AllStatements(format, Devels(revisions))
    decreases |revisions|
  {
    hide Code, Statements, Files;
    if revisions != [] {
      var first, rest := revisions[0], revisions[1..];
      var up, files := [first.up], Files(first.devel);
      forall k | 0 <= k < |rest|
        ensures rest[k] == revisions[k + 1]
      {
      }
      LastDevelsMove(format, rest);
      AllStatementsAppend(format, up, files + Interleaved(rest, true));
      AllStatementsAppend(format, files, Interleaved(rest, true));
      UpsHead(revisions);
      assert Ups(revisions) == up + Ups(rest);
      AllStatementsAppend(format, up, Ups(rest));
      AllStatementsAppend(format, files, Devels(rest));
      if Code(format, Lines(first.devel)) == [] {
        FilesWithoutCode(format, first.devel);
      } else {
        NoUpStatements(format, rest);
      }
      MoveBehind(AllStatements(format, up), AllStatements(format, files),
                 AllStatements(format, Ups(rest)), AllStatements(format, Devels(rest)));
    }
  }

  lemma {:induction false} NoUpStatements<S>(format: Format<S>, revisions: seq<Revision<S>>)
    requires forall j | 0 <= j < |revisions| :: Code(format, revisions[j].up) == []
    ensures AllStatements(format, Ups(revisions)) == []
    decreases |revisions|
  {
    hide Code;
    if revisions != [] {
      UpsHead(revisions);
      NoUpStatements(format, revisions[1..]);
    }
  }

  lemma MoveBehind<T>(up: seq<T>, files: seq<T>, ups: seq<T>, devels: seq<T>)
    requires files == [] || ups == []
    ensures up + (files + (ups + devels)) == (up + ups) + (files + devels)
  {
  }

  // ---------------------------------------------------------------------------------------------
  // Where it fails

  /** Lines are numbers: zero is a comment, and positive numbers end a statement. */
  const NUMBERED: Format<int> := Format([0, 0, 0], 0, line => line == 0, line => line > 0)

  /** One committed version that does nothing, and the given revisions under development. */
  function UnderDevelopment(revisions: seq<Revision<int>>): Repo<int> {
    Repo(map[0 := Version([], [], None)], Some(revisions), 0)
  }

  lemma {:induction false} NothingCommitted(revisions: seq<Revision<int>>, devel: bool)
    ensures Complete(UnderDevelopment(revisions)) && LeftOver(UnderDevelopment(revisions)) == None
    ensures Base(Recording(NUMBERED), UnderDevelopment(revisions), devel) == Journal([], [])
  {
    var d, versions := Recording(NUMBERED), UnderDevelopment(revisions).versions;
    assert MigratedUp(d, versions, 0, devel) == (Database(Journal([], []), 0), Completed);
    assert Executed(d, [], Journal([], [])) == Journal([], []);
  }

  /** What an upgrade writes down before and after a commit. */
  function WrittenDown(revisions: seq<Revision<int>>, devel: bool): (seq<seq<int>>, seq<seq<int>>) {
    var d, repo := Recording(NUMBERED), UnderDevelopment(revisions);
    (Upgraded(d, repo, None, devel).0.contents.statements,
     Upgraded(d, Committed(d, repo), None, devel).0.contents.statements)
  }

  lemma {:induction false} BuiltFromNothing(revisions: seq<Revision<int>>, devel: bool)
    requires BuiltChain(revisions) == revisions
    ensures WrittenDown(revisions, devel)
         == (AllStatements(NUMBERED, Interleaved(revisions, devel)),
             AllStatements(NUMBERED, Regrouped(Recording(NUMBERED), None, revisions, devel)))
  {
    hide Interleaved, Regrouped, BuiltChain, AllStatements, AllRun, Upgraded, Committed;
    var d, repo := Recording(NUMBERED), UnderDevelopment(revisions);
    NothingCommitted(revisions, devel);
    UpgradesAreRuns(d, repo, devel);
    RecordingRunsAll(NUMBERED, Interleaved(revisions, devel), []);
    RecordingRunsAll(NUMBERED, Regrouped(d, None, revisions, devel), []);
    NothingInFront(AllStatements(NUMBERED, Interleaved(revisions, devel)));
    NothingInFront(AllStatements(NUMBERED, Regrouped(d, None, revisions, devel)));
  }

  lemma OneStatement(n: int)
    requires n != 0
    ensures Code(NUMBERED, [0, 0, 0, n]) == [n] && Statements(NUMBERED, [0, 0, 0, n]) == [[n]]
  {
    CodeAppend(NUMBERED, [0, 0, 0], [n]);
    NoCodeIff(NUMBERED, [0, 0, 0]);
    assert [0, 0, 0] + [n] == [0, 0, 0, n] && [n][1..] == [];
    assert Split(NUMBERED, [], [n]) == [[n]] && Split(NUMBERED, [], []) == [];
    assert [] + [n] == [n];
    assert Split(NUMBERED, [n], []) == [[n]];
  }

  lemma {:induction false} TwoFiles<S>(format: Format<S>, a: seq<S>, b: seq<S>)
    ensures AllStatements(format, [a, b]) == Statements(format, a) + Statements(format, b)
    ensures AllCode(format, [a, b]) == Code(format, a) + Code(format, b)
  {
    hide Code, Split;
    var both, last := [a, b], [b];
    assert both[1..] == last && last[1..] == [];
    OneFile(format, b);
    assert AllStatements(format, both) == Statements(format, a) + AllStatements(format, last);
    assert AllCode(format, last) == Code(format, b) + [];
    assert AllCode(format, both) == Code(format, a) + AllCode(format, last);
  }

  /** Two revisions, and a development script in the first. */
  const TWO_REVISIONS: seq<Revision<int>> := [
    Revision("a", Root, [0, 0, 0, 1], [], Some([0, 0, 0, 2])),
    Revision("b", Id("a"), [0, 0, 0, 3], [], None)]

  /**
   With development scripts on, a commit can reorder: before it each revision's development script runs right
   after the revision, afterwards all of them run last.
   */
  lemma CommitReordersDevel()
    ensures WrittenDown(TWO_REVISIONS, true) == ([[1], [2], [3]], [[1], [3], [2]])
  {
    hide Interleaved, Regrouped, BuiltChain, AllStatements, AllCode, Code, Split, Devels, WrittenDown;
    var first, second := TWO_REVISIONS[0], TWO_REVISIONS[1];
    assert first.id == "a" && second.id == "b" && "a"[0] != "b"[0];
    assert TWO_REVISIONS == [first, second];
    ChainRecoversLineage(TWO_REVISIONS, TWO_REVISIONS);
    BuiltFromNothing(TWO_REVISIONS, true);
    RegroupedStatements(NUMBERED, None, TWO_REVISIONS);
    TwoInterleaved(first, second);
    OneStatement(1);
    OneStatement(2);
    OneStatement(3);
    NoCodeIff(NUMBERED, []);
    TwoFiles(NUMBERED, first.up, first.devel.value);
    TwoFiles(NUMBERED, first.up, second.up);
    OneFile(NUMBERED, second.up);
    AllStatementsAppend(NUMBERED, [first.up, first.devel.value], [second.up]);
    OneThree();
    AllCodeFiles(NUMBERED, first.devel);
    var statements := AllStatements(NUMBERED, Interleaved(TWO_REVISIONS, true));
    assert statements == ([[1]] + [[2]]) + [[3]] == [[1], [2], [3]];
    var regrouped := AllStatements(NUMBERED, Regrouped(Recording(NUMBERED), None, TWO_REVISIONS, true));
    assert [1] + [3] == [1, 3] && [] + [2] == [2];
    assert regrouped == [[1], [3]] + [[2]] == [[1], [3], [2]];
  }

  lemma {:induction false} EndsAtOnce(n: int, code: seq<int>)
    requires n > 0
    ensures Split(NUMBERED, [n] + code, []) == [[n]] + Split(NUMBERED, code, [])
  {
    assert ([n] + code)[1..] == code && [] + [n] == [n];
  }

  lemma OneThree()
    ensures Split(NUMBERED, [1, 3], []) == [[1], [3]] && Split(NUMBERED, [2], []) == [[2]]
  {
    NoStatements();
    EndsAtOnce(3, []);
    EndsAtOnce(1, [3]);
    EndsAtOnce(2, []);
    assert [1] + [3] == [1, 3] && [3] + [] == [3] && [2] + [] == [2];
  }

  lemma TwoInterleaved<S>(a: Revision<S>, b: Revision<S>)
    requires a.devel.Some? && b.devel == None
    ensures Interleaved([a, b], true) == [a.up, a.devel.value] + [b.up]
    ensures Ups([a, b]) == [a.up, b.up] && Devels([a, b]) == Files(a.devel)
  {
    var both, last := [a, b], [b];
    assert both[1..] == last && last[1..] == [];
    forall devel: bool
      ensures Interleaved(last, devel) == [b.up]
    {
      assert Interleaved(last, devel) == [b.up] + ([] + Interleaved(last[1..], devel));
    }
    assert Interleaved(both, true) == [a.up] + (Files(a.devel) + Interleaved(last, true));
    TwoUps(a, b);
    assert Devels(last) == [] + Devels(last[1..]);
    assert Devels(both) == Files(a.devel) + Devels(last) == Files(a.devel);
  }

  /** A script without the header loses its first three lines in a commit. */
  lemma CommitDropsHeaderlessLines()
    ensures WrittenDown([Revision("a", Root, [1, 2, 3], [], None)], false) == ([[1], [2], [3]], [])
  {
    hide BuiltChain, Code, Split, WrittenDown;
    var revisions: seq<Revision<int>> := [Revision("a", Root, [1, 2, 3], [], None)];
    ChainRecoversLineage(revisions, revisions);
    BuiltFromNothing(revisions, false);
    assert revisions[1..] == [];
    assert Interleaved(revisions, false) == [[1, 2, 3]];
    OneFile(NUMBERED, [1, 2, 3]);
    ThreeStatements();
    assert UpBodies(Recording(NUMBERED), revisions) == [0];
    var merged := Recording(NUMBERED).header + [0];
    OneFile(NUMBERED, merged);
    NoCodeIff(NUMBERED, merged);
    NoStatements();
  }

  lemma NoStatements()
    ensures Split(NUMBERED, [], []) == []
  {
  }

  lemma ThreeStatements()
    ensures Statements(NUMBERED, [1, 2, 3]) == [[1], [2], [3]]
  {
    assert [1, 2, 3][1..] == [2, 3] && [2, 3][1..] == [3] && [3][1..] == [];
    assert Code(NUMBERED, [3]) == [3] && Code(NUMBERED, [2, 3]) == [2, 3] && Code(NUMBERED, [1, 2, 3]) == [1, 2, 3];
    hide Code, Split;
    NoStatements();
    EndsAtOnce(3, []);
    EndsAtOnce(2, [3]);
    EndsAtOnce(1, [2, 3]);
    assert [1] + [2, 3] == [1, 2, 3] && [2] + [3] == [2, 3] && [3] + [] == [3];
  }

  /** Two revisions with commented headers, the first of which does not end its only statement. */
  const UNTERMINATED: seq<Revision<int>> := [
    Revision("a", Root, [0, 0, 0, -1], [], None),
    Revision("b", Id("a"), [0, 0, 0, 2], [], None)]

  /** The end of the first file ends that statement before the commit; afterwards it runs on into the second. */
  lemma CommitJoinsUnterminated()
    ensures WrittenDown(UNTERMINATED, false) == ([[-1], [2]], [[-1, 2]])
  {
    hide Interleaved, BuiltChain, AllStatements, AllCode, Code, Split, WrittenDown;
    var first, second := UNTERMINATED[0], UNTERMINATED[1];
    assert first.id == "a" && second.id == "b" && "a"[0] != "b"[0];
    assert UNTERMINATED == [first, second];
    ChainRecoversLineage(UNTERMINATED, UNTERMINATED);
    BuiltFromNothing(UNTERMINATED, false);
    TwoUps(first, second);
    OneStatement(-1);
    OneStatement(2);
    TwoFiles(NUMBERED, first.up, second.up);
    var merged := Merged(Recording(NUMBERED), None, UNTERMINATED).up;
    OneFile(NUMBERED, merged);
    UpBodiesKeepIff(NUMBERED, UNTERMINATED);
    HeaderAdds(NUMBERED, UpBodies(Recording(NUMBERED), UNTERMINATED));
    assert AllStatements(NUMBERED, Ups(UNTERMINATED)) == [[-1]] + [[2]] == [[-1], [2]];
    assert Code(NUMBERED, merged) == [-1] + [2] == [-1, 2];
    RunsOn();
    assert AllStatements(NUMBERED, [merged]) == [[-1, 2]];
    assert Regrouped(Recording(NUMBERED), None, UNTERMINATED, false) == [merged];
  }

  lemma TwoUps<S>(a: Revision<S>, b: Revision<S>)
    ensures Ups([a, b]) == [a.up, b.up]
  {
    var both, last := [a, b], [b];
    assert both[1..] == last && last[1..] == [];
    UpsHead(both);
    UpsHead(last);
    assert Ups(both) == [a.up] + Ups(last) && Ups(last) == [b.up] + Ups(last[1..]);
  }

  lemma RunsOn()
    ensures Split(NUMBERED, [-1, 2], []) == [[-1, 2]]
  {
    var code, last: seq<int> := [-1, 2], [2];
    assert code[1..] == last && last[1..] == [];
    NoStatements();
    assert Split(NUMBERED, last, [-1]) == [[-1] + [2]] + Split(NUMBERED, last[1..], []);
    assert Split(NUMBERED, code, []) == Split(NUMBERED, last, [] + [-1]);
    assert [] + [-1] == [-1] && [-1] + [2] == [-1, 2];
  }
}
