/**
 Committing loses nothing: the database built from the frozen version is the one built from the revisions, the
 merged down script undoes the merged up script, and over any history of revisions and commits the database is
 what the revisions make of it in the order they were created.
 */
module MigrationLaws {
  import opened Options
  import opened RevisionChain
  import opened DbMigration

  ghost predicate Inert<S, D(!new)>(d: Dialect<S, D>, line: S) {
    forall x :: d.exec(line, x) == x
  }

  /** No statement is left unfinished. */
  ghost predicate Settled<S, D>(d: Dialect<S, D>, x: D) {
    d.finish(x) == x
  }

  /** The lines the tool writes are comments, and the end of a file leaves nothing unfinished. */
  ghost predicate Conventional<S, D(!new)>(d: Dialect<S, D>) {
    && |d.header| == HEADER_LINES && Inert(d, d.blank) && (forall i | 0 <= i < |d.header| :: Inert(d, d.header[i]))
    && forall x :: Settled(d, d.finish(x))
  }

  /** The lines `read_sql` skips are comments. */
  ghost predicate HeaderOnly<S, D(!new)>(d: Dialect<S, D>, file: seq<S>) {
    forall i | 0 <= i < |file| && i < HEADER_LINES :: Inert(d, file[i])
  }

  /** The script finishes what it begins, without the help of the end of its file. */
  ghost predicate Terminated<S, D(!new)>(d: Dialect<S, D>, file: seq<S>) {
    forall x | Settled(d, x) :: Settled(d, RunScript(d, file, x))
  }

  /** Merging the up scripts skips nothing but comments, and every script with another behind it is terminated. */
  ghost predicate Mergeable<S, D(!new)>(d: Dialect<S, D>, revisions: seq<Revision<S>>) {
    forall k | 0 <= k < |revisions| ::
      HeaderOnly(d, revisions[k].up) && (k + 1 < |revisions| ==> Terminated(d, revisions[k].up))
  }

  /** The same for the down scripts, which are merged the other way round. */
  ghost predicate MergeableDown<S, D(!new)>(d: Dialect<S, D>, revisions: seq<Revision<S>>) {
    forall k | 0 <= k < |revisions| ::
      HeaderOnly(d, revisions[k].down) && (k > 0 ==> Terminated(d, revisions[k].down))
  }

  // ---------------------------------------------------------------------------------------------
  // Scripts

  lemma {:induction false} RunAppend<S, D>(d: Dialect<S, D>, a: seq<S>, b: seq<S>, x: D)
    ensures RunScript(d, a + b, x) == RunScript(d, b, RunScript(d, a, x))
    decreases |a|
  {
    if a == [] {
      assert a + b == b;
    } else {
      assert (a + b)[1..] == a[1..] + b;
      RunAppend(d, a[1..], b, d.exec(a[0], x));
    }
  }

  lemma {:induction false} InertScript<S, D(!new)>(d: Dialect<S, D>, script: seq<S>, x: D)
    requires forall i | 0 <= i < |script| :: Inert(d, script[i])
    ensures RunScript(d, script, x) == x
    decreases |script|
  {
    if script != [] {
      assert Inert(d, script[0]);
      forall i | 0 <= i < |script[1..]|
        ensures Inert(d, script[1..][i])
      {
        assert script[1..][i] == script[i + 1];
      }
      InertScript(d, script[1..], x);
    }
  }

  /** Skipping the header and adding a blank line changes nothing. */
  lemma {:induction false} BodyRunsAlike<S, D(!new)>(d: Dialect<S, D>, file: seq<S>, x: D)
    requires Conventional(d) && HeaderOnly(d, file)
    ensures RunScript(d, Body(file) + [d.blank], x) == RunScript(d, file, x)
  {
    var head := file[..|file| - |Body(file)|];
    assert file == head + Body(file);
    RunAppend(d, head, Body(file), x);
    InertScript(d, head, x);
    RunAppend(d, Body(file), [d.blank], x);
    InertScript(d, [d.blank], RunScript(d, Body(file), x));
  }

  /** With nothing unfinished before it, the end of the last file ends all of them. */
  lemma {:induction false} UpBodiesRunAlike<S, D(!new)>(d: Dialect<S, D>, revisions: seq<Revision<S>>, x: D)
    requires Conventional(d) && Mergeable(d, revisions) && Settled(d, x)
    ensures Executed(d, UpBodies(d, revisions), x) == RevisionsApplied(d, revisions, false, x)
    decreases |revisions|
  {
    if revisions != [] {
      var first, rest := revisions[0], revisions[1..];
      hide HeaderOnly, Terminated, RunScript;
      RunNothing(d, Executed(d, first.up, x));
      RunAppend(d, Body(first.up) + [d.blank], UpBodies(d, rest), x);
      BodyRunsAlike(d, first.up, x);
      if rest == [] {
        RunNothing(d, RunScript(d, first.up, x));
      } else {
        TerminatedSettles(d, first.up, x);
        MergeableRest(d, revisions);
        UpBodiesRunAlike(d, rest, RunScript(d, first.up, x));
      }
    }
  }

  lemma {:induction false} RunNothing<S, D>(d: Dialect<S, D>, x: D)
    ensures RunScript(d, [], x) == x
  {
  }

  lemma {:induction false} TerminatedSettles<S, D(!new)>(d: Dialect<S, D>, file: seq<S>, x: D)
    requires Terminated(d, file) && Settled(d, x)
    ensures Settled(d, RunScript(d, file, x)) && Executed(d, file, x) == RunScript(d, file, x)
  {
  }

  lemma MergeableRest<S, D(!new)>(d: Dialect<S, D>, revisions: seq<Revision<S>>)
    requires Mergeable(d, revisions) && revisions != []
    ensures Mergeable(d, revisions[1..])
  {
    hide HeaderOnly, Terminated;
    forall k | 0 <= k < |revisions| - 1
      ensures revisions[1..][k] == revisions[k + 1]
    {
    }
  }

  /** The merged up script does what the revisions do one after the other. */
  lemma {:induction false} MergedUpRunsAlike<S, D(!new)>(d: Dialect<S, D>, existing: Option<seq<S>>,
                                                               revisions: seq<Revision<S>>, x: D)
    requires Conventional(d) && Mergeable(d, revisions) && Settled(d, x)
    ensures Executed(d, Merged(d, existing, revisions).up, x) == RevisionsApplied(d, revisions, false, x)
  {
    RunAppend(d, d.header, UpBodies(d, revisions), x);
    InertScript(d, d.header, x);
    UpBodiesRunAlike(d, revisions, x);
  }

  // ---------------------------------------------------------------------------------------------
  // Commit

  /**
   With development scripts off, upgrading gives the same contents before and after a commit, whatever versions
   are there or missing; only the recorded version moves on.
   */
  lemma CommitPreservesContents<S, D(!new)>(d: Dialect<S, D>, repo: Repo<S>)
    requires Conventional(d)
    requires repo.current.Some? ==> Mergeable(d, BuiltChain(repo.current.value))
    ensures
      var (before, status) := Upgraded(d, repo, None, false);
      var (after, newStatus) := Upgraded(d, Committed(d, repo), None, false);
      && after.contents == before.contents
      && (status == MissingScript <==> newStatus == MissingScript)
      && (repo.current.Some? && status != MissingScript ==>
            newStatus == Completed && after.userVersion == repo.version + 1)
  {
    if repo.current.Some? {
      var revisions := BuiltChain(repo.current.value);
      var next := repo.version + 1;
      var existing := ExistingDevel(repo.versions, next);
      var versions := repo.versions[next := Merged(d, existing, revisions)];
      LaterVersionIrrelevant(d, repo.versions, next, Merged(d, existing, revisions), next, false);
      var (db, status) := MigratedUp(d, repo.versions, next, false);
      StatusIsBinary(d, repo.versions, next, false);
      if status == Completed {
        MigratedIsSettled(d, repo.versions, next, false);
        MergedUpRunsAlike(d, existing, revisions, db.contents);
      }
      StatusIsBinary(d, versions, next + 1, false);
      assert MigratedUp(d, versions, next + 1, false)
          == if status != Completed then (db, status)
             else (VersionApplied(d, versions[next], next, false, db), Completed);
    } else {
      StatusIsBinary(d, repo.versions, repo.version + 1, false);
    }
  }

  /** Every file that has run left nothing unfinished. */
  lemma {:induction false} MigratedIsSettled<S, D(!new)>(d: Dialect<S, D>, versions: map<nat, Version<S>>,
                                                         count: nat, devel: bool)
    requires (forall x :: Settled(d, d.finish(x))) && count > 0 && MigratedUp(d, versions, count, devel).1 == Completed
    ensures Settled(d, MigratedUp(d, versions, count, devel).0.contents)
  {
    hide RunScript;
  }

  lemma {:induction false} StatusIsBinary<S, D>(d: Dialect<S, D>, versions: map<nat, Version<S>>, count: nat,
                                                devel: bool)
    ensures MigratedUp(d, versions, count, devel).1 in {Completed, MissingScript}
    decreases count
  {
    if count > 0 {
      StatusIsBinary(d, versions, count - 1, devel);
    }
  }

  lemma {:induction false} LaterVersionIrrelevant<S, D>(d: Dialect<S, D>, versions: map<nat, Version<S>>, at: nat,
                                                       v: Version<S>, count: nat, devel: bool)
    requires count <= at
    ensures MigratedUp(d, versions[at := v], count, devel) == MigratedUp(d, versions, count, devel)
    decreases count
  {
    if count > 0 {
      LaterVersionIrrelevant(d, versions, at, v, count - 1, devel);
    }
  }

  /** When every script is there, the recorded version is the committed one. */
  lemma {:induction false} RecordedVersion<S, D>(d: Dialect<S, D>, versions: map<nat, Version<S>>, version: nat,
                                                        devel: bool)
    requires forall i | 0 <= i <= version :: i in versions
    ensures
      var (db, status) := MigratedUp(d, versions, version + 1, devel);
      status == Completed && db.userVersion == version
    decreases version
  {
    if version > 0 {
      RecordedVersion(d, versions, version - 1, devel);
    }
  }

  // ---------------------------------------------------------------------------------------------
  // Down scripts

  /** Each down script takes the database back to where its up script found it. */
  ghost predicate EachUndone<S, D>(d: Dialect<S, D>, revisions: seq<Revision<S>>, x: D)
    decreases |revisions|
  {
    revisions == [] ||
    (var upgraded := Executed(d, revisions[0].up, x);
     && Executed(d, revisions[0].down, upgraded) == x
     && EachUndone(d, revisions[1..], upgraded))
  }

  lemma {:induction false} AppliedIsSettled<S, D(!new)>(d: Dialect<S, D>, revisions: seq<Revision<S>>, x: D)
    requires Conventional(d) && Settled(d, x)
    ensures Settled(d, RevisionsApplied(d, revisions, false, x))
    decreases |revisions|
  {
    if revisions != [] {
      AppliedIsSettled(d, revisions[1..], Executed(d, revisions[0].up, x));
    }
  }

  /** Down scripts that are all terminated leave nothing unfinished between them. */
  lemma {:induction false} DownBodiesSettle<S, D(!new)>(d: Dialect<S, D>, revisions: seq<Revision<S>>, x: D)
    requires Conventional(d) && Settled(d, x)
    requires forall k | 0 <= k < |revisions| :: HeaderOnly(d, revisions[k].down) && Terminated(d, revisions[k].down)
    ensures Settled(d, RunScript(d, DownBodies(d, revisions), x))
    decreases |revisions|
  {
    hide HeaderOnly, Terminated, RunScript;
    if revisions == [] {
      RunNothing(d, x);
    } else {
      var file := revisions[0].down;
      var between := RunScript(d, DownBodies(d, revisions[1..]), x);
      forall k | 0 <= k < |revisions| - 1
        ensures revisions[1..][k] == revisions[k + 1]
      {
      }
      DownBodiesSettle(d, revisions[1..], x);
      RunAppend(d, DownBodies(d, revisions[1..]), Body(file) + [d.blank], x);
      BodyRunsAlike(d, file, between);
      TerminatedSettles(d, file, between);
    }
  }

  lemma {:induction false} DownBodiesUndo<S, D(!new)>(d: Dialect<S, D>, revisions: seq<Revision<S>>, x: D)
    requires Conventional(d) && MergeableDown(d, revisions) && EachUndone(d, revisions, x) && Settled(d, x)
    ensures Executed(d, DownBodies(d, revisions), RevisionsApplied(d, revisions, false, x)) == x
    decreases |revisions|
  {
    hide HeaderOnly, Terminated, RunScript;
    if revisions == [] {
      RunNothing(d, x);
    } else {
      var file, rest := revisions[0].down, revisions[1..];
      var upgraded := Executed(d, revisions[0].up, x);
      var applied := RevisionsApplied(d, rest, false, upgraded);
      forall k | 0 <= k < |rest|
        ensures rest[k] == revisions[k + 1]
      {
      }
      AppliedIsSettled(d, rest, upgraded);
      DownBodiesUndo(d, rest, upgraded);
      DownBodiesSettle(d, rest, applied);
      RunAppend(d, DownBodies(d, rest), Body(file) + [d.blank], applied);
      BodyRunsAlike(d, file, upgraded);
    }
  }

  /** If every revision can be undone where it was applied, the merged down script undoes the merged up script. */
  lemma {:induction false} MergedDownUndoesMergedUp<S, D(!new)>(d: Dialect<S, D>, existing: Option<seq<S>>,
                                            revisions: seq<Revision<S>>, x: D)
    requires Conventional(d) && Mergeable(d, revisions) && MergeableDown(d, revisions)
    requires EachUndone(d, revisions, x) && Settled(d, x)
    ensures
      var merged := Merged(d, existing, revisions);
      Executed(d, merged.down, Executed(d, merged.up, x)) == x
  {
    var applied := RevisionsApplied(d, revisions, false, x);
    MergedUpRunsAlike(d, existing, revisions, x);
    RunAppend(d, d.header, DownBodies(d, revisions), applied);
    InertScript(d, d.header, applied);
    DownBodiesUndo(d, revisions, x);
  }

  // ---------------------------------------------------------------------------------------------
  // Histories

  /** A step of development; `listing` is the order the file system lists the directory in. */
  datatype Act<S> =
    | Revise(listing: seq<Revision<S>>, id: string, up: seq<S>, down: seq<S>, devel: Option<seq<S>>)
    | Commit(listing: seq<Revision<S>>)

  function Listed<S>(repo: Repo<S>): seq<Revision<S>> {
    if repo.current.None? then [] else repo.current.value
  }

  ghost predicate Possible<S, D(!new)>(d: Dialect<S, D>, repo: Repo<S>, act: Act<S>) {
    && SameEntries(act.listing, Listed(repo))
    && (act.Revise? ==> forall r | r in act.listing :: r.id != act.id)
    && (act.Commit? ==> Mergeable(d, BuiltChain(act.listing)))
  }

  function Acted<S, D>(d: Dialect<S, D>, repo: Repo<S>, act: Act<S>): Repo<S> {
    match act
    case Revise(listing, id, up, down, devel) =>
      repo.(current := Some(listing + [NewRevision(listing, id, up, down, devel)]))
    case Commit(listing) =>
      if repo.current.None? then repo else Committed(d, repo.(current := Some(listing)))
  }

  function Developed<S, D>(d: Dialect<S, D>, repo: Repo<S>, acts: seq<Act<S>>): Repo<S>
    decreases |acts|
  {
    if acts == [] then repo else Developed(d, Acted(d, repo, acts[0]), acts[1..])
  }

  ghost predicate PossibleRun<S, D(!new)>(d: Dialect<S, D>, repo: Repo<S>, acts: seq<Act<S>>)
    decreases |acts|
  {
    acts == [] || (Possible(d, repo, acts[0]) && PossibleRun(d, Acted(d, repo, acts[0]), acts[1..]))
  }

  /** The up scripts written in the course of a run, in the order they were written. */
  function Written<S>(acts: seq<Act<S>>): seq<seq<S>>
    decreases |acts|
  {
    if acts == [] then []
    else (if acts[0].Revise? then [acts[0].up] else []) + Written(acts[1..])
  }

  function AllRun<S, D>(d: Dialect<S, D>, scripts: seq<seq<S>>, x: D): D {
    if scripts == [] then x else AllRun(d, scripts[1..], Executed(d, scripts[0], x))
  }

  /** All versions are there, and the revisions under development form a history. */
  ghost predicate InOrder<S>(repo: Repo<S>, pending: seq<Revision<S>>) {
    && (forall i | 0 <= i <= repo.version :: i in repo.versions)
    && Lineage(pending) && SameEntries(Listed(repo), pending)
    && (repo.current.Some? ==> pending != [])
  }

  /** What an upgrade builds when the revisions under development were created in the order of `pending`. */
  function Contents<S, D>(d: Dialect<S, D>, repo: Repo<S>, pending: seq<Revision<S>>): D {
    RevisionsApplied(d, pending, false, MigratedUp(d, repo.versions, repo.version + 1, false).0.contents)
  }

  lemma ContentsAreUpgraded<S, D(!new)>(d: Dialect<S, D>, repo: Repo<S>, pending: seq<Revision<S>>)
    requires InOrder(repo, pending)
    ensures Upgraded(d, repo, None, false) == (Database(Contents(d, repo, pending), repo.version), Completed)
  {
    RecordedVersion(d, repo.versions, repo.version, false);
    if repo.current.Some? {
      ChainRecoversLineage(repo.current.value, pending);
    } else {
      SameEntriesSize(Listed(repo), pending);
    }
  }

  lemma {:induction false} AppliedAppend<S, D>(d: Dialect<S, D>, revisions: seq<Revision<S>>, r: Revision<S>, x: D)
    ensures RevisionsApplied(d, revisions + [r], false, x)
         == Executed(d, r.up, RevisionsApplied(d, revisions, false, x))
    decreases |revisions|
  {
    if revisions == [] {
      assert revisions + [r] == [r];
    } else {
      assert (revisions + [r])[1..] == revisions[1..] + [r];
      AppliedAppend(d, revisions[1..], r, Executed(d, revisions[0].up, x));
    }
  }

  lemma ReviseStep<S, D(!new)>(d: Dialect<S, D>, repo: Repo<S>, pending: seq<Revision<S>>, act: Act<S>)
      returns (next: seq<Revision<S>>)
    requires InOrder(repo, pending) && Possible(d, repo, act) && act.Revise?
    ensures InOrder(Acted(d, repo, act), next)
    ensures Contents(d, Acted(d, repo, act), next) == Executed(d, act.up, Contents(d, repo, pending))
  {
    hide BuiltChain, Mergeable, Executed, MigratedUp, NewRevision, Lineage;
    var entry := NewRevision(act.listing, act.id, act.up, act.down, act.devel);
    next := pending + [entry];
    SameEntriesSize(act.listing, pending);
    NewRevisionExtends(act.listing, pending, act.id, act.up, act.down, act.devel);
    NewRevisionRecords(act.listing, act.id, act.up, act.down, act.devel);
    OneMoreEntry(act.listing, pending, entry);
    AppliedAppend(d, pending, entry, MigratedUp(d, repo.versions, repo.version + 1, false).0.contents);
  }

  lemma NewRevisionRecords<S>(listing: seq<Revision<S>>, id: string, up: seq<S>, down: seq<S>, devel: Option<seq<S>>)
    ensures NewRevision(listing, id, up, down, devel).up == up
  {
  }

  lemma OneMoreEntry<S>(listing: seq<Revision<S>>, pending: seq<Revision<S>>, entry: Revision<S>)
    requires SameEntries(listing, pending)
    ensures SameEntries(listing + [entry], pending + [entry])
  {
  }

  lemma CommitStep<S, D(!new)>(d: Dialect<S, D>, repo: Repo<S>, pending: seq<Revision<S>>, act: Act<S>)
      returns (next: seq<Revision<S>>)
    requires InOrder(repo, pending) && Possible(d, repo, act) && act.Commit? && Conventional(d)
    ensures InOrder(Acted(d, repo, act), next)
    ensures Contents(d, Acted(d, repo, act), next) == Contents(d, repo, pending)
  {
    hide Merged, BuiltChain, Mergeable, Executed, Conventional;
    if repo.current.None? {
      return pending;
    }
    next := [];
    var listed := repo.(current := Some(act.listing));
    ChainRecoversLineage(act.listing, pending);
    CommitKeepsOrder(d, listed, pending);
    CommitPreservesContents(d, listed);
    ContentsAreUpgraded(d, listed, pending);
    ContentsAreUpgraded(d, Committed(d, listed), next);
  }

  lemma CommitKeepsOrder<S, D>(d: Dialect<S, D>, repo: Repo<S>, pending: seq<Revision<S>>)
    requires InOrder(repo, pending) && repo.current.Some?
    ensures InOrder(Committed(d, repo), [])
  {
    hide Merged, BuiltChain;
  }

  /**
   On every run of revisions and commits, whatever order directories are listed in, upgrading yields what the
   starting point upgrades to with every written up script run on top, in the order they were written. Only what
   is committed has to be mergeable.
   */
  lemma {:induction false} HistoryIsWhatWasWritten<S, D(!new)>(d: Dialect<S, D>, repo: Repo<S>,
                                                               pending: seq<Revision<S>>,
                                                              acts: seq<Act<S>>)
    requires Conventional(d) && InOrder(repo, pending) && PossibleRun(d, repo, acts)
    ensures
      var (before, _) := Upgraded(d, repo, None, false);
      var (after, status) := Upgraded(d, Developed(d, repo, acts), None, false);
      && status == Completed
      && after.userVersion == Developed(d, repo, acts).version
      && after.contents == AllRun(d, Written(acts), before.contents)
    decreases |acts|
  {
    ContentsAreUpgraded(d, repo, pending);
    if acts != [] {
      var act := acts[0];
      var next;
      if act.Revise? {
        next := ReviseStep(d, repo, pending, act);
        assert ([act.up] + Written(acts[1..]))[1..] == Written(acts[1..]);
      } else {
        next := CommitStep(d, repo, pending, act);
        assert [] + Written(acts[1..]) == Written(acts[1..]);
      }
      ContentsAreUpgraded(d, Acted(d, repo, act), next);
      HistoryIsWhatWasWritten(d, Acted(d, repo, act), next, acts[1..]);
    }
  }
}
