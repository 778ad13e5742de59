/**
 Building a database from its migration scripts, and freezing the revisions under development into a new
 version. Scripts are sequences of lines folded over an abstract database; a file starts with three lines of
 licence header, which `read_sql` skips and merging writes afresh.
 */
module DbMigration {
  import opened Options
  import opened Sequences
  import opened RevisionChain

  const HEADER_LINES: nat := 3

  /**
   What a line does to a database, what the end of a file does, the empty database, and the lines the tool writes
   by itself. A database may hold a statement that is not finished yet, from line to line; the end of the file it
   is in completes it.
   */
  datatype Dialect<!S, !D> = Dialect(exec: (S, D) -> D, finish: D -> D, empty: D, header: seq<S>, blank: S)

  datatype Version<S> = Version(up: seq<S>, down: seq<S>, devel: Option<seq<S>>)

  datatype Database<D> = Database(contents: D, userVersion: nat)

  datatype Status = Completed | MissingScript | NoRevisions | RevisionNotFound

  /** The migration directory of one database, and the version recorded for it. */
  datatype Repo<S> = Repo(versions: map<nat, Version<S>>, current: Option<seq<Revision<S>>>, version: nat)

  function RunScript<S, D>(d: Dialect<S, D>, script: seq<S>, x: D): D {
    if script == [] then x else RunScript(d, script[1..], d.exec(script[0], x))
  }

  /** A whole file. */
  function Executed<S, D>(d: Dialect<S, D>, script: seq<S>, x: D): D {
    d.finish(RunScript(d, script, x))
  }

  // ---------------------------------------------------------------------------------------------
  // Upgrading

  /** After the committed versions below `count`. */
  function MigratedUp<S, D>(d: Dialect<S, D>, versions: map<nat, Version<S>>, count: nat, devel: bool)
      : (Database<D>, Status)
  {
    if count == 0 then (Database(d.empty, 0), Completed)
    else
      var (db, status) := MigratedUp(d, versions, count - 1, devel);
      if status != Completed then (db, status)
      else if count - 1 !in versions then (db, MissingScript)
      else (VersionApplied(d, versions[count - 1], count - 1, devel, db), Completed)
  }

  function VersionApplied<S, D>(d: Dialect<S, D>, v: Version<S>, i: nat, devel: bool, db: Database<D>): Database<D> {
    var upgraded := ScriptExecuted(d, v.up, i, db);
    if devel && v.devel.Some? then ScriptExecuted(d, v.devel.value, i, upgraded) else upgraded
  }

  /** Version 0 is never recorded: zero counts as no version given. */
  function ScriptExecuted<S, D>(d: Dialect<S, D>, script: seq<S>, version: nat, db: Database<D>): Database<D> {
    Database(Executed(d, script, db.contents), if version != 0 then version else db.userVersion)
  }

  function RevisionsApplied<S, D>(d: Dialect<S, D>, revisions: seq<Revision<S>>, devel: bool, x: D): D {
    if revisions == [] then x
    else
      var upgraded := Executed(d, revisions[0].up, x);
      var developed :=
        if devel && revisions[0].devel.Some? then Executed(d, revisions[0].devel.value, upgraded) else upgraded;
      RevisionsApplied(d, revisions[1..], devel, developed)
  }

  /** The revisions up to and including the first one called `rev`. */
  function UpTo<S>(revisions: seq<Revision<S>>, rev: string): Option<seq<Revision<S>>> {
    if revisions == [] then None
    else if revisions[0].id == rev then Some([revisions[0]])
    else Prefixed([revisions[0]], UpTo(revisions[1..], rev))
  }

  function Prefixed<T>(front: seq<T>, rest: Option<seq<T>>): Option<seq<T>> {
    match rest
    case None => None
    case Some(s) => Some(front + s)
  }

  lemma PrefixedTwice<T>(a: seq<T>, b: seq<T>, rest: Option<seq<T>>)
    ensures Prefixed(a, Prefixed(b, rest)) == Prefixed(a + b, rest)
  {
    if rest.Some? {
      assert a + (b + rest.value) == (a + b) + rest.value;
    }
  }

  function Upgraded<S, D>(d: Dialect<S, D>, repo: Repo<S>, rev: Option<string>, devel: bool): (Database<D>, Status) {
    var (db, status) := MigratedUp(d, repo.versions, repo.version + 1, devel);
    if status != Completed || repo.current.None? then (db, status)
    else
      var revisions := BuiltChain(repo.current.value);
      match rev
      case None =>
        if revisions == [] then (db, NoRevisions)
        else (db.(contents := RevisionsApplied(d, revisions, devel, db.contents)), Completed)
      case Some(id) =>
        match UpTo(revisions, id)
        case None => (db, RevisionNotFound)
        case Some(front) => (db.(contents := RevisionsApplied(d, front, devel, db.contents)), Completed)
  }

  // ---------------------------------------------------------------------------------------------
  // Committing

  /** A file without its header, as `read_sql` returns it. */
  function Body<S>(file: seq<S>): seq<S> {
    if |file| <= HEADER_LINES then [] else file[HEADER_LINES..]
  }

  function UpBodies<S, D>(d: Dialect<S, D>, revisions: seq<Revision<S>>): seq<S> {
    if revisions == [] then []
    else (Body(revisions[0].up) + [d.blank]) + UpBodies(d, revisions[1..])
  }

  /** Down scripts are merged in reversed order. */
  function DownBodies<S, D>(d: Dialect<S, D>, revisions: seq<Revision<S>>): seq<S> {
    if revisions == [] then []
    else DownBodies(d, revisions[1..]) + (Body(revisions[0].down) + [d.blank])
  }

  function DevelMerged<S, D>(d: Dialect<S, D>, existing: Option<seq<S>>, revisions: seq<Revision<S>>): Option<seq<S>>
    decreases |revisions|
  {
    if revisions == [] then existing
    else DevelMerged(d, DevelAppended(d, existing, revisions[0]), revisions[1..])
  }

  function DevelAppended<S, D>(d: Dialect<S, D>, existing: Option<seq<S>>, r: Revision<S>): Option<seq<S>> {
    if r.devel.Some? && Body(r.devel.value) != [] then
      Some((if existing.Some? then existing.value else d.header) + (Body(r.devel.value) + [d.blank]))
    else existing
  }

  function Merged<S, D>(d: Dialect<S, D>, existing: Option<seq<S>>, revisions: seq<Revision<S>>): Version<S> {
    Version(d.header + UpBodies(d, revisions),
            d.header + DownBodies(d, revisions),
            DevelMerged(d, existing, revisions))
  }

  /** A leftover directory of the new version keeps its development script. */
  function ExistingDevel<S>(versions: map<nat, Version<S>>, version: nat): Option<seq<S>> {
    if version in versions then versions[version].devel else None
  }

  function Committed<S, D>(d: Dialect<S, D>, repo: Repo<S>): Repo<S> {
    match repo.current
    case None => repo
    case Some(listing) =>
      var next := repo.version + 1;
      Repo(repo.versions[next := Merged(d, ExistingDevel(repo.versions, next), BuiltChain(listing))], None, next)
  }

  // ---------------------------------------------------------------------------------------------
  // The tool

  method BuildRevisionEntriesUpTo<S>(revisions: seq<Revision<S>>, rev: string) returns (front: Option<seq<Revision<S>>>)
    ensures front == UpTo(revisions, rev)
  {
    var range: seq<Revision<S>> := [];
    assert revisions[0..] == revisions;
    if UpTo(revisions, rev).Some? {
      assert [] + UpTo(revisions, rev).value == UpTo(revisions, rev).value;
    }
    for k := 0 to |revisions|
      invariant range == revisions[..k]
      invariant UpTo(revisions, rev) == Prefixed(range, UpTo(revisions[k..], rev))
    {
      assert revisions[k..][1..] == revisions[k + 1..];
      PrefixedTwice(range, [revisions[k]], UpTo(revisions[k + 1..], rev));
      range := range + [revisions[k]];
      if revisions[k].id == rev {
        return Some(range);
      }
    }
    return None;
  }

  lemma {:induction false} BodiesNext<S, D>(d: Dialect<S, D>, existing: Option<seq<S>>,
                                            revisions: seq<Revision<S>>, k: nat)
    requires k < |revisions|
    ensures UpBodies(d, revisions[..k + 1]) == UpBodies(d, revisions[..k]) + (Body(revisions[k].up) + [d.blank])
    ensures DevelMerged(d, existing, revisions[..k + 1])
         == DevelAppended(d, DevelMerged(d, existing, revisions[..k]), revisions[k])
    decreases k
  {
    hide Body, DevelAppended;
    if k == 0 {
      assert revisions[..1][1..] == [];
    } else {
      var rest := revisions[1..];
      assert revisions[..k + 1][1..] == rest[..k] && revisions[..k][1..] == rest[..k - 1];
      BodiesNext(d, DevelAppended(d, existing, revisions[0]), rest, k - 1);
    }
  }

  lemma {:induction false} DownBodiesNext<S, D>(d: Dialect<S, D>, revisions: seq<Revision<S>>, k: nat)
    requires k < |revisions|
    ensures DownBodies(d, revisions[k..]) == DownBodies(d, revisions[k + 1..]) + (Body(revisions[k].down) + [d.blank])
  {
    hide Body;
    assert revisions[k..][1..] == revisions[k + 1..];
  }

  lemma {:induction false} NothingMerged<S, D>(d: Dialect<S, D>, existing: Option<seq<S>>)
    ensures UpBodies(d, []) == [] && DownBodies(d, []) == [] && DevelMerged(d, existing, []) == existing
  {
  }

  method MergeSqlFromDir<S, D>(d: Dialect<S, D>, directory: seq<Revision<S>>, existing: Option<seq<S>>)
      returns (out: Version<S>)
    ensures out == Merged(d, existing, BuiltChain(directory))
  {
    hide Body, UpBodies, DownBodies, DevelMerged, BuiltChain;
    var revisions := BuildRevisionEntries(directory);
    var up, down, devel := d.header, d.header, existing;
    NothingMerged(d, existing);
    for k := 0 to |revisions|
      invariant up == d.header + UpBodies(d, revisions[..k])
      invariant devel == DevelMerged(d, existing, revisions[..k])
    {
      BodiesNext(d, existing, revisions, k);
      Regroup(d.header, UpBodies(d, revisions[..k]), Body(revisions[k].up) + [d.blank]);
      up := up + (Body(revisions[k].up) + [d.blank]);
      if revisions[k].devel.Some? && Body(revisions[k].devel.value) != [] {
        if devel.None? {
          devel := Some(d.header);
        }
        devel := Some(devel.value + (Body(revisions[k].devel.value) + [d.blank]));
      }
    }
    assert revisions[..|revisions|] == revisions && revisions[|revisions|..] == [];
    for k := |revisions| downto 0
      invariant down == d.header + DownBodies(d, revisions[k..])
    {
      DownBodiesNext(d, revisions, k);
      Regroup(d.header, DownBodies(d, revisions[k + 1..]), Body(revisions[k].down) + [d.blank]);
      down := down + (Body(revisions[k].down) + [d.blank]);
    }
    assert revisions[0..] == revisions;
    return Version(up, down, devel);
  }

  class Migration<!S, !D> {
    const dialect: Dialect<S, D>
    /** The database directory and its entry in the database set. */
    var versions: map<nat, Version<S>>
    var current: Option<seq<Revision<S>>>
    var version: nat
    /** The generated database. */
    var output: Database<D>

    ghost function State(): Repo<S>
      reads this
    {
      Repo(versions, current, version)
    }

    constructor (dialect: Dialect<S, D>, repo: Repo<S>)
      ensures this.dialect == dialect && State() == repo
    {
      this.dialect := dialect;
      versions, current, version := repo.versions, repo.current, repo.version;
      output := Database(dialect.empty, 0);
    }

    method MigrateDatabaseUp(dstVersion: nat, devel: bool) returns (status: Status)
      modifies this`output
      ensures (output, status) == MigratedUp(dialect, versions, dstVersion + 1, devel)
    {
      output := Database(dialect.empty, 0);
      for i := 0 to dstVersion + 1
        invariant (output, Completed) == MigratedUp(dialect, versions, i, devel)
      {
        if i !in versions {
          MigrationStays(dialect, versions, i, dstVersion + 1, devel);
          return MissingScript;
        }
        output := ScriptExecuted(dialect, versions[i].up, i, output);
        if devel && versions[i].devel.Some? {
          output := ScriptExecuted(dialect, versions[i].devel.value, i, output);
        }
      }
      return Completed;
    }

    method Upgrade(rev: Option<string>, devel: bool) returns (status: Status)
      modifies this`output
      ensures (output, status) == Upgraded(dialect, State(), rev, devel)
    {
      hide Executed, MigratedUp, UpTo, BuiltChain;
      status := MigrateDatabaseUp(version, devel);
      if status != Completed || current.None? {
        return status;
      }
      var revisions := BuildRevisionEntries(current.value);
      var range := revisions;
      if rev.None? {
        if revisions == [] {
          return NoRevisions;
        }
      } else {
        var front := BuildRevisionEntriesUpTo(revisions, rev.value);
        if front.None? {
          return RevisionNotFound;
        }
        range := front.value;
      }
      ghost var target := RevisionsApplied(dialect, range, devel, output.contents);
      for k := 0 to |range|
        invariant RevisionsApplied(dialect, range[k..], devel, output.contents) == target
        invariant output.userVersion == MigratedUp(dialect, versions, version + 1, devel).0.userVersion
      {
        assert range[k..][1..] == range[k + 1..];
        output := ScriptExecuted(dialect, range[k].up, 0, output);
        if devel && range[k].devel.Some? {
          output := ScriptExecuted(dialect, range[k].devel.value, 0, output);
        }
      }
      return Completed;
    }

    /** Merges the revisions into a new version and removes them. */
    method Commit()
      modifies this`versions, this`current, this`version
      ensures State() == Committed(dialect, old(State()))
    {
      if current.None? {
        return;
      }
      var upgradeVersion := version + 1;
      var existing := ExistingDevel(versions, upgradeVersion);
      var merged := MergeSqlFromDir(dialect, current.value, existing);
      versions := versions[upgradeVersion := merged];
      version := upgradeVersion;
      current := None;
    }

    /** Adds an entry; the directory may come back in another order, so the listing is an input. */
    method NewRevisionEntry(listing: seq<Revision<S>>, id: string, up: seq<S>, down: seq<S>, devel: Option<seq<S>>)
      requires SameEntries(listing, if current.None? then [] else current.value)
      modifies this`current
      ensures current == Some(listing + [NewRevision(listing, id, up, down, devel)])
    {
      var chain := BuildRevisionEntries(listing);
      var parent := if chain == [] then Root else Id(chain[|chain| - 1].id);
      current := Some(listing + [Revision(id, parent, up, down, devel)]);
    }
  }

  /** A migration that stopped stays stopped. */
  lemma {:induction false} MigrationStays<S, D>(d: Dialect<S, D>, versions: map<nat, Version<S>>, i: nat, count: nat,
                                                       devel: bool)
    requires i < count && i !in versions && MigratedUp(d, versions, i, devel).1 == Completed
    ensures MigratedUp(d, versions, count, devel) == (MigratedUp(d, versions, i, devel).0, MissingScript)
    decreases count
  {
    if i + 1 < count {
      MigrationStays(d, versions, i, count - 1, devel);
    }
  }
}
