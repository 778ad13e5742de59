/**
 Upgrading to a given revision: which revisions are applied, how it ends, and how it goes on from there.
 */
module UpgradeLaws {
  import opened Options
  import opened Sequences
  import opened RevisionChain
  import opened DbMigration
  import opened MigrationLaws

  // ---------------------------------------------------------------------------------------------
  // Up to a revision

  lemma {:induction false} UpToIs<S>(chain: seq<Revision<S>>, k: nat)
    requires DistinctIds(chain) && k < |chain|
    ensures UpTo(chain, chain[k].id) == Some(chain[..k + 1])
    decreases k
  {
    if k == 0 {
      assert chain[..1] == [chain[0]];
    } else {
      var rest := chain[1..];
      assert chain[0].id != chain[k].id && rest[k - 1] == chain[k];
      UpToIs(rest, k - 1);
      assert chain[..k + 1] == [chain[0]] + rest[..k];
    }
  }

  lemma {:induction false} UpToNoneIff<S>(chain: seq<Revision<S>>, rev: string)
    ensures UpTo(chain, rev) == None <==> forall r | r in chain :: r.id != rev
    decreases |chain|
  {
    if chain != [] {
      UpToNoneIff(chain[1..], rev);
      assert chain == [chain[0]] + chain[1..];
    }
  }

  lemma {:induction false} AppliedSplit<S, D>(d: Dialect<S, D>, chain: seq<Revision<S>>, k: nat, devel: bool, x: D)
    requires k <= |chain|
    ensures RevisionsApplied(d, chain, devel, x)
         == RevisionsApplied(d, chain[k..], devel, RevisionsApplied(d, chain[..k], devel, x))
    decreases k
  {
    if k == 0 {
      assert chain[0..] == chain;
    } else {
      var rest := chain[1..];
      assert chain[..k][1..] == rest[..k - 1] && chain[..k][0] == chain[0] && rest[k - 1..] == chain[k..];
      var upgraded := Executed(d, chain[0].up, x);
      AppliedSplit(d, rest, k - 1, devel,
                   if devel && chain[0].devel.Some? then Executed(d, chain[0].devel.value, upgraded) else upgraded);
    }
  }

  // ---------------------------------------------------------------------------------------------
  // Upgrading

  ghost predicate AllThere<S>(repo: Repo<S>) {
    forall i | 0 <= i <= repo.version :: i in repo.versions
  }

  /** What the committed versions make. */
  function FromVersions<S, D>(d: Dialect<S, D>, repo: Repo<S>, devel: bool): D {
    MigratedUp(d, repo.versions, repo.version + 1, devel).0.contents
  }

  lemma {:induction false} MissingIff<S, D>(d: Dialect<S, D>, versions: map<nat, Version<S>>, count: nat, devel: bool)
    ensures MigratedUp(d, versions, count, devel).1
         == if forall i | 0 <= i < count :: i in versions then Completed else MissingScript
    decreases count
  {
    hide VersionApplied;
    if count > 0 {
      MissingIff(d, versions, count - 1, devel);
      assert (forall i | 0 <= i < count :: i in versions)
        <==> count - 1 in versions && forall i | 0 <= i < count - 1 :: i in versions;
    }
  }

  lemma EmptyChainIff<S>(listing: seq<Revision<S>>)
    ensures BuiltChain(listing) == [] <==> forall r | r in listing :: r.parent != Root
  {
    var first := FirstChild(listing, Root);
    if first.Some? {
      assert listing != [];
    }
  }

  /** How an upgrade ends. */
  lemma UpgradeEndsExactly<S, D>(d: Dialect<S, D>, repo: Repo<S>, rev: Option<string>, devel: bool)
    ensures
      var status := Upgraded(d, repo, rev, devel).1;
      var reached := AllThere(repo) && repo.current.Some?;
      && (status == MissingScript <==> !AllThere(repo))
      && (status == NoRevisions <==> reached && rev == None && forall r | r in repo.current.value :: r.parent != Root)
      && (status == RevisionNotFound <==>
            reached && rev.Some? && forall r | r in BuiltChain(repo.current.value) :: r.id != rev.value)
  {
    hide MigratedUp, BuiltChain, UpTo, RevisionsApplied;
    MissingIff(d, repo.versions, repo.version + 1, devel);
    if repo.current.Some? {
      EmptyChainIff(repo.current.value);
      if rev.Some? {
        UpToNoneIff(BuiltChain(repo.current.value), rev.value);
      }
    }
  }

  /** Upgrading to an entry of the chain applies the entries up to it, the entry itself included. */
  lemma UpgradeToRevision<S, D>(d: Dialect<S, D>, repo: Repo<S>, k: nat, devel: bool)
    requires AllThere(repo) && repo.current.Some? && DistinctIds(repo.current.value)
    requires k < |BuiltChain(repo.current.value)|
    ensures
      var chain := BuiltChain(repo.current.value);
      Upgraded(d, repo, Some(chain[k].id), devel)
      == (Database(RevisionsApplied(d, chain[..k + 1], devel, FromVersions(d, repo, devel)), repo.version), Completed)
  {
    hide MigratedUp, BuiltChain, UpTo, RevisionsApplied;
    RecordedVersion(d, repo.versions, repo.version, devel);
    ChainIsDistinct(repo.current.value);
    UpToIs(BuiltChain(repo.current.value), k);
  }

  /** What is left of the chain, applied on top, gives the full upgrade; of the last entry, nothing is left. */
  lemma {:induction false} UpgradeGoesOn<S, D>(d: Dialect<S, D>, repo: Repo<S>, k: nat, devel: bool)
    requires AllThere(repo) && repo.current.Some? && DistinctIds(repo.current.value)
    requires k < |BuiltChain(repo.current.value)|
    ensures
      var chain := BuiltChain(repo.current.value);
      var (part, _) := Upgraded(d, repo, Some(chain[k].id), devel);
      var (full, status) := Upgraded(d, repo, None, devel);
      && status == Completed
      && full.contents == RevisionsApplied(d, chain[k + 1..], devel, part.contents)
      && full.userVersion == part.userVersion
      && (k + 1 == |chain| ==> full == part)
  {
    hide MigratedUp, BuiltChain, UpTo;
    var chain := BuiltChain(repo.current.value);
    RecordedVersion(d, repo.versions, repo.version, devel);
    UpgradeToRevision(d, repo, k, devel);
    AppliedSplit(d, chain, k + 1, devel, FromVersions(d, repo, devel));
  }

  /** Entry by entry: each runs its up script, and with development scripts on then its own development script. */
  lemma {:induction false} UpgradeByOne<S, D>(d: Dialect<S, D>, repo: Repo<S>, k: nat, devel: bool)
    requires AllThere(repo) && repo.current.Some? && DistinctIds(repo.current.value)
    requires k < |BuiltChain(repo.current.value)|
    ensures
      var chain := BuiltChain(repo.current.value);
      var before := if k == 0 then FromVersions(d, repo, devel)
                    else Upgraded(d, repo, Some(chain[k - 1].id), devel).0.contents;
      var upgraded := d.finish(RunScript(d, chain[k].up, before));
      Upgraded(d, repo, Some(chain[k].id), devel).0.contents
      == if devel && chain[k].devel.Some? then d.finish(RunScript(d, chain[k].devel.value, upgraded)) else upgraded
  {
    hide MigratedUp, BuiltChain, UpTo, RunScript, Upgraded;
    var chain := BuiltChain(repo.current.value);
    var base := FromVersions(d, repo, devel);
    UpgradeToRevision(d, repo, k, devel);
    if k > 0 {
      UpgradeToRevision(d, repo, k - 1, devel);
    }
    assert chain[..k + 1] == chain[..k] + [chain[k]];
    AppliedSplit(d, chain[..k + 1], k, devel, base);
    assert chain[..k + 1][..k] == chain[..k] && chain[..k + 1][k..] == [chain[k]];
    OneApplied(d, chain[k], devel, RevisionsApplied(d, chain[..k], devel, base));
    assert k == 0 ==> RevisionsApplied(d, chain[..k], devel, base) == base;
  }

  lemma {:induction false} OneApplied<S, D>(d: Dialect<S, D>, r: Revision<S>, devel: bool, x: D)
    ensures
      var upgraded := d.finish(RunScript(d, r.up, x));
      RevisionsApplied(d, [r], devel, x)
      == if devel && r.devel.Some? then d.finish(RunScript(d, r.devel.value, upgraded)) else upgraded
  {
    hide RunScript;
    assert [r][1..] == [];
  }
}
