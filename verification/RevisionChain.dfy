/**
 The revisions under development: a directory of entries that name their parents, in whatever order the file
 system lists them, and the linear history rebuilt from it.
 */
module RevisionChain {
  import opened Options

  /** A parent: the start of the history (the number 0) or another revision's id. */
  datatype Ref = Root | Id(name: string)

  /** An entry: its metadata, and its scripts as lines. */
  datatype Revision<S> = Revision(
    id: string,
    parent: Ref,
    up: seq<S>,
    down: seq<S>,
    devel: Option<seq<S>>)

  /** The first entry listed with the given parent. */
  function FirstChild<S>(metas: seq<Revision<S>>, parent: Ref): (child: Option<Revision<S>>)
    ensures child.Some? ==> child.value in metas && child.value.parent == parent
    ensures child.None? ==> forall r | r in metas :: r.parent != parent
  {
    if metas == [] then None
    else if metas[0].parent == parent then Some(metas[0])
    else FirstChild(metas[1..], parent)
  }

  /** At most `steps` entries, each the first listed child of the one before it. */
  function Chain<S>(metas: seq<Revision<S>>, parent: Ref, steps: nat): seq<Revision<S>>
    decreases steps
  {
    if steps == 0 then []
    else
      match FirstChild(metas, parent)
      case None => []
      case Some(child) => [child] + Chain(metas, Id(child.id), steps - 1)
  }

  function BuiltChain<S>(metas: seq<Revision<S>>): seq<Revision<S>> {
    Chain(metas, Root, |metas|)
  }

  method BuildRevisionEntries<S>(metas: seq<Revision<S>>) returns (chain: seq<Revision<S>>)
    ensures chain == BuiltChain(metas)
  {
    hide FirstChild;
    chain := [];
    var parentIndex := Root;
    for k := 0 to |metas|
      invariant chain + Chain(metas, parentIndex, |metas| - k) == BuiltChain(metas)
    {
      var entry := FirstChild(metas, parentIndex);
      if entry.None? {
        return chain;
      }
      parentIndex := Id(entry.value.id);
      chain := chain + [entry.value];
    }
  }

  // ---------------------------------------------------------------------------------------------
  // What a chain is

  ghost predicate DistinctIds<S>(metas: seq<Revision<S>>) {
    forall i, j | 0 <= i < j < |metas| :: metas[i].id != metas[j].id
  }

  /** The parent the chain's k-th entry must have. */
  function ParentAt<S>(chain: seq<Revision<S>>, parent: Ref, k: nat): Ref
    requires k <= |chain|
  {
    if k == 0 then parent else Id(chain[k - 1].id)
  }

  ghost predicate Linked<S>(chain: seq<Revision<S>>, parent: Ref) {
    forall k | 0 <= k < |chain| :: chain[k].parent == ParentAt(chain, parent, k)
  }

  ghost predicate SameEntries<S>(a: seq<Revision<S>>, b: seq<Revision<S>>) {
    multiset(a) == multiset(b)
  }

  lemma SameEntriesSize<S>(a: seq<Revision<S>>, b: seq<Revision<S>>)
    requires SameEntries(a, b)
    ensures |a| == |b| && forall r :: r in a <==> r in b
  {
    assert |multiset(a)| == |a| && |multiset(b)| == |b|;
    assert forall r :: r in a <==> r in multiset(a);
    assert forall r :: r in b <==> r in multiset(b);
  }

  lemma {:induction false} ChainAt<S>(metas: seq<Revision<S>>, parent: Ref, steps: nat, k: nat)
    requires k < |Chain(metas, parent, steps)|
    ensures
      var chain := Chain(metas, parent, steps);
      FirstChild(metas, ParentAt(chain, parent, k)) == Some(chain[k])
    decreases steps
  {
    if k > 0 {
      var child := FirstChild(metas, parent).value;
      var chain := Chain(metas, parent, steps);
      assert chain[1..] == Chain(metas, Id(child.id), steps - 1);
      ChainAt(metas, Id(child.id), steps - 1, k - 1);
      assert ParentAt(chain[1..], Id(child.id), k - 1) == ParentAt(chain, parent, k);
    }
  }

  lemma {:induction false} ChainStops<S>(metas: seq<Revision<S>>, parent: Ref, steps: nat)
    ensures
      var chain := Chain(metas, parent, steps);
      |chain| == steps || (|chain| < steps && FirstChild(metas, ParentAt(chain, parent, |chain|)) == None)
    decreases steps
  {
    hide FirstChild;
    if steps > 0 && FirstChild(metas, parent).Some? {
      var child := FirstChild(metas, parent).value;
      var chain := Chain(metas, parent, steps);
      assert chain[1..] == Chain(metas, Id(child.id), steps - 1);
      ChainStops(metas, Id(child.id), steps - 1);
      assert ParentAt(chain[1..], Id(child.id), |chain| - 1) == ParentAt(chain, parent, |chain|);
    }
  }

  /** The k-th entry is determined by its predecessors: a chain with distinct ids never returns. */
  lemma {:induction false} ChainNeverReturns<S>(metas: seq<Revision<S>>, j: nat, k: nat)
    requires DistinctIds(metas) && j < k < |BuiltChain(metas)|
    ensures BuiltChain(metas)[j] != BuiltChain(metas)[k]
    decreases j
  {
    hide Chain, FirstChild;
    var chain := BuiltChain(metas);
    ChainAt(metas, Root, |metas|, j);
    ChainAt(metas, Root, |metas|, k);
    if chain[j] == chain[k] {
      assert ParentAt(chain, Root, j) == ParentAt(chain, Root, k);
      if j > 0 {
        ChainAt(metas, Root, |metas|, j - 1);
        ChainAt(metas, Root, |metas|, k - 1);
        SameIdSameEntry(metas, chain[j - 1], chain[k - 1]);
        ChainNeverReturns(metas, j - 1, k - 1);
      }
    }
  }

  lemma IndexOf<T>(s: seq<T>, x: T) returns (i: nat)
    requires x in s
    ensures i < |s| && s[i] == x
  {
    i :| 0 <= i < |s| && s[i] == x;
  }

  lemma SameIdSameEntry<S>(metas: seq<Revision<S>>, a: Revision<S>, b: Revision<S>)
    requires DistinctIds(metas) && a in metas && b in metas && a.id == b.id
    ensures a == b
  {
    var i :| 0 <= i < |metas| && metas[i] == a;
    var j :| 0 <= j < |metas| && metas[j] == b;
    if i < j {
    } else if j < i {
    }
  }

  /** Distinct elements of a sequence are not more than the sequence is long. */
  lemma {:induction false} DistinctFit<T>(chain: seq<T>, metas: seq<T>)
    requires forall r | r in chain :: r in metas
    requires forall i, j | 0 <= i < j < |chain| :: chain[i] != chain[j]
    ensures |chain| <= |metas|
    ensures |chain| == |metas| ==> forall r | r in metas :: r in chain
    decreases |chain|
  {
    if chain != [] {
      assert chain[0] in chain;
      var at := IndexOf(metas, chain[0]);
      var rest := metas[..at] + metas[at + 1..];
      forall r | r in chain[1..]
        ensures r in rest
      {
        assert r in chain;
        RemoveOthers(metas, at, r);
      }
      DistinctFit(chain[1..], rest);
      if |chain| == |metas| {
        forall r | r in metas
          ensures r in chain
        {
          if r != chain[0] {
            RemoveOthers(metas, at, r);
            assert r in chain[1..];
          }
        }
      }
    }
  }

  lemma RemoveOthers<T>(s: seq<T>, at: nat, x: T)
    requires at < |s| && x in s && x != s[at]
    ensures x in s[..at] + s[at + 1..]
  {
    var m := IndexOf(s, x);
    var rest := s[..at] + s[at + 1..];
    assert x == if m < at then rest[m] else rest[m - 1];
  }

  lemma ChainIsLinked<S>(metas: seq<Revision<S>>)
    ensures Linked(BuiltChain(metas), Root) && forall r | r in BuiltChain(metas) :: r in metas
  {
    hide Chain;
    var chain := BuiltChain(metas);
    forall k | 0 <= k < |chain|
      ensures chain[k].parent == ParentAt(chain, Root, k) && chain[k] in metas
    {
      ChainAt(metas, Root, |metas|, k);
    }
  }

  lemma ChainIsDistinct<S>(metas: seq<Revision<S>>)
    requires DistinctIds(metas)
    ensures DistinctIds(BuiltChain(metas))
  {
    hide BuiltChain;
    ChainIsLinked(metas);
    var chain := BuiltChain(metas);
    forall i, j | 0 <= i < j < |chain|
      ensures chain[i].id != chain[j].id
    {
      ChainNeverReturns(metas, i, j);
      if chain[i].id == chain[j].id {
        SameIdSameEntry(metas, chain[i], chain[j]);
      }
    }
  }

  /** The chain starts at the root, never names an entry twice, and ends at an entry without a child. */
  lemma BuiltChainIsHistory<S>(metas: seq<Revision<S>>)
    requires DistinctIds(metas)
    ensures
      var chain := BuiltChain(metas);
      && Linked(chain, Root)
      && (forall r | r in chain :: r in metas)
      && DistinctIds(chain)
      && (forall r | r in metas :: r.parent != ParentAt(chain, Root, |chain|))
  {
    hide Chain;
    ChainIsLinked(metas);
    ChainIsDistinct(metas);
    ChainStops(metas, Root, |metas|);
    if |BuiltChain(metas)| == |metas| {
      FullChainIsMaximal(BuiltChain(metas), metas);
    }
  }

  lemma FullChainIsMaximal<S>(chain: seq<Revision<S>>, metas: seq<Revision<S>>)
    requires Linked(chain, Root) && DistinctIds(chain) && (forall r | r in chain :: r in metas) && |chain| == |metas|
    ensures forall r | r in metas :: r.parent != ParentAt(chain, Root, |chain|)
  {
    forall i, j | 0 <= i < j < |chain|
      ensures chain[i] != chain[j]
    {
      assert chain[i].id != chain[j].id;
    }
    DistinctFit(chain, metas);
    forall r | r in metas
      ensures r.parent != ParentAt(chain, Root, |chain|)
    {
      var k := IndexOf(chain, r);
      assert r.parent == ParentAt(chain, Root, k);
    }
  }

  // ---------------------------------------------------------------------------------------------
  // Directory order

  /** No two different entries compete to follow the same entry of the chain. */
  ghost predicate Unambiguous<S>(metas: seq<Revision<S>>) {
    var chain := BuiltChain(metas);
    forall k, r | 0 <= k < |chain| && r in metas && r.parent == ParentAt(chain, Root, k) :: r == chain[k]
  }

  /** The order in which the directory is listed does not matter exactly when no children compete. */
  lemma OrderIrrelevantIffUnambiguous<S(!new)>(metas: seq<Revision<S>>)
    ensures (forall listing: seq<Revision<S>> | SameEntries(listing, metas) :: BuiltChain(listing) == BuiltChain(metas))
       <==> Unambiguous(metas)
  {
    hide Chain;
    if Unambiguous(metas) {
      forall listing: seq<Revision<S>> | SameEntries(listing, metas)
        ensures BuiltChain(listing) == BuiltChain(metas)
      {
        UnambiguousFixesChain(metas, listing);
      }
    } else {
      var chain := BuiltChain(metas);
      var k, r :| 0 <= k < |chain| && r in metas && r.parent == ParentAt(chain, Root, k) && r != chain[k];
      var listing := CompetitorFirst(metas, k, r);
    }
  }

  lemma UnambiguousFixesChain<S>(metas: seq<Revision<S>>, listing: seq<Revision<S>>)
    requires Unambiguous(metas) && SameEntries(listing, metas)
    ensures BuiltChain(listing) == BuiltChain(metas)
  {
    hide Chain;
    var chain := BuiltChain(metas);
    SameEntriesSize(listing, metas);
    forall k | 0 <= k < |chain|
      ensures FirstChild(listing, ParentAt(chain, Root, k)) == Some(chain[k])
    {
      ChainAt(metas, Root, |metas|, k);
      assert chain[k] in listing;
    }
    ChainStops(metas, Root, |metas|);
    ChainIs(listing, Root, |metas|, chain);
  }

  /** Listing a competing child first makes it the one that is found. */
  lemma CompetitorFirst<S>(metas: seq<Revision<S>>, k: nat, r: Revision<S>) returns (listing: seq<Revision<S>>)
    requires k < |BuiltChain(metas)| && r in metas
    requires r.parent == ParentAt(BuiltChain(metas), Root, k) && r != BuiltChain(metas)[k]
    ensures SameEntries(listing, metas) && BuiltChain(listing) != BuiltChain(metas)
  {
    hide Chain;
    var at := IndexOf(metas, r);
    var rest := metas[..at] + metas[at + 1..];
    listing := [r] + rest;
    assert metas == metas[..at] + [r] + metas[at + 1..];
    assert SameEntries(listing, metas);
    assert FirstChild(listing, r.parent) == Some(r);
    if BuiltChain(listing) == BuiltChain(metas) {
      ChainAt(listing, Root, |listing|, k);
    }
  }

  lemma {:induction false} ChainIs<S>(metas: seq<Revision<S>>, parent: Ref, steps: nat, chain: seq<Revision<S>>)
    requires forall k | 0 <= k < |chain| :: FirstChild(metas, ParentAt(chain, parent, k)) == Some(chain[k])
    requires |chain| == steps
          || (|chain| < steps && FirstChild(metas, ParentAt(chain, parent, |chain|)) == None)
    ensures Chain(metas, parent, steps) == chain
    decreases steps
  {
    hide FirstChild, Chain, ParentAt;
    if chain == [] {
      ParentOfFirst(chain, parent);
      ChainEnds(metas, parent, steps);
    } else {
      var child, rest := chain[0], chain[1..];
      ParentOfFirst(chain, parent);
      ChainGoesOn(metas, parent, steps, child);
      forall k | 0 <= k <= |rest|
        ensures ParentAt(rest, Id(child.id), k) == ParentAt(chain, parent, k + 1)
      {
        ParentOfNext(chain, parent, k);
      }
      ChainIs(metas, Id(child.id), steps - 1, rest);
      assert chain == [child] + rest;
    }
  }

  lemma ParentOfFirst<S>(chain: seq<Revision<S>>, parent: Ref)
    ensures ParentAt(chain, parent, 0) == parent
  {
  }

  lemma ParentOfNext<S>(chain: seq<Revision<S>>, parent: Ref, k: nat)
    requires k < |chain|
    ensures ParentAt(chain[1..], Id(chain[0].id), k) == ParentAt(chain, parent, k + 1)
  {
  }

  lemma ChainGoesOn<S>(metas: seq<Revision<S>>, parent: Ref, steps: nat, child: Revision<S>)
    requires steps > 0 && FirstChild(metas, parent) == Some(child)
    ensures Chain(metas, parent, steps) == [child] + Chain(metas, Id(child.id), steps - 1)
  {
    hide FirstChild;
  }

  lemma {:induction false} ChainEnds<S>(metas: seq<Revision<S>>, parent: Ref, steps: nat)
    requires steps == 0 || FirstChild(metas, parent) == None
    ensures Chain(metas, parent, steps) == []
  {
    hide FirstChild;
  }

  // ---------------------------------------------------------------------------------------------
  // Creating revisions

  /** A history as it is written: linked from the root, ids distinct. */
  ghost predicate Lineage<S>(created: seq<Revision<S>>) {
    Linked(created, Root) && DistinctIds(created)
  }

  /** Whatever order the directory is listed in, the entries come back in the order they were created. */
  lemma ChainRecoversLineage<S>(listing: seq<Revision<S>>, created: seq<Revision<S>>)
    requires Lineage(created) && SameEntries(listing, created)
    ensures BuiltChain(listing) == created
  {
    hide Chain, FirstChild;
    SameEntriesSize(listing, created);
    forall k | 0 <= k < |created|
      ensures FirstChild(listing, ParentAt(created, Root, k)) == Some(created[k])
    {
      LineageChild(listing, created, k);
    }
    ChainIs(listing, Root, |listing|, created);
  }

  lemma {:induction false} LineageChild<S>(listing: seq<Revision<S>>, created: seq<Revision<S>>, k: nat)
    requires Lineage(created) && (forall r :: r in listing <==> r in created) && k < |created|
    ensures FirstChild(listing, ParentAt(created, Root, k)) == Some(created[k])
  {
    assert created[k] in created;
    assert created[k].parent == ParentAt(created, Root, k);
    var child := FirstChild(listing, ParentAt(created, Root, k));
    assert child.Some?;
    var m := IndexOf(created, child.value);
    assert ParentAt(created, Root, m) == ParentAt(created, Root, k);
    ParentsDiffer(created, m, k);
  }

  lemma ParentsDiffer<S>(created: seq<Revision<S>>, m: nat, k: nat)
    requires DistinctIds(created) && m < |created| && k < |created|
    ensures ParentAt(created, Root, m) == ParentAt(created, Root, k) <==> m == k
  {
    if 0 < m < k {
      assert created[m - 1].id != created[k - 1].id;
    } else if 0 < k < m {
      assert created[k - 1].id != created[m - 1].id;
    }
  }

  function LatestRevision<S>(listing: seq<Revision<S>>): Option<Revision<S>> {
    var chain := BuiltChain(listing);
    if chain == [] then None else Some(chain[|chain| - 1])
  }

  /** The entry `revision` spawns next to the ones listed. */
  function NewRevision<S>(listing: seq<Revision<S>>, id: string, up: seq<S>, down: seq<S>,
                          devel: Option<seq<S>>): Revision<S> {
    var latest := LatestRevision(listing);
    Revision(id, if latest.Some? then Id(latest.value.id) else Root, up, down, devel)
  }

  /** A new revision extends the history by exactly itself. */
  lemma NewRevisionExtends<S>(listing: seq<Revision<S>>, created: seq<Revision<S>>, id: string,
                              up: seq<S>, down: seq<S>, devel: Option<seq<S>>)
    requires Lineage(created) && SameEntries(listing, created)
    requires forall r | r in created :: r.id != id
    ensures Lineage(created + [NewRevision(listing, id, up, down, devel)])
  {
    hide Chain, FirstChild;
    ChainRecoversLineage(listing, created);
    var extended := created + [NewRevision(listing, id, up, down, devel)];
    forall k | 0 <= k < |extended|
      ensures extended[k].parent == ParentAt(extended, Root, k)
    {
      if k < |created| {
        assert extended[k] == created[k] && ParentAt(extended, Root, k) == ParentAt(created, Root, k);
      }
    }
    forall i, j | 0 <= i < j < |extended|
      ensures extended[i].id != extended[j].id
    {
      assert extended[i] == created[i];
      assert created[i] in created;
    }
  }

  /** One call of `revision`; `listing` is the order the file system lists the directory in at that moment. */
  datatype Creation<S> = Creation(listing: seq<Revision<S>>, id: string, up: seq<S>, down: seq<S>,
                                  devel: Option<seq<S>>)

  /** The directory after a call of `revision`. */
  function Spawned<S>(c: Creation<S>): seq<Revision<S>> {
    c.listing + [NewRevision(c.listing, c.id, c.up, c.down, c.devel)]
  }

  function DirectoryAfter<S>(directory: seq<Revision<S>>, run: seq<Creation<S>>): seq<Revision<S>>
    decreases |run|
  {
    if run == [] then directory else DirectoryAfter(Spawned(run[0]), run[1..])
  }

  /** Every call lists the entries that are there, in some order, and draws a fresh id. */
  ghost predicate CreationRun<S>(directory: seq<Revision<S>>, run: seq<Creation<S>>)
    decreases |run|
  {
    run == [] ||
    (&& SameEntries(run[0].listing, directory)
     && (forall r | r in directory :: r.id != run[0].id)
     && CreationRun(Spawned(run[0]), run[1..]))
  }

  /** The entry is what the call was given; its parent is for the chain to say. */
  ghost predicate Records<S>(r: Revision<S>, c: Creation<S>) {
    r.id == c.id && r.up == c.up && r.down == c.down && r.devel == c.devel
  }

  ghost predicate Extends<S>(chain: seq<Revision<S>>, created: seq<Revision<S>>, run: seq<Creation<S>>) {
    && |chain| == |created| + |run|
    && chain[..|created|] == created
    && forall k | 0 <= k < |run| :: Records(chain[|created| + k], run[k])
  }

  /**
   Over any run of `revision`, in whatever order the directory is listed each time and at the end, the chain is
   the history there was, followed by the entries of the run in the order they were created.
   */
  lemma {:induction false} RunOfRevisionsIsHistory<S>(directory: seq<Revision<S>>, created: seq<Revision<S>>,
                                                     run: seq<Creation<S>>, listing: seq<Revision<S>>)
    requires Lineage(created) && SameEntries(directory, created) && CreationRun(directory, run)
    requires SameEntries(listing, DirectoryAfter(directory, run))
    ensures Extends(BuiltChain(listing), created, run) && Lineage(BuiltChain(listing))
    decreases |run|
  {
    hide Lineage, BuiltChain;
    SameEntriesSize(directory, created);
    if run == [] {
      ChainRecoversLineage(listing, created);
      assert created[..|created|] == created;
    } else {
      var c := run[0];
      var entry := NewRevision(c.listing, c.id, c.up, c.down, c.devel);
      NewRevisionExtends(c.listing, created, c.id, c.up, c.down, c.devel);
      RunOfRevisionsIsHistory(Spawned(c), created + [entry], run[1..], listing);
      ExtendsByOne(BuiltChain(listing), created, entry, run);
    }
  }

  lemma ExtendsByOne<S>(chain: seq<Revision<S>>, created: seq<Revision<S>>, entry: Revision<S>, run: seq<Creation<S>>)
    requires run != [] && Records(entry, run[0]) && Extends(chain, created + [entry], run[1..])
    ensures Extends(chain, created, run)
  {
    var extended := created + [entry];
    assert chain[..|created|] == chain[..|extended|][..|created|] == created;
    assert chain[|created|] == chain[..|extended|][|created|] == entry;
    forall k | 0 < k < |run|
      ensures Records(chain[|created| + k], run[k])
    {
      assert chain[|extended| + (k - 1)] == chain[|created| + k] && run[1..][k - 1] == run[k];
    }
  }

  /** From an empty directory, every run of `revision` yields its entries in creation order. */
  lemma {:induction false} RevisionsComeBackInOrder<S>(run: seq<Creation<S>>, listing: seq<Revision<S>>)
    requires CreationRun([], run) && SameEntries(listing, DirectoryAfter([], run))
    ensures Linked(BuiltChain(listing), Root) && DistinctIds(BuiltChain(listing))
    ensures |BuiltChain(listing)| == |run|
    ensures forall k | 0 <= k < |run| :: Records(BuiltChain(listing)[k], run[k])
  {
    hide BuiltChain, DirectoryAfter;
    RunOfRevisionsIsHistory([], [], run, listing);
    forall k | 0 <= k < |run|
      ensures Records(BuiltChain(listing)[k], run[k])
    {
      assert 0 + k == k;
    }
  }
}
