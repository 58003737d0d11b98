/** What the registries publish, and what every call keeps faithful to it, whatever fails. */
module Releases {
  import opened Naming
  import opened Storage
  import opened SyncState
  import opened Cache
  import opened CacheTheorems
  import opened Sync
  import opened SyncTheorems

  datatype Package = Package(config: Config, content: string)

  /** What the registries ever publish: releases by repository and embedded version, owners, manifest digests. */
  datatype Catalog = Catalog(releases: map<(string, string), Package>, owner: map<string, string>,
                             digest: Package -> string)

  /**
   * One owner repository per evaluator-id, releases named by their embedded version, digests well formed and
   * collision free, and directory names that are neither "." nor hidden.
   */
  ghost predicate GoodCatalog(k: Catalog) {
    && (forall r, v :: (r, v) in k.releases ==> GoodRelease(k, r, v))
    && forall x, y :: x in k.releases && y in k.releases && k.digest(k.releases[x]) == k.digest(k.releases[y])
         ==> k.releases[x] == k.releases[y]
  }

  ghost predicate GoodRelease(k: Catalog, repository: string, version: string)
    requires (repository, version) in k.releases
  {
    var p := k.releases[(repository, version)];
    && p.config.version == version
    && SafeName(version) && !Hidden(version)
    && SafeName(p.config.evaluatorId) && p.config.evaluatorId != "."
    && p.config.evaluatorId in k.owner && k.owner[p.config.evaluatorId] == repository
    && k.digest(p) != "" && ValidDigest(k.digest(p))
  }

  function Hex64(c: char): string {
    "sha256:" + seq(64, _ => c)
  }

  predicate IsRelease(k: Catalog, repository: string, p: Package) {
    (repository, p.config.version) in k.releases && k.releases[(repository, p.config.version)] == p
  }

  /** Two releases of one evaluator by one repository. */
  ghost predicate TwoReleases(k: Catalog, repository: string, p1: Package, p2: Package) {
    && repository != "" && IsRelease(k, repository, p1) && IsRelease(k, repository, p2)
    && p1.config.evaluatorId == p2.config.evaluatorId && p1.config.version != p2.config.version
  }

  /** The assumptions can be met, also with several releases of one evaluator, one of them recorded. */
  lemma SomeCatalog() returns (k: Catalog, p1: Package, p2: Package, entry: PolicyState)
    ensures GoodCatalog(k) && TwoReleases(k, "acme/opa", p1, p2)
    ensures FaithfulEntry(k, "acme/opa", entry) && entry.version == p1.config.version
  {
    p1, p2 := Package(Config("opa", "1", ""), "one"), Package(Config("opa", "2", ""), "two");
    var q1 := p1;
    k := Catalog(map[("acme/opa", "1") := p1, ("acme/opa", "2") := p2], map["opa" := "acme/opa"],
                 p => if p == q1 then Hex64('a') else Hex64('b'));
    assert Hex64('a')[7] == 'a' && Hex64('b')[7] == 'b';
    assert ParsesAsDigest(Hex64('a')) && ParsesAsDigest(Hex64('b'));
    assert SafeName("opa") && SafeName("1") && SafeName("2");
    entry := PolicyState("1", Hex64('a'), "opa", 0, UNVERIFIED);
  }

  /**
   * During this call the registry, if reachable, serves release p under the requested version: lookup and copy agree,
   * and a version that is itself a release name means that release (tags are immutable).
   */
  ghost predicate Serves(k: Catalog, repository: string, requested: string, a: Answers, p: Package) {
    match a.definition(ReferenceFor("", repository, requested))
    case None => true
    case Some(remote) =>
      var target := ResolveVersion(requested, remote.1);
      && (repository, p.config.version) in k.releases && k.releases[(repository, p.config.version)] == p
      && remote.0 == k.digest(p)
      && !Hidden(target)
      && ((repository, target) in k.releases ==> k.releases[(repository, target)] == p)
      && (a.copy(repository, target).Unpacked? ==> a.copy(repository, target) == Unpacked(p.config, p.content))
  }

  /** A slot holds the release its path names, byte for byte. */
  ghost predicate Faithful(k: Catalog, t: Tree, s: Slot) {
    && s in t && s.evaluator in k.owner && (k.owner[s.evaluator], s.name) in k.releases
    && var p := k.releases[(k.owner[s.evaluator], s.name)];
    && p.config.evaluatorId == s.evaluator && Holds(t, s, p.content, p.config)
  }

  ghost predicate FaithfulTree(k: Catalog, t: Tree) {
    forall s :: IsDir(t, s) && !Hidden(s.name) ==> Faithful(k, t, s)
  }

  /** An entry describes a release of its repository: version, evaluator and digest belong together. */
  ghost predicate FaithfulEntry(k: Catalog, repository: string, ps: PolicyState) {
    && (repository, ps.version) in k.releases
    && var p := k.releases[(repository, ps.version)];
    && ps.evaluatorId == p.config.evaluatorId && ps.digest == k.digest(p)
  }

  ghost predicate FaithfulLedger(k: Catalog, led: Ledger) {
    forall r :: r in led ==> FaithfulEntry(k, r, led[r])
  }

  /** What survives everything: crashes, failed renames, failed removals and failed saves. */
  ghost predicate Sound(k: Catalog, w: World) {
    FaithfulTree(k, w.disk) && FaithfulLedger(k, w.mem) && FaithfulLedger(k, w.saved)
  }

  /** The entry's own version is complete on disk. */
  ghost predicate Backed(t: Tree, ps: PolicyState) {
    LookupVersion(t, ps.evaluatorId, ps.version).Hit?
  }

  ghost predicate AllBacked(t: Tree, led: Ledger) {
    forall r :: r in led ==> Backed(t, led[r])
  }

  /** State and disk agree, in memory and as saved. */
  ghost predicate Agreed(k: Catalog, w: World) {
    Sound(k, w) && AllBacked(w.disk, w.mem) && AllBacked(w.disk, w.saved)
  }

  /** LookupByEvaluatorID can only answer with p, and the bytes behind the answer are p's. */
  ghost predicate Transparent(w: World, p: Package) {
    var s := Slot(p.config.evaluatorId, p.config.version);
    && (forall scannable :: LookupAnswer(w.disk, Some(w.mem), scannable, p.config.evaluatorId, Hit(s, p.config)))
    && (forall scannable, r ::
        LookupAnswer(w.disk, Some(w.mem), scannable, p.config.evaluatorId, r) ==> r == Hit(s, p.config))
    && Holds(w.disk, s, p.content, p.config)
  }

  // ---------- Facts about one world ----------

  lemma OwnerIsSole(k: Catalog, led: Ledger, repository: string)
    requires GoodCatalog(k) && FaithfulLedger(k, led) && repository in led
    ensures SoleOwner(led, led[repository].evaluatorId, repository)
  {
    forall r | Tracks(led, r, led[repository].evaluatorId) ensures r == repository {
      assert FaithfulEntry(k, r, led[r]) && FaithfulEntry(k, repository, led[repository]);
      assert GoodRelease(k, r, led[r].version) && GoodRelease(k, repository, led[repository].version);
    }
  }

  /** A backed entry makes the cache transparent for the release it describes. */
  lemma BackedIsTransparent(k: Catalog, w: World, repository: string)
    requires GoodCatalog(k) && Sound(k, w) && repository in w.mem && Backed(w.disk, w.mem[repository])
    ensures Transparent(w, k.releases[(repository, w.mem[repository].version)])
  {
    var ps := w.mem[repository];
    var p := k.releases[(repository, ps.version)];
    assert FaithfulEntry(k, repository, ps);
    assert GoodRelease(k, repository, ps.version);
    OwnerIsSole(k, w.mem, repository);
    assert Faithful(k, w.disk, Final(p.config));
    assert ActiveOnDisk(w.disk, w.mem, ps.evaluatorId, ps.version);
    forall scannable, r | LookupAnswer(w.disk, Some(w.mem), scannable, p.config.evaluatorId, r)
      ensures r == Hit(Final(p.config), p.config)
    {
      LookupFindsActive(w.disk, w.mem, scannable, ps.evaluatorId, repository, r);
    }
  }

  lemma EntryOfDigest(k: Catalog, repository: string, ps: PolicyState, p: Package)
    requires GoodCatalog(k) && FaithfulEntry(k, repository, ps)
    requires (repository, p.config.version) in k.releases && k.releases[(repository, p.config.version)] == p
    requires ps.digest == k.digest(p)
    ensures ps.version == p.config.version && ps.evaluatorId == p.config.evaluatorId
  {
    assert GoodRelease(k, repository, ps.version);
  }

  // ---------- Preservation ----------

  lemma StoringKeepsFaith(k: Catalog, t: Tree, u: Tree, t': Tree, p: Package, io: StoreIO, repository: string)
    requires GoodCatalog(k) && FaithfulTree(k, t)
    requires (repository, p.config.version) in k.releases && k.releases[(repository, p.config.version)] == p
    requires StorePoint(t, u, t', p.config, p.content, io)
    ensures FaithfulTree(k, u)
  {
    StoreIsCrashSafe(t, u, t', p.config, p.content, io);
    assert GoodRelease(k, repository, p.config.version);
    forall s | IsDir(u, s) && !Hidden(s.name) ensures Faithful(k, u, s) {
      if s in t && u[s] == t[s] {
        assert IsDir(t, s);
        assert Faithful(k, t, s);
      } else {
        assert s == Final(p.config) && u[s] == Bundle(p.config, p.content);
      }
    }
  }

  /** A hit serves exactly the release the registry would: the entry recorded for it is faithful. */
  lemma HitIsFaithful(k: Catalog, c: Setup, w: World, repository: string, requested: string, a: Answers, p: Package)
    requires GoodCatalog(k) && Sound(k, w) && Serves(k, repository, requested, a, p)
    requires a.definition(ReferenceFor("", repository, requested)).Some?
    requires var remote := a.definition(ReferenceFor("", repository, requested)).value;
             ServesFromCache(c, w, repository, ResolveVersion(requested, remote.1), remote.0,
                             ReferenceFor(c.host, repository, requested), a)
    ensures var remote := a.definition(ReferenceFor("", repository, requested)).value;
            var hit := AfterHit(c, w, repository, ResolveVersion(requested, remote.1), remote.0,
                                ReferenceFor(c.host, repository, requested), a);
            && hit.mem[repository].version == p.config.version
            && FaithfulEntry(k, repository, hit.mem[repository]) && FaithfulLedger(k, hit.mem)
            && Backed(w.disk, hit.mem[repository])
  {
    var remote := a.definition(ReferenceFor("", repository, requested)).value;
    var target := ResolveVersion(requested, remote.1);
    var ps := w.mem[repository];
    assert FaithfulEntry(k, repository, ps);
    assert GoodRelease(k, repository, ps.version);
    assert Faithful(k, w.disk, Slot(ps.evaluatorId, target));
  }

  lemma FetchKeepsSound(k: Catalog, c: Setup, w: World, repository: string, version: string, digest: string,
                        reference: string,
                        a: Answers, p: Package, w': World, r: SyncResult)
    requires GoodCatalog(k) && Sound(k, w)
    requires (repository, p.config.version) in k.releases && k.releases[(repository, p.config.version)] == p
    requires digest == k.digest(p)
    requires a.copy(repository, version).Unpacked? ==> a.copy(repository, version) == Unpacked(p.config, p.content)
    requires FetchStep(c, w, repository, version, digest, reference, a, w', r)
    ensures Sound(k, w')
    ensures r == Synced(true)
        ==> repository in w'.mem && w'.mem[repository].version == p.config.version
            && Backed(w'.disk, w'.mem[repository])
  {
    if a.copy(repository, version).Unpacked? && w' != w {
      StoreEndsAtPoint(w.disk, w'.disk, Some(w.mem), c.retention, p.config, p.content, a.io);
      StoringKeepsFaith(k, w.disk, w'.disk, w'.disk, p, a.io, repository);
      if StoreOk(w.disk, p.config, a.io) {
        StoredTarget(w.disk, w'.disk, Some(w.mem), c.retention, p.config, p.content, a.io);
      }
    }
  }

  lemma RefreshKeepsSound(k: Catalog, c: Setup, w: World, repository: string, requested: string, a: Answers,
                          p: Package, w': World, r: SyncResult)
    requires GoodCatalog(k) && Sound(k, w) && Serves(k, repository, requested, a, p)
    requires a.definition(ReferenceFor("", repository, requested)).Some?
    requires var remote := a.definition(ReferenceFor("", repository, requested)).value;
             RefreshStep(c, w, repository, ResolveVersion(requested, remote.1), remote.0,
                         ReferenceFor(c.host, repository, requested), a, w', r)
    ensures Sound(k, w')
    ensures r == Synced(true)
        ==> repository in w'.mem && w'.mem[repository].version == p.config.version
            && Backed(w'.disk, w'.mem[repository])
  {
    var remote := a.definition(ReferenceFor("", repository, requested)).value;
    var target, reference := ResolveVersion(requested, remote.1), ReferenceFor(c.host, repository, requested);
    if ServesFromCache(c, w, repository, target, remote.0, reference, a) {
      HitIsFaithful(k, c, w, repository, requested, a, p);
      if !a.saveHit {
        var hit := AfterHit(c, w, repository, target, remote.0, reference, a);
        FetchKeepsSound(k, c, hit, repository, target, remote.0, reference, a, p, w', r);
      }
    } else {
      FetchKeepsSound(k, c, w, repository, target, remote.0, reference, a, p, w', r);
    }
  }

  /** Soundness needs no I/O assumption at all; and a fetch or hit leaves its entry backed. */
  lemma SyncKeepsSound(k: Catalog, c: Setup, w: World, repository: string, requested: string, a: Answers, p: Package,
                       w': World, r: SyncResult)
    requires GoodCatalog(k) && Sound(k, w) && Serves(k, repository, requested, a, p)
    requires SyncStep(c, w, repository, requested, a, w', r)
    ensures Sound(k, w')
    ensures r == Synced(true)
        ==> repository in w'.mem && w'.mem[repository].version == p.config.version
            && Backed(w'.disk, w'.mem[repository])
  {
    if w' != w || r == Synced(true) {
      RefreshKeepsSound(k, c, w, repository, requested, a, p, w', r);
    }
  }

  /** A crash at any moment of a sync leaves a faithful tree and faithful saved entries. */
  lemma CrashKeepsSound(k: Catalog, c: Setup, w: World, repository: string, requested: string, a: Answers, p: Package,
                        w': World, r: SyncResult,
                        tree: Tree, saved: Ledger)
    requires GoodCatalog(k) && Sound(k, w) && Serves(k, repository, requested, a, p)
    requires SyncStep(c, w, repository, requested, a, w', r)
    requires SyncMoment(w, StoredPackage(c, w, repository, requested, a, r), a.io, tree, saved, w')
    ensures FaithfulTree(k, tree) && FaithfulLedger(k, saved)
  {
    if saved == w.saved && Storing(w.disk, StoredPackage(c, w, repository, requested, a, r), a.io, tree, w'.disk) {
      StoringKeepsFaith(k, w.disk, tree, w'.disk, p, a.io, repository);
    } else {
      SyncKeepsSound(k, c, w, repository, requested, a, p, w', r);
    }
  }

  // ---------- Transparency of one sync ----------

  /**
   * After a fetch or a cache hit the cache serves what the registry serves, even if earlier calls crashed.
   * After a skip it does exactly when the recorded version itself is still on disk.
   */
  lemma SyncIsTransparentIff(k: Catalog, c: Setup, w: World, repository: string, requested: string, a: Answers,
                             p: Package, w': World, fetched: bool)
    requires GoodCatalog(k) && Sound(k, w) && Serves(k, repository, requested, a, p)
    requires a.definition(ReferenceFor("", repository, requested)).Some?
    requires SyncStep(c, w, repository, requested, a, w', Synced(fetched))
    ensures repository in w'.mem
    ensures fetched ==> Transparent(w', p)
    ensures !fetched ==> (Transparent(w', p) <==> Backed(w.disk, w.mem[repository]))
  {
    SyncKeepsSound(k, c, w, repository, requested, a, p, w', Synced(fetched));
    if fetched {
      BackedIsTransparent(k, w', repository);
    } else {
      EntryOfDigest(k, repository, w.mem[repository], p);
      assert GoodRelease(k, repository, p.config.version);
      if Backed(w.disk, w.mem[repository]) {
        BackedIsTransparent(k, w', repository);
      }
    }
  }
}
