/** Whole runs of syncs, restarts and crashes against one catalog of releases. */
module Runs {
  import opened Naming
  import opened Storage
  import opened SyncState
  import opened Cache
  import opened Sync
  import opened SyncTheorems
  import opened Releases
  import opened Agreement

  datatype Event =
    | Call(c: Setup, repository: string, requested: string, a: Answers, p: Package, r: SyncResult)
    | Crash(c: Setup, repository: string, requested: string, a: Answers, p: Package, r: SyncResult,
            completed: World, tree: Tree, saved: Ledger)
    | Restart

  /** One event: a sync call, a sync call cut short by a crash and followed by a new process, or a new process. */
  ghost predicate Step(w: World, e: Event, w': World) {
    match e
    case Call(c, repository, requested, a, _, r) => SyncStep(c, w, repository, requested, a, w', r)
    case Crash(c, repository, requested, a, _, r, completed, tree, saved) =>
      && SyncStep(c, w, repository, requested, a, completed, r)
      && SyncMoment(w, StoredPackage(c, w, repository, requested, a, r), a.io, tree, saved, completed)
      && w' == World(tree, WellFormed(saved), saved)
    case Restart => w' == World(w.disk, WellFormed(w.saved), w.saved)
  }

  ghost predicate Lawful(k: Catalog, e: Event) {
    !e.Restart? ==> Serves(k, e.repository, e.requested, e.a, e.p)
  }

  /** The exact conditions under which a call, or a crash at the worst moment of a call, costs an active version. */
  predicate Drops(w: World, e: Event) {
    match e
    case Call(c, repository, requested, a, p, _) =>
      DropsMemory(c, w, repository, requested, a, p) || DropsSaved(c, w, repository, requested, a, p)
    case Crash(c, repository, requested, a, p, _, _, _, _) => CrashDrops(c, w, repository, requested, a, p)
    case Restart => false
  }

  /** Saves work, and a crash happens only where at least two versions are retained. Everything else may fail. */
  predicate Calm(e: Event) {
    e.Restart? || (e.a.saveHit && e.a.saveFetch && (e.Crash? ==> e.c.retention >= 2))
  }

  ghost predicate Run(ws: seq<World>, es: seq<Event>) {
    |ws| == |es| + 1 && forall i :: 0 <= i < |es| ==> Step(ws[i], es[i], ws[i + 1])
  }

  ghost predicate AllLawful(k: Catalog, es: seq<Event>) {
    forall e :: e in es ==> Lawful(k, e)
  }

  ghost predicate AllCalm(es: seq<Event>) {
    forall e :: e in es ==> Calm(e)
  }

  /** No event among the first n costs an active version. */
  ghost predicate NoneDrops(ws: seq<World>, es: seq<Event>, n: nat)
    requires n <= |es| < |ws|
  {
    forall i :: 0 <= i < n ==> !Drops(ws[i], es[i])
  }

  lemma ReloadIsIdentity(k: Catalog, led: Ledger)
    requires GoodCatalog(k) && FaithfulLedger(k, led)
    ensures WellFormed(led) == led
  {
    forall r | r in led ensures ValidDigest(led[r].digest) {
      assert FaithfulEntry(k, r, led[r]) && GoodRelease(k, r, led[r].version);
    }
  }

  // ---------- One step ----------

  lemma StepKeepsSound(k: Catalog, w: World, e: Event, w': World)
    requires GoodCatalog(k) && Sound(k, w) && Step(w, e, w') && Lawful(k, e)
    ensures Sound(k, w')
  {
    match e
    case Call(c, repository, requested, a, p, r) =>
      SyncKeepsSound(k, c, w, repository, requested, a, p, w', r);
    case Crash(c, repository, requested, a, p, r, completed, tree, saved) =>
      CrashKeepsSound(k, c, w, repository, requested, a, p, completed, r, tree, saved);
      ReloadIsIdentity(k, saved);
    case Restart =>
      ReloadIsIdentity(k, w.saved);
  }

  /** Agreement survives every event whose condition does not hold; for a call that is exact. */
  lemma StepKeepsAgreed(k: Catalog, w: World, e: Event, w': World)
    requires GoodCatalog(k) && Agreed(k, w) && Step(w, e, w') && Lawful(k, e)
    ensures !Drops(w, e) ==> Agreed(k, w')
    ensures e.Call? && Drops(w, e) ==> !Agreed(k, w')
    ensures e.Restart? || (e.Crash? && !Drops(w, e)) ==> Settled(k, w')
  {
    StepKeepsSound(k, w, e, w');
    match e
    case Call(c, repository, requested, a, p, r) =>
      SyncKeepsAgreedIff(k, c, w, repository, requested, a, p, w', r);
    case Crash(c, repository, requested, a, p, r, completed, tree, saved) =>
      CrashKeepsSound(k, c, w, repository, requested, a, p, completed, r, tree, saved);
      ReloadIsIdentity(k, saved);
      if !Drops(w, e) {
        HarmlessMoment(k, c, w, repository, requested, a, p, completed, r, tree, saved);
      }
    case Restart =>
      ReloadIsIdentity(k, w.saved);
  }

  /** With working saves, and two versions retained where it crashes, a process stays settled. */
  lemma CalmKeepsSettled(k: Catalog, w: World, e: Event, w': World)
    requires GoodCatalog(k) && Settled(k, w) && Step(w, e, w') && Lawful(k, e) && Calm(e)
    ensures Settled(k, w')
  {
    StepKeepsAgreed(k, w, e, w');
    match e
    case Call(c, repository, requested, a, p, r) =>
      SavingKeepsSettled(k, c, w, repository, requested, a, p, w', r);
    case Crash(c, repository, requested, a, p, r, completed, tree, saved) =>
      SettledConditions(k, c, w, repository, requested, a, p);
    case Restart =>
  }

  // ---------- Runs ----------

  /**
   * Every world of a run is sound, whatever crashes and I/O failures it contains. Every world is agreed as long as no
   * event's condition holds, and settled while saves work and two versions are retained where it crashes.
   */
  lemma {:induction false} RunInvariant(k: Catalog, ws: seq<World>, es: seq<Event>, n: nat)
    requires GoodCatalog(k) && Run(ws, es) && AllLawful(k, es) && Sound(k, ws[0]) && n <= |es|
    ensures Sound(k, ws[n])
    ensures Agreed(k, ws[0]) && NoneDrops(ws, es, n) ==> Agreed(k, ws[n])
    ensures Settled(k, ws[0]) && AllCalm(es) ==> Settled(k, ws[n])
  {
    if n > 0 {
      RunInvariant(k, ws, es, n - 1);
      var e := es[n - 1];
      assert e in es && Step(ws[n - 1], e, ws[n]);
      StepKeepsSound(k, ws[n - 1], e, ws[n]);
      if Agreed(k, ws[0]) && NoneDrops(ws, es, n) {
        assert NoneDrops(ws, es, n - 1) && !Drops(ws[n - 1], e);
        StepKeepsAgreed(k, ws[n - 1], e, ws[n]);
      }
      if Settled(k, ws[0]) && AllCalm(es) {
        CalmKeepsSettled(k, ws[n - 1], e, ws[n]);
      }
    }
  }

  /** In a run of calls and restarts agreement lasts exactly until the first call whose condition holds. */
  lemma AgreedUntilDrop(k: Catalog, ws: seq<World>, es: seq<Event>)
    requires GoodCatalog(k) && Run(ws, es) && AllLawful(k, es) && Agreed(k, ws[0])
    requires forall e :: e in es ==> !e.Crash?
    ensures (forall n :: 0 <= n <= |es| ==> Agreed(k, ws[n])) <==> NoneDrops(ws, es, |es|)
  {
    if NoneDrops(ws, es, |es|) {
      forall n | 0 <= n <= |es| ensures Agreed(k, ws[n]) {
        assert NoneDrops(ws, es, n);
        RunInvariant(k, ws, es, n);
      }
    }
    if forall n :: 0 <= n <= |es| ==> Agreed(k, ws[n]) {
      forall i | 0 <= i < |es| ensures !Drops(ws[i], es[i]) {
        assert es[i] in es && Step(ws[i], es[i], ws[i + 1]) && Agreed(k, ws[i]) && Agreed(k, ws[i + 1]);
        StepKeepsAgreed(k, ws[i], es[i], ws[i + 1]);
      }
    }
  }

  /**
   * Cache transparency over whole runs: after the n-th call returns without error with the registry reachable, lookup
   * gives exactly the served release, whatever order maps and directories are read in. Crashes and failures can
   * only spoil a skip, only after an event whose condition holds, and only while the recorded version is missing.
   */
  lemma CacheTransparency(k: Catalog, ws: seq<World>, es: seq<Event>, n: nat)
    requires GoodCatalog(k) && Run(ws, es) && AllLawful(k, es) && Sound(k, ws[0])
    requires n < |es| && es[n].Call? && es[n].r.Synced?
    requires es[n].a.definition(ReferenceFor("", es[n].repository, es[n].requested)).Some?
    ensures Settled(k, ws[0]) && AllCalm(es) ==> Transparent(ws[n + 1], es[n].p)
    ensures Agreed(k, ws[0]) && NoneDrops(ws, es, n) ==> Transparent(ws[n + 1], es[n].p)
    ensures es[n].r.fetched ==> Transparent(ws[n + 1], es[n].p)
    ensures !es[n].r.fetched ==> es[n].repository in ws[n].mem
    ensures !es[n].r.fetched ==> (Transparent(ws[n + 1], es[n].p) <==> Backed(ws[n].disk, ws[n].mem[es[n].repository]))
  {
    RunInvariant(k, ws, es, n);
    assert es[n] in es && Step(ws[n], es[n], ws[n + 1]);
    SyncIsTransparentIff(k, es[n].c, ws[n], es[n].repository, es[n].requested, es[n].a, es[n].p, ws[n + 1],
                         es[n].r.fetched);
  }

  /** Every recorded repository is served at all times, with or without a registry. */
  lemma AlwaysServed(k: Catalog, ws: seq<World>, es: seq<Event>, n: nat, repository: string)
    requires GoodCatalog(k) && Run(ws, es) && AllLawful(k, es) && n <= |es|
    requires (Settled(k, ws[0]) && AllCalm(es)) || (Agreed(k, ws[0]) && NoneDrops(ws, es, n))
    requires repository in ws[n].mem
    ensures (repository, ws[n].mem[repository].version) in k.releases
    ensures Transparent(ws[n], k.releases[(repository, ws[n].mem[repository].version)])
  {
    RunInvariant(k, ws, es, n);
    assert FaithfulEntry(k, repository, ws[n].mem[repository]);
    BackedIsTransparent(k, ws[n], repository);
  }

  // ---------- Where it fails ----------

  const UNTROUBLED := StoreIO(NoFault, "1", true, true, {})

  /** The registry serves p under every name; saves and I/O as given. */
  function Serving(k: Catalog, p: Package, io: StoreIO, saveHit: bool, saveFetch: bool): Answers {
    Answers(_ => Some((k.digest(p), p.config.version)), (_, _) => Rejected, (_, _) => Rejected, true,
            (_, _) => Unpacked(p.config, p.content), io, saveHit, saveFetch, 0, 0, true)
  }

  function Unverified(retention: int): Setup {
    Setup(false, "", false, retention)
  }

  function Holding(p: Package): Tree {
    map[Final(p.config) := Bundle(p.config, p.content)]
  }

  /** With one version retained: a Store of p2 beside the recorded p1 leaves p2 alone on disk. */
  lemma ReplacingStore(k: Catalog, repository: string, p1: Package, p2: Package, entry: PolicyState, retention: int)
    requires GoodCatalog(k) && TwoReleases(k, repository, p1, p2) && retention <= 1
    requires FaithfulEntry(k, repository, entry) && entry.version == p1.config.version
    ensures StoreOk(Holding(p1), p2.config, UNTROUBLED)
    ensures StoreStep(Holding(p1), Holding(p2), Some(map[repository := entry]), retention, p2.config, p2.content,
                      UNTROUBLED)
  {
    assert GoodRelease(k, repository, p1.config.version) && GoodRelease(k, repository, p2.config.version);
    TmpNamesAreHidden(UNTROUBLED.tmpSuffix);
    var t1 := Holding(p1)[Final(p2.config) := Bundle(p2.config, p2.content)];
    var e, led := p2.config.evaluatorId, map[repository := entry];
    assert Slot(e, p1.config.version) in t1;
    assert Candidates(t1, e, p2.config.version) == {p1.config.version};
    var kept: set<string> := {};
    var ts := map[entry.version := entry.lastUpdated];
    assert Tracks(led, repository, e);
    assert Stamps(ts, led, e) && NoneOlder(kept, {p1.config.version}, ts) by {
      assert forall v :: TrackedVersion(led, e, v) <==> v == entry.version && v != "";
    }
    assert Tracked({p1.config.version}, Some(led), e) - kept == Tracked({p1.config.version}, Some(led), e);
    assert Keeps(Tracked({p1.config.version}, Some(led), e), Some(led), e, retention, kept);
    assert Without(t1, e, {p1.config.version} - kept - UNTROUBLED.stuck) == Holding(p2);
  }

  /**
   * The rollback after a crash, with one version retained and nothing failing: p1 is recorded, a crash falls between
   * the Store of p2 and its save, at a moment that every such call passes through, and the registry serves p1 again.
   * The sync is a skip, and lookup answers with p2.
   */
  lemma RollbackAfterCrash(k: Catalog, repository: string, p1: Package, p2: Package, entry: PolicyState, retention: int)
    returns (ws: seq<World>, es: seq<Event>)
    requires GoodCatalog(k) && TwoReleases(k, repository, p1, p2) && retention <= 1
    requires FaithfulEntry(k, repository, entry) && entry.version == p1.config.version
    ensures |es| == 2 && Run(ws, es) && AllLawful(k, es) && Settled(k, ws[0])
    ensures es[0].Crash? && es[0].a == Serving(k, p2, UNTROUBLED, true, true) && es[0].c.retention == retention
    ensures Passing(ws[0].disk, Unpacked(p2.config, p2.content), es[0].a.io, es[0].tree, es[0].completed.disk)
    ensures es[1].Call? && es[1].p == p1 && es[1].r == Synced(false)
    ensures LookupAnswer(ws[2].disk, Some(ws[2].mem), true, p1.config.evaluatorId, Hit(Final(p2.config), p2.config))
    ensures !Transparent(ws[2], p1)
  {
    var led, c := map[repository := entry], Unverified(retention);
    var before, after := World(Holding(p1), led, led), World(Holding(p2), led, led);
    var crash := CrashBeforeSave(k, repository, p1, p2, entry, retention);
    var skip := Call(c, repository, "latest", Serving(k, p1, UNTROUBLED, true, true), p1, Synced(false));
    SkipAfterwards(k, repository, p1, p2, entry, retention);
    ServingServes(k, repository, p1, UNTROUBLED, true, true);
    ServingServes(k, repository, p2, UNTROUBLED, true, true);
    OneRecorded(k, repository, p1, entry);
    ws, es := [before, after, after], [crash, skip];
    TwoSteps(k, before, crash, after, skip, after);
  }

  lemma TwoSteps(k: Catalog, w0: World, e: Event, w1: World, f: Event, w2: World)
    requires Step(w0, e, w1) && Step(w1, f, w2) && Lawful(k, e) && Lawful(k, f)
    ensures Run([w0, w1, w2], [e, f]) && AllLawful(k, [e, f])
  {
  }

  lemma ServingServes(k: Catalog, repository: string, p: Package, io: StoreIO, saveHit: bool, saveFetch: bool)
    requires GoodCatalog(k) && IsRelease(k, repository, p)
    ensures Serves(k, repository, "latest", Serving(k, p, io, saveHit, saveFetch), p)
  {
    assert GoodRelease(k, repository, p.config.version);
  }

  lemma OneRecorded(k: Catalog, repository: string, p: Package, entry: PolicyState)
    requires GoodCatalog(k) && IsRelease(k, repository, p) && FaithfulEntry(k, repository, entry)
    requires entry.version == p.config.version
    ensures Settled(k, World(Holding(p), map[repository := entry], map[repository := entry]))
  {
    assert GoodRelease(k, repository, p.config.version);
  }

  lemma SkipAfterwards(k: Catalog, repository: string, p1: Package, p2: Package, entry: PolicyState, retention: int)
    requires GoodCatalog(k) && TwoReleases(k, repository, p1, p2)
    requires FaithfulEntry(k, repository, entry) && entry.version == p1.config.version
    ensures var led := map[repository := entry];
            var after := World(Holding(p2), led, led);
            && SyncStep(Unverified(retention), after, repository, "latest", Serving(k, p1, UNTROUBLED, true, true),
                        after, Synced(false))
            && LookupAnswer(after.disk, Some(after.mem), true, p1.config.evaluatorId, Hit(Final(p2.config), p2.config))
            && !Transparent(after, p1)
  {
    FallsBack(k, repository, p1, p2, entry);
    assert GoodRelease(k, repository, p1.config.version);
  }

  lemma CrashBeforeSave(k: Catalog, repository: string, p1: Package, p2: Package, entry: PolicyState, retention: int)
      returns (crash: Event)
    requires GoodCatalog(k) && TwoReleases(k, repository, p1, p2) && retention <= 1
    requires FaithfulEntry(k, repository, entry) && entry.version == p1.config.version
    ensures var led := map[repository := entry];
            && Step(World(Holding(p1), led, led), crash, World(Holding(p2), led, led))
            && crash.Crash? && crash.c == Unverified(retention) && crash.repository == repository
                && crash.requested == "latest"
            && crash.a == Serving(k, p2, UNTROUBLED, true, true) && crash.p == p2
            && Passing(Holding(p1), Unpacked(p2.config, p2.content), crash.a.io, crash.tree, crash.completed.disk)
  {
    var led, c, a := map[repository := entry], Unverified(retention), Serving(k, p2, UNTROUBLED, true, true);
    var before := World(Holding(p1), led, led);
    var stored := led[repository := NewEntry(p2.config.version, k.digest(p2), p2.config.evaluatorId, 0, None)];
    var completed := World(Holding(p2), stored, stored);
    FetchOfSecond(k, c, before, repository, p1, p2, entry, completed);
    ReloadIsIdentity(k, led);
    MomentOfSecond(k, c, before, repository, p1, p2, entry, completed);
    crash := Crash(c, repository, "latest", a, p2, Synced(true), completed, Holding(p2), led);
  }

  lemma MomentOfSecond(k: Catalog, c: Setup, w: World, repository: string, p1: Package, p2: Package,
                       entry: PolicyState, w': World)
    requires GoodCatalog(k) && TwoReleases(k, repository, p1, p2) && c == Unverified(c.retention) && c.retention <= 1
    requires FaithfulEntry(k, repository, entry) && entry.version == p1.config.version
    requires w == World(Holding(p1), map[repository := entry], map[repository := entry]) && w'.disk == Holding(p2)
    ensures var a := Serving(k, p2, UNTROUBLED, true, true);
            && SyncMoment(w, StoredPackage(c, w, repository, "latest", a, Synced(true)), a.io, Holding(p2), w.saved, w')
            && Passing(w.disk, Unpacked(p2.config, p2.content), a.io, Holding(p2), w'.disk)
  {
    ReplacingStore(k, repository, p1, p2, entry, c.retention);
    StoreEndsAtPoint(Holding(p1), Holding(p2), Some(w.mem), c.retention, p2.config, p2.content, UNTROUBLED);
    StoresSecond(k, c, w, repository, p1, p2, entry);
  }

  lemma StoresSecond(k: Catalog, c: Setup, w: World, repository: string, p1: Package, p2: Package, entry: PolicyState)
    requires GoodCatalog(k) && TwoReleases(k, repository, p1, p2) && c == Unverified(c.retention)
    requires FaithfulEntry(k, repository, entry) && entry.version == p1.config.version
    requires w.disk == Holding(p1) && w.mem == map[repository := entry]
    ensures StoredPackage(c, w, repository, "latest", Serving(k, p2, UNTROUBLED, true, true), Synced(true))
         == Unpacked(p2.config, p2.content)
  {
    assert GoodRelease(k, repository, p2.config.version);
    assert !Whole(w.disk, Slot(entry.evaluatorId, p2.config.version));
  }

  /** The recorded p1 is not on disk, p2 is: lookup falls back to the scan and answers with p2. */
  lemma FallsBack(k: Catalog, repository: string, p1: Package, p2: Package, entry: PolicyState)
    requires GoodCatalog(k) && TwoReleases(k, repository, p1, p2)
    requires FaithfulEntry(k, repository, entry) && entry.version == p1.config.version
    ensures var led := map[repository := entry];
            && LookupAnswer(Holding(p2), Some(led), true, entry.evaluatorId, Hit(Final(p2.config), p2.config))
            && MayExist(Holding(p2), led, true, entry)
  {
    var led, t, hit := map[repository := entry], Holding(p2), Hit(Final(p2.config), p2.config);
    assert GoodRelease(k, repository, p1.config.version) && GoodRelease(k, repository, p2.config.version);
    OwnerIsSole(k, led, repository);
    forall v | IsActive(led, entry.evaluatorId, At(v)) ensures v == entry.version {
      assert IsActive(led, entry.evaluatorId, At(entry.version));
      ActiveIsUnique(led, entry.evaluatorId, At(v), At(entry.version));
    }
    assert ScanStop(t, entry.evaluatorId, p2.config.version);
    assert LookupAnswer(t, Some(led), true, entry.evaluatorId, hit);
  }

  lemma FetchOfSecond(k: Catalog, c: Setup, w: World, repository: string, p1: Package, p2: Package,
                      entry: PolicyState, w': World)
    requires GoodCatalog(k) && TwoReleases(k, repository, p1, p2) && c == Unverified(c.retention) && c.retention <= 1
    requires FaithfulEntry(k, repository, entry) && entry.version == p1.config.version
    requires w == World(Holding(p1), map[repository := entry], map[repository := entry])
    requires w' == World(Holding(p2), w'.mem, w'.mem)
    requires w'.mem == w.mem[repository := NewEntry(p2.config.version, k.digest(p2), p2.config.evaluatorId, 0, None)]
    ensures SyncStep(c, w, repository, "latest", Serving(k, p2, UNTROUBLED, true, true), w', Synced(true))
  {
    var a := Serving(k, p2, UNTROUBLED, true, true);
    assert GoodRelease(k, repository, p2.config.version);
    ReplacingStore(k, repository, p1, p2, entry, c.retention);
    assert !Whole(w.disk, Slot(entry.evaluatorId, p2.config.version));
    assert FetchStep(c, w, repository, p2.config.version, k.digest(p2), ReferenceFor(c.host, repository, "latest"), a,
                     w', Synced(true));
  }

  /**
   * A call that loses the version in memory: p1 is recorded, p2 is on disk too and requested; the cache hit cannot be
   * saved, so p2 is fetched over itself, and the final rename fails.
   */
  lemma UnsavedHitThenFailedRename(k: Catalog, repository: string, p1: Package, p2: Package, entry: PolicyState,
                                   retention: int)
    returns (w: World, a: Answers, w': World)
    requires GoodCatalog(k) && TwoReleases(k, repository, p1, p2)
    requires FaithfulEntry(k, repository, entry) && entry.version == p1.config.version
    ensures Settled(k, w) && Serves(k, repository, "latest", a, p2)
    ensures SyncStep(Unverified(retention), w, repository, "latest", a, w', Fail(StoreError))
    ensures repository in w'.mem && w'.mem[repository].version == p2.config.version
    ensures !Backed(w'.disk, w'.mem[repository])
  {
    var c, led := Unverified(retention), map[repository := entry];
    var io := UNTROUBLED.(fault := RenameFails);
    a := Serving(k, p2, io, false, true);
    w := World(Holding(p1)[Final(p2.config) := Bundle(p2.config, p2.content)], led, led);
    assert GoodRelease(k, repository, p1.config.version) && GoodRelease(k, repository, p2.config.version);
    TmpNamesAreHidden(io.tmpSuffix);
    var reference := ReferenceFor(c.host, repository, "latest");
    assert ServesFromCache(c, w, repository, p2.config.version, k.digest(p2), reference, a);
    var hit := AfterHit(c, w, repository, p2.config.version, k.digest(p2), reference, a);
    w' := hit.(disk := w.disk - {Final(p2.config)});
    assert Temp(p2.config, io) !in w.disk;
    assert StoreStep(w.disk, w'.disk, Some(hit.mem), retention, p2.config, p2.content, io);
    assert FetchStep(c, hit, repository, p2.config.version, k.digest(p2), reference, a, w', Fail(StoreError));
    assert k.digest(p1) != k.digest(p2);
  }
}
