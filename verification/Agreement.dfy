/** State and disk agree: exactly which calls, and which crashes during a call, keep it so. */
module Agreement {
  import opened Naming
  import opened Storage
  import opened SyncState
  import opened Cache
  import opened CacheTheorems
  import opened Sync
  import opened SyncTheorems
  import opened Releases

  // ---------- Conditions on a call, checkable before it ----------

  /** The registry has news, no saved cache hit answers it, and all steps before Store succeed. */
  predicate EntersStore(c: Setup, w: World, repository: string, requested: string, a: Answers) {
    var remote := a.definition(ReferenceFor("", repository, requested));
    && remote.Some? && !(repository in w.mem && w.mem[repository].digest == remote.value.0)
    && StoredPackage(c, w, repository, requested, a, Synced(true)).Unpacked?
  }

  /** The world as Store finds it: a cache hit that could not be saved is in memory already. */
  function AtStore(c: Setup, w: World, repository: string, requested: string, a: Answers): World {
    if UnsavedHit(c, w, repository, requested, a) then
      var remote := a.definition(ReferenceFor("", repository, requested)).value;
      AfterHit(c, w, repository, ResolveVersion(requested, remote.1), remote.0,
               ReferenceFor(c.host, repository, requested), a)
    else w
  }

  /** Eviction under this state removes the version an entry names. */
  predicate Evicts(led: Ledger, retention: int, repository: string, ps: PolicyState, io: StoreIO) {
    && io.listable && ps.version !in io.stuck
    && !(retention > 1 && repository in led && led[repository].version == ps.version)
  }

  /** Storing p costs the version an entry of its repository names: a failed replacement, or an eviction. */
  predicate Lost(t: Tree, led: Ledger, retention: int, repository: string, ps: PolicyState, p: Package, io: StoreIO) {
    && ps.evaluatorId == p.config.evaluatorId
    && if ps.version == p.config.version then Replaces(t, p.config, io) && io.fault.RenameFails?
       else StoreOk(t, p.config, io) && Evicts(led, retention, repository, ps, io)
  }

  /** Some moment of storing p lacks the version an entry of its repository names. */
  predicate LostMeanwhile(t: Tree, led: Ledger, retention: int, repository: string, ps: PolicyState, p: Package,
                          io: StoreIO) {
    && ps.evaluatorId == p.config.evaluatorId
    && if ps.version == p.config.version then Replaces(t, p.config, io)
       else StoreOk(t, p.config, io) && Evicts(led, retention, repository, ps, io)
  }

  /** A cache hit that could not be saved, and then a failed replacement of the very version that was hit. */
  predicate DropsMemory(c: Setup, w: World, repository: string, requested: string, a: Answers, p: Package) {
    && EntersStore(c, w, repository, requested, a) && UnsavedHit(c, w, repository, requested, a)
    && Replaces(w.disk, p.config, a.io) && a.io.fault.RenameFails?
  }

  /** The version the saved entry names is lost and the entry is not replaced. */
  predicate DropsSaved(c: Setup, w: World, repository: string, requested: string, a: Answers, p: Package) {
    && EntersStore(c, w, repository, requested, a) && repository in w.saved
    && !(StoreOk(w.disk, p.config, a.io) && a.saveFetch)
    && Lost(w.disk, AtStore(c, w, repository, requested, a).mem, c.retention, repository, w.saved[repository], p, a.io)
  }

  /** The version the saved entry names is missing at some moment before the save. */
  predicate CrashDrops(c: Setup, w: World, repository: string, requested: string, a: Answers, p: Package) {
    && EntersStore(c, w, repository, requested, a) && repository in w.saved
    && LostMeanwhile(w.disk, AtStore(c, w, repository, requested, a).mem, c.retention, repository,
                     w.saved[repository], p, a.io)
  }

  // ---------- One Store ----------

  lemma BackedElsewhere(k: Catalog, t: Tree, t': Tree, led: Ledger, repository: string, other: string, p: Package)
    requires GoodCatalog(k) && FaithfulLedger(k, led) && other in led && other != repository && Backed(t, led[other])
    requires IsRelease(k, repository, p) && SameElsewhere(t, t', p.config.evaluatorId)
    ensures Backed(t', led[other])
  {
    assert FaithfulEntry(k, other, led[other]);
    assert GoodRelease(k, other, led[other].version) && GoodRelease(k, repository, p.config.version);
    assert SameAt(t, t', Slot(led[other].evaluatorId, led[other].version));
  }

  /** Of one evaluator at most the owner's version is tracked. */
  lemma OneTracked(k: Catalog, led: Ledger, repository: string, p: Package, v: string)
    requires GoodCatalog(k) && FaithfulLedger(k, led) && IsRelease(k, repository, p) && (repository, v) in k.releases
    requires k.releases[(repository, v)].config.evaluatorId == p.config.evaluatorId
    ensures forall x ::
              TrackedVersion(led, p.config.evaluatorId, x) ==> repository in led && x == led[repository].version
    ensures TrackedVersion(led, p.config.evaluatorId, v) <==> repository in led && led[repository].version == v
  {
    forall x | TrackedVersion(led, p.config.evaluatorId, x) ensures repository in led && x == led[repository].version {
      var r :| Tracks(led, r, p.config.evaluatorId) && led[r].version == x;
      assert FaithfulEntry(k, r, led[r]) && GoodRelease(k, r, x) && GoodRelease(k, repository, p.config.version);
    }
    if repository in led && led[repository].version == v {
      assert FaithfulEntry(k, repository, led[repository]) && GoodRelease(k, repository, v);
      assert Tracks(led, repository, p.config.evaluatorId);
    }
  }

  /** The fate of another version of the stored evaluator in a Store that succeeds. */
  lemma EvictedIff(k: Catalog, t: Tree, t': Tree, led: Ledger, retention: int, repository: string, ps: PolicyState,
                   p: Package, io: StoreIO)
    requires GoodCatalog(k) && FaithfulLedger(k, led) && FaithfulEntry(k, repository, ps) && IsRelease(k, repository, p)
    requires Backed(t, ps)
    requires StoreStep(t, t', Some(led), retention, p.config, p.content, io) && StoreOk(t, p.config, io)
    requires ps.evaluatorId == p.config.evaluatorId && ps.version != p.config.version
    ensures Backed(t', ps) <==> !Evicts(led, retention, repository, ps, io)
  {
    var t1, s := t[Final(p.config) := Bundle(p.config, p.content)], Slot(ps.evaluatorId, ps.version);
    assert GoodRelease(k, repository, ps.version);
    assert Whole(t1, s) && ps.version in Candidates(t1, ps.evaluatorId, p.config.version);
    OneTracked(k, led, repository, p, ps.version);
    StaysIff(t1, t', ps.evaluatorId, p.config.version, led, retention, io, ps.version,
             if repository in led then led[repository].version else "");
    StoredTarget(t, t', Some(led), retention, p.config, p.content, io);
    assert SameAt(t1, t', s) || s !in t';
  }

  /** The fate of the version an entry names, in every Store of a release of the entry's repository. */
  lemma LostIff(k: Catalog, t: Tree, t': Tree, led: Ledger, retention: int, repository: string, ps: PolicyState,
                p: Package, io: StoreIO)
    requires GoodCatalog(k) && FaithfulLedger(k, led) && FaithfulEntry(k, repository, ps) && IsRelease(k, repository, p)
    requires Backed(t, ps)
    requires StoreStep(t, t', Some(led), retention, p.config, p.content, io)
    ensures Backed(t', ps) <==> !Lost(t, led, retention, repository, ps, p, io)
  {
    var s := Slot(ps.evaluatorId, ps.version);
    assert GoodRelease(k, repository, ps.version) && GoodRelease(k, repository, p.config.version);
    TmpNamesAreHidden(io.tmpSuffix);
    assert s != Temp(p.config, io) && Final(p.config) != Temp(p.config, io);
    if !StoreOk(t, p.config, io) {
      FailedStore(t, t', Some(led), retention, p.config, p.content, io);
      assert s != Final(p.config) ==> SameAt(t, t', s);
      if s == Final(p.config) {
        LostTarget(t, t', led, retention, p, io);
      }
    } else if ps.evaluatorId != p.config.evaluatorId {
      StoreFrame(t, t', Some(led), retention, p.config, p.content, io);
      assert SameAt(t, t', s);
    } else if ps.version == p.config.version {
      StoredTarget(t, t', Some(led), retention, p.config, p.content, io);
    } else {
      EvictedIff(k, t, t', led, retention, repository, ps, p, io);
    }
  }

  lemma LostTarget(t: Tree, t': Tree, led: Ledger, retention: int, p: Package, io: StoreIO)
    requires StoreStep(t, t', Some(led), retention, p.config, p.content, io) && !StoreOk(t, p.config, io)
    requires Final(p.config) in t && Final(p.config) != Temp(p.config, io)
    ensures Replaces(t, p.config, io) ==> io.fault.RenameFails? && Final(p.config) !in t'
    ensures !Replaces(t, p.config, io) ==> SameAt(t, t', Final(p.config))
  {
  }

  // ---------- One call ----------

  /** What a call does around Store. */
  ghost predicate Stored(c: Setup, w: World, w0: World, repository: string, a: Answers, p: Package, w': World) {
    && w0.disk == w.disk && w0.saved == w.saved
    && StoreStep(w.disk, w'.disk, Some(w0.mem), c.retention, p.config, p.content, a.io)
    && if StoreOk(w.disk, p.config, a.io)
       then
         && repository in w'.mem && w'.mem == w0.mem[repository := w'.mem[repository]]
         && w'.mem[repository].version == p.config.version && w'.mem[repository].evaluatorId == p.config.evaluatorId
         && w'.saved == (if a.saveFetch then w'.mem else w.saved)
       else w'.mem == w0.mem && w'.saved == w.saved
  }

  lemma FetchStores(k: Catalog, c: Setup, w: World, w0: World, repository: string, version: string, digest: string,
                    reference: string,
                    a: Answers, p: Package, w': World, r: SyncResult)
    requires GoodCatalog(k) && IsRelease(k, repository, p) && digest == k.digest(p)
    requires w0.disk == w.disk && w0.saved == w.saved
    requires FetchStep(c, w0, repository, version, digest, reference, a, w', r)
    requires a.copy(repository, version).Unpacked? ==> a.copy(repository, version) == Unpacked(p.config, p.content)
    ensures FetchedPackage(c, repository, version, reference, a).Unpacked? ==> Stored(c, w, w0, repository, a, p, w')
    ensures !FetchedPackage(c, repository, version, reference, a).Unpacked? ==> w' == w0
  {
    assert GoodRelease(k, repository, p.config.version);
  }

  /** From an agreed state every call either goes through Store, as described, or loses nothing. */
  lemma CallCases(k: Catalog, c: Setup, w: World, repository: string, requested: string, a: Answers, p: Package,
                  w': World, r: SyncResult)
    requires GoodCatalog(k) && Sound(k, w) && AllBacked(w.disk, w.mem) && Serves(k, repository, requested, a, p)
    requires SyncStep(c, w, repository, requested, a, w', r)
    ensures StoredPackage(c, w, repository, requested, a, r).Unpacked? <==> EntersStore(c, w, repository, requested, a)
    ensures if EntersStore(c, w, repository, requested, a)
            then IsRelease(k, repository, p) && ThroughStore(c, w, repository, requested, a, p, w', r)
            else NothingStored(c, w, repository, requested, a, w')
  {
    var remote := a.definition(ReferenceFor("", repository, requested));
    if repository == "" || (c.verifying && c.host == "") || remote.None? {
      NotAsked(c, w, repository, requested, a, w', r);
    } else if repository in w.mem && w.mem[repository].digest == remote.value.0 {
      SkipIsSure(k, c, w, repository, requested, a, w', r);
    } else {
      RefreshCases(k, c, w, repository, requested, a, p, w', r);
    }
  }

  lemma NotAsked(c: Setup, w: World, repository: string, requested: string, a: Answers, w': World, r: SyncResult)
    requires repository == "" || (c.verifying && c.host == "")
        || a.definition(ReferenceFor("", repository, requested)).None?
    requires SyncStep(c, w, repository, requested, a, w', r)
    ensures !StoredPackage(c, w, repository, requested, a, r).Unpacked? && !EntersStore(c, w, repository, requested, a)
    ensures NothingStored(c, w, repository, requested, a, w')
  {
  }

  /** The call hands p to Store. */
  ghost predicate ThroughStore(c: Setup, w: World, repository: string, requested: string, a: Answers, p: Package,
                               w': World, r: SyncResult) {
    && StoredPackage(c, w, repository, requested, a, r) == Unpacked(p.config, p.content)
    && Stored(c, w, AtStore(c, w, repository, requested, a), repository, a, p, w')
  }

  /** The disk is as before, and at most a cache hit was recorded. */
  ghost predicate NothingStored(c: Setup, w: World, repository: string, requested: string, a: Answers, w': World) {
    && w'.disk == w.disk && (w'.saved == w.saved || w'.saved == w'.mem)
    && (w'.mem == w.mem || w'.mem == AtHit(c, w, repository, requested, a).mem)
  }

  /** An unchanged digest is always a skip. */
  lemma SkipIsSure(k: Catalog, c: Setup, w: World, repository: string, requested: string, a: Answers, w': World,
                   r: SyncResult)
    requires GoodCatalog(k) && FaithfulLedger(k, w.mem) && AllBacked(w.disk, w.mem) && repository in w.mem
    requires repository != "" && !(c.verifying && c.host == "")
    requires a.definition(ReferenceFor("", repository, requested)).Some?
    requires w.mem[repository].digest == a.definition(ReferenceFor("", repository, requested)).value.0
    requires SyncStep(c, w, repository, requested, a, w', r)
    ensures !StoredPackage(c, w, repository, requested, a, r).Unpacked? && !EntersStore(c, w, repository, requested, a)
    ensures NothingStored(c, w, repository, requested, a, w')
  {
    OwnerIsSole(k, w.mem, repository);
    PresentForSure(w.disk, w.mem, a.scannable, repository);
  }

  lemma RefreshCases(k: Catalog, c: Setup, w: World, repository: string, requested: string, a: Answers, p: Package,
                     w': World, r: SyncResult)
    requires GoodCatalog(k) && Serves(k, repository, requested, a, p)
    requires repository != "" && !(c.verifying && c.host == "")
    requires a.definition(ReferenceFor("", repository, requested)).Some?
    requires !(repository in w.mem
               && w.mem[repository].digest == a.definition(ReferenceFor("", repository, requested)).value.0)
    requires SyncStep(c, w, repository, requested, a, w', r)
    ensures IsRelease(k, repository, p)
    ensures StoredPackage(c, w, repository, requested, a, r).Unpacked? <==> EntersStore(c, w, repository, requested, a)
    ensures if StoredPackage(c, w, repository, requested, a, r).Unpacked?
            then ThroughStore(c, w, repository, requested, a, p, w', r)
            else NothingStored(c, w, repository, requested, a, w')
  {
    var remote := a.definition(ReferenceFor("", repository, requested)).value;
    var target, reference := ResolveVersion(requested, remote.1), ReferenceFor(c.host, repository, requested);
    assert RefreshStep(c, w, repository, target, remote.0, reference, a, w', r);
    if !(ServesFromCache(c, w, repository, target, remote.0, reference, a) && a.saveHit) {
      var w0 := AtStore(c, w, repository, requested, a);
      assert FetchStep(c, w0, repository, target, remote.0, reference, a, w', r);
      FetchStores(k, c, w, w0, repository, target, remote.0, reference, a, p, w', r);
    }
  }

  /** The world after recording a cache hit, where the recorded version is on disk; otherwise the same world. */
  function AtHit(c: Setup, w: World, repository: string, requested: string, a: Answers): World {
    var remote := a.definition(ReferenceFor("", repository, requested));
    if remote.Some? && ServesFromCache(c, w, repository, ResolveVersion(requested, remote.value.1), remote.value.0,
                                       ReferenceFor(c.host, repository, requested), a)
    then AfterHit(c, w, repository, ResolveVersion(requested, remote.value.1), remote.value.0,
                  ReferenceFor(c.host, repository, requested), a)
    else w
  }

  /** Recording a hit keeps every entry faithful and backed; the hit entry names the served release. */
  lemma HitKeepsBacked(k: Catalog, c: Setup, w: World, repository: string, requested: string, a: Answers, p: Package)
    requires GoodCatalog(k) && Sound(k, w) && AllBacked(w.disk, w.mem) && Serves(k, repository, requested, a, p)
    ensures var hit := AtHit(c, w, repository, requested, a);
            && hit.disk == w.disk && FaithfulLedger(k, hit.mem) && AllBacked(w.disk, hit.mem)
            && (hit != w ==> repository in hit.mem && hit.mem[repository].version == p.config.version)
            && (UnsavedHit(c, w, repository, requested, a)
                ==> hit == AtStore(c, w, repository, requested, a) && hit != w)
  {
    var hit := AtHit(c, w, repository, requested, a);
    if hit != w {
      HitIsFaithful(k, c, w, repository, requested, a, p);
      forall other | other in hit.mem ensures Backed(w.disk, hit.mem[other]) {
        assert other != repository ==> hit.mem[other] == w.mem[other];
      }
    }
    if UnsavedHit(c, w, repository, requested, a) {
      assert hit.mem[repository].version != w.mem[repository].version;
    }
  }

  /** At Store the repository's entry in memory names the stored version exactly after an unsaved hit. */
  lemma StoredOverIff(k: Catalog, c: Setup, w: World, repository: string, requested: string, a: Answers, p: Package)
    requires GoodCatalog(k) && Sound(k, w) && AllBacked(w.disk, w.mem) && Serves(k, repository, requested, a, p)
    requires EntersStore(c, w, repository, requested, a)
    ensures var w0 := AtStore(c, w, repository, requested, a);
            && FaithfulLedger(k, w0.mem) && AllBacked(w.disk, w0.mem)
            && (repository in w0.mem && w0.mem[repository].version == p.config.version
                <==> UnsavedHit(c, w, repository, requested, a))
  {
    HitKeepsBacked(k, c, w, repository, requested, a, p);
    assert repository in w.mem ==> FaithfulEntry(k, repository, w.mem[repository]);
  }

  /** After Store the entries of a ledger are backed, except its repository's exactly when that version is lost. */
  lemma LedgerAfterStore(k: Catalog, t: Tree, t': Tree, mem: Ledger, retention: int, repository: string, p: Package,
                         io: StoreIO, led: Ledger)
    requires GoodCatalog(k) && FaithfulLedger(k, mem) && FaithfulLedger(k, led) && AllBacked(t, led)
    requires IsRelease(k, repository, p)
    requires StoreStep(t, t', Some(mem), retention, p.config, p.content, io)
    ensures forall r :: r in led && r != repository ==> Backed(t', led[r])
    ensures AllBacked(t', led) <==> !(repository in led && Lost(t, mem, retention, repository, led[repository], p, io))
  {
    StoreFrame(t, t', Some(mem), retention, p.config, p.content, io);
    forall r | r in led && r != repository ensures Backed(t', led[r]) {
      BackedElsewhere(k, t, t', led, repository, r, p);
    }
    if repository in led {
      LostIff(k, t, t', mem, retention, repository, led[repository], p, io);
    }
  }

  /** Memory after a call agrees with the disk unless an unsaved hit is followed by a failed replacement. */
  lemma MemoryBackedIff(k: Catalog, c: Setup, w: World, repository: string, requested: string, a: Answers, p: Package,
                        w': World, r: SyncResult)
    requires GoodCatalog(k) && Sound(k, w) && AllBacked(w.disk, w.mem) && Serves(k, repository, requested, a, p)
    requires SyncStep(c, w, repository, requested, a, w', r)
    ensures AllBacked(w'.disk, w'.mem) <==> !DropsMemory(c, w, repository, requested, a, p)
  {
    CallCases(k, c, w, repository, requested, a, p, w', r);
    if EntersStore(c, w, repository, requested, a) {
      StoredOverIff(k, c, w, repository, requested, a, p);
      MemoryAfterStore(k, c, w, AtStore(c, w, repository, requested, a), repository, a, p, w');
    } else {
      HitKeepsBacked(k, c, w, repository, requested, a, p);
    }
  }

  lemma MemoryAfterStore(k: Catalog, c: Setup, w: World, w0: World, repository: string, a: Answers, p: Package,
                         w': World)
    requires GoodCatalog(k) && IsRelease(k, repository, p) && Stored(c, w, w0, repository, a, p, w')
    requires FaithfulLedger(k, w0.mem) && AllBacked(w.disk, w0.mem)
    ensures AllBacked(w'.disk, w'.mem) <==> !(repository in w0.mem && w0.mem[repository].version == p.config.version
                                               && Replaces(w.disk, p.config, a.io) && a.io.fault.RenameFails?)
  {
    LedgerAfterStore(k, w.disk, w'.disk, w0.mem, c.retention, repository, p, a.io, w0.mem);
    assert GoodRelease(k, repository, p.config.version);
    assert repository in w0.mem ==> FaithfulEntry(k, repository, w0.mem[repository]);
    if StoreOk(w.disk, p.config, a.io) {
      StoredTarget(w.disk, w'.disk, Some(w0.mem), c.retention, p.config, p.content, a.io);
      forall other | other in w'.mem ensures Backed(w'.disk, w'.mem[other]) {
        assert other != repository ==> w'.mem[other] == w0.mem[other];
      }
    }
  }

  /** The saved entries after a call agree with the disk exactly unless the saved entry's version is lost. */
  lemma SavedBackedIff(k: Catalog, c: Setup, w: World, repository: string, requested: string, a: Answers, p: Package,
                       w': World, r: SyncResult)
    requires GoodCatalog(k) && Agreed(k, w) && Serves(k, repository, requested, a, p)
    requires SyncStep(c, w, repository, requested, a, w', r) && !DropsMemory(c, w, repository, requested, a, p)
    ensures AllBacked(w'.disk, w'.saved) <==> !DropsSaved(c, w, repository, requested, a, p)
  {
    CallCases(k, c, w, repository, requested, a, p, w', r);
    MemoryBackedIff(k, c, w, repository, requested, a, p, w', r);
    if EntersStore(c, w, repository, requested, a) {
      StoredOverIff(k, c, w, repository, requested, a, p);
      LedgerAfterStore(k, w.disk, w'.disk, AtStore(c, w, repository, requested, a).mem, c.retention, repository, p,
                       a.io, w.saved);
    }
  }

  /**
   * Agreement survives a call, whatever its I/O does, exactly unless an unsaved hit is followed by a failed replacement
   * or the version the saved entry names is lost while the entry stays.
   */
  lemma SyncKeepsAgreedIff(k: Catalog, c: Setup, w: World, repository: string, requested: string, a: Answers,
                           p: Package, w': World, r: SyncResult)
    requires GoodCatalog(k) && Agreed(k, w) && Serves(k, repository, requested, a, p)
    requires SyncStep(c, w, repository, requested, a, w', r)
    ensures Agreed(k, w')
        <==> !DropsMemory(c, w, repository, requested, a, p) && !DropsSaved(c, w, repository, requested, a, p)
  {
    SyncKeepsSound(k, c, w, repository, requested, a, p, w', r);
    MemoryBackedIff(k, c, w, repository, requested, a, p, w', r);
    if !DropsMemory(c, w, repository, requested, a, p) {
      SavedBackedIff(k, c, w, repository, requested, a, p, w', r);
    }
  }

  // ---------- A crash during a call ----------

  /** At a moment of Store an entry's version is there unless it is the target being replaced or going to be evicted. */
  lemma BackedMeanwhile(k: Catalog, t: Tree, u: Tree, t': Tree, mem: Ledger, retention: int, repository: string,
                        ps: PolicyState, p: Package, io: StoreIO)
    requires GoodCatalog(k) && FaithfulLedger(k, mem) && FaithfulEntry(k, repository, ps) && IsRelease(k, repository, p)
    requires Backed(t, ps)
    requires StoreStep(t, t', Some(mem), retention, p.config, p.content, io)
    requires StorePoint(t, u, t', p.config, p.content, io)
    requires !LostMeanwhile(t, mem, retention, repository, ps, p, io)
    ensures Backed(u, ps)
  {
    var s, t1 := Slot(ps.evaluatorId, ps.version), t[Final(p.config) := Bundle(p.config, p.content)];
    assert GoodRelease(k, repository, ps.version) && GoodRelease(k, repository, p.config.version);
    TmpNamesAreHidden(io.tmpSuffix);
    assert s != Temp(p.config, io);
    if BeforeSwap(t, u, p.config, io) {
      assert SameAt(t, u, s) || (s == Final(p.config) && Replaces(t, p.config, io));
    } else {
      assert SameAt(t1, u, s) || s !in u;
      if ps.evaluatorId == p.config.evaluatorId && ps.version != p.config.version {
        EvictedIff(k, t, t', mem, retention, repository, ps, p, io);
        assert s in t';
      }
    }
  }

  lemma LedgerMeanwhile(k: Catalog, t: Tree, u: Tree, t': Tree, mem: Ledger, retention: int, repository: string,
                        p: Package, io: StoreIO, led: Ledger)
    requires GoodCatalog(k) && FaithfulLedger(k, mem) && FaithfulLedger(k, led) && AllBacked(t, led)
    requires IsRelease(k, repository, p)
    requires StoreStep(t, t', Some(mem), retention, p.config, p.content, io)
    requires StorePoint(t, u, t', p.config, p.content, io)
    requires repository in led ==> !LostMeanwhile(t, mem, retention, repository, led[repository], p, io)
    ensures AllBacked(u, led)
  {
    assert SameElsewhere(t, u, p.config.evaluatorId);
    forall r | r in led ensures Backed(u, led[r]) {
      if r == repository {
        BackedMeanwhile(k, t, u, t', mem, retention, repository, led[r], p, io);
      } else {
        BackedElsewhere(k, t, u, led, repository, r, p);
      }
    }
  }

  /** What an unsaved hit loses is also what the saved entries name, if they already equal memory. */
  lemma DroppedFromBoth(k: Catalog, c: Setup, w: World, repository: string, requested: string, a: Answers, p: Package,
                        w': World, r: SyncResult)
    requires GoodCatalog(k) && Agreed(k, w) && Serves(k, repository, requested, a, p)
    requires SyncStep(c, w, repository, requested, a, w', r) && w'.saved == w'.mem
    ensures DropsMemory(c, w, repository, requested, a, p) ==> CrashDrops(c, w, repository, requested, a, p)
  {
    CallCases(k, c, w, repository, requested, a, p, w', r);
    if DropsMemory(c, w, repository, requested, a, p) {
      StoredOverIff(k, c, w, repository, requested, a, p);
      assert w.saved == AtStore(c, w, repository, requested, a).mem;
      EntryOfVersion(k, repository, w.saved[repository], p);
    }
  }

  lemma EntryOfVersion(k: Catalog, repository: string, ps: PolicyState, p: Package)
    requires FaithfulEntry(k, repository, ps) && IsRelease(k, repository, p) && ps.version == p.config.version
    ensures ps.evaluatorId == p.config.evaluatorId
  {
  }

  /** When the condition does not hold, every moment of the call leaves saved entries that are backed. */
  lemma HarmlessMoment(k: Catalog, c: Setup, w: World, repository: string, requested: string, a: Answers, p: Package,
                       w': World, r: SyncResult,
                       tree: Tree, saved: Ledger)
    requires GoodCatalog(k) && Agreed(k, w) && Serves(k, repository, requested, a, p)
    requires !CrashDrops(c, w, repository, requested, a, p)
    requires SyncStep(c, w, repository, requested, a, w', r)
    requires SyncMoment(w, StoredPackage(c, w, repository, requested, a, r), a.io, tree, saved, w')
    ensures AllBacked(tree, saved)
  {
    CallCases(k, c, w, repository, requested, a, p, w', r);
    var w0 := AtStore(c, w, repository, requested, a);
    if saved == w.saved && Storing(w.disk, StoredPackage(c, w, repository, requested, a, r), a.io, tree, w'.disk) {
      StoredOverIff(k, c, w, repository, requested, a, p);
      LedgerMeanwhile(k, w.disk, tree, w'.disk, w0.mem, c.retention, repository, p, a.io, w.saved);
    } else if !(saved == w.saved && tree == w.disk) {
      DroppedFromBoth(k, c, w, repository, requested, a, p, w', r);
      MemoryBackedIff(k, c, w, repository, requested, a, p, w', r);
    }
  }

  /** What every Store passes through is one of its points. */
  lemma PassesArePoints(t: Tree, u: Tree, t': Tree, state: Option<Ledger>, retention: int, config: Config,
                        content: string, io: StoreIO)
    requires StoreStep(t, t', state, retention, config, content, io) && Passes(t, u, t', config, content, io)
    ensures StorePoint(t, u, t', config, content, io)
  {
    if StoreOk(t, config, io) && u == t' {
      StoreEndsAtPoint(t, t', state, retention, config, content, io);
    } else {
      assert BeforeSwap(t, u, config, io);
    }
  }

  /** A tree that the Store is certain to pass through and that lacks the version the entry names. */
  lemma HarmfulPoint(k: Catalog, t: Tree, t': Tree, mem: Ledger, retention: int, repository: string, ps: PolicyState,
                     p: Package, io: StoreIO)
    returns (u: Tree)
    requires GoodCatalog(k) && FaithfulLedger(k, mem) && FaithfulEntry(k, repository, ps) && IsRelease(k, repository, p)
    requires Backed(t, ps)
    requires StoreStep(t, t', Some(mem), retention, p.config, p.content, io)
    requires LostMeanwhile(t, mem, retention, repository, ps, p, io)
    ensures Passes(t, u, t', p.config, p.content, io) && !Backed(u, ps)
  {
    if ps.version == p.config.version {
      assert GoodRelease(k, repository, p.config.version);
      TmpNamesAreHidden(io.tmpSuffix);
      u := t[Temp(p.config, io) := Bundle(p.config, p.content)] - {Final(p.config)};
    } else {
      u := t';
      EvictedIff(k, t, t', mem, retention, repository, ps, p, io);
    }
  }

  /** When it holds, the call is certain to pass through a moment that leaves a saved entry whose version is missing. */
  lemma HarmfulMoment(k: Catalog, c: Setup, w: World, repository: string, requested: string, a: Answers, p: Package,
                      w': World, r: SyncResult)
    returns (tree: Tree)
    requires GoodCatalog(k) && Agreed(k, w) && Serves(k, repository, requested, a, p)
    requires CrashDrops(c, w, repository, requested, a, p)
    requires SyncStep(c, w, repository, requested, a, w', r)
    ensures Passing(w.disk, StoredPackage(c, w, repository, requested, a, r), a.io, tree, w'.disk)
    ensures SyncMoment(w, StoredPackage(c, w, repository, requested, a, r), a.io, tree, w.saved, w')
    ensures repository in w.saved && !Backed(tree, w.saved[repository])
  {
    CallCases(k, c, w, repository, requested, a, p, w', r);
    StoredOverIff(k, c, w, repository, requested, a, p);
    var mem := AtStore(c, w, repository, requested, a).mem;
    tree := HarmfulPoint(k, w.disk, w'.disk, mem, c.retention, repository, w.saved[repository], p, a.io);
    PassesArePoints(w.disk, tree, w'.disk, Some(mem), c.retention, p.config, p.content, a.io);
  }

  /** Every moment of the call leaves saved entries that are backed. */
  ghost predicate AllMomentsBacked(w: World, answer: CopyAnswer, io: StoreIO, w': World) {
    forall tree, saved :: SyncMoment(w, answer, io, tree, saved, w') ==> AllBacked(tree, saved)
  }

  /**
   * A crash at whatever moment of a call leaves saved entries that agree with the disk, exactly unless the condition
   * holds. If it holds, there is a harmful one among the moments the call is certain to pass through.
   */
  lemma CrashKeepsAgreedIff(k: Catalog, c: Setup, w: World, repository: string, requested: string, a: Answers,
                            p: Package, w': World, r: SyncResult)
    requires GoodCatalog(k) && Agreed(k, w) && Serves(k, repository, requested, a, p)
    requires SyncStep(c, w, repository, requested, a, w', r)
    ensures AllMomentsBacked(w, StoredPackage(c, w, repository, requested, a, r), a.io, w')
      <==> !CrashDrops(c, w, repository, requested, a, p)
    ensures CrashDrops(c, w, repository, requested, a, p) ==>
              exists tree :: Passing(w.disk, StoredPackage(c, w, repository, requested, a, r), a.io, tree, w'.disk)
                  && !AllBacked(tree, w.saved)
  {
    if CrashDrops(c, w, repository, requested, a, p) {
      var tree := HarmfulMoment(k, c, w, repository, requested, a, p, w', r);
      assert !AllBacked(tree, w.saved);
    } else {
      forall tree, saved | SyncMoment(w, StoredPackage(c, w, repository, requested, a, r), a.io, tree, saved, w')
        ensures AllBacked(tree, saved)
      {
        HarmlessMoment(k, c, w, repository, requested, a, p, w', r, tree, saved);
      }
    }
  }

  // ---------- Where memory is as saved ----------

  /** Agreed, and nothing in memory waits to be saved: what every process starts from. */
  ghost predicate Settled(k: Catalog, w: World) {
    Agreed(k, w) && w.mem == w.saved
  }

  /** The active version is another one than is stored, and eviction will remove it. */
  predicate ActiveGoes(c: Setup, w: World, repository: string, requested: string, a: Answers, p: Package) {
    && EntersStore(c, w, repository, requested, a) && StoreOk(w.disk, p.config, a.io)
    && repository in w.mem && w.mem[repository].evaluatorId == p.config.evaluatorId
        && w.mem[repository].version != p.config.version
    && a.io.listable && w.mem[repository].version !in a.io.stuck
    && (c.retention <= 1 || UnsavedHit(c, w, repository, requested, a))
  }

  /**
   * From a settled world no call replaces the active version, unless after an unsaved hit. So a failed final rename can
   * only hurt after an unsaved hit; a crash, or a failed save, only where the active version goes.
   */
  lemma SettledConditions(k: Catalog, c: Setup, w: World, repository: string, requested: string, a: Answers, p: Package)
    requires GoodCatalog(k) && Settled(k, w) && Serves(k, repository, requested, a, p)
    ensures CrashDrops(c, w, repository, requested, a, p) <==> ActiveGoes(c, w, repository, requested, a, p)
    ensures DropsSaved(c, w, repository, requested, a, p)
        <==> ActiveGoes(c, w, repository, requested, a, p) && !a.saveFetch
    ensures UnsavedHit(c, w, repository, requested, a) ==> !a.saveHit
  {
    if EntersStore(c, w, repository, requested, a) && repository in w.mem {
      assert FaithfulEntry(k, repository, w.mem[repository]);
      StoredOverIff(k, c, w, repository, requested, a, p);
      if UnsavedHit(c, w, repository, requested, a) {
        HitKeepsBacked(k, c, w, repository, requested, a, p);
        HitChangesVersion(c, w, repository, requested, a);
      }
    }
  }

  lemma HitChangesVersion(c: Setup, w: World, repository: string, requested: string, a: Answers)
    requires UnsavedHit(c, w, repository, requested, a)
    ensures repository in w.mem
    ensures AtStore(c, w, repository, requested, a).mem[repository].version != w.mem[repository].version
  {
  }

  /** With working saves every call, whatever else fails, leads from settled to settled. */
  lemma SavingKeepsSettled(k: Catalog, c: Setup, w: World, repository: string, requested: string, a: Answers,
                           p: Package, w': World, r: SyncResult)
    requires GoodCatalog(k) && Settled(k, w) && Serves(k, repository, requested, a, p) && a.saveHit && a.saveFetch
    requires SyncStep(c, w, repository, requested, a, w', r)
    ensures Settled(k, w')
  {
    SettledConditions(k, c, w, repository, requested, a, p);
    SyncKeepsAgreedIff(k, c, w, repository, requested, a, p, w', r);
    CallCases(k, c, w, repository, requested, a, p, w', r);
    SavedTogether(c, w, repository, requested, a, w', r);
  }

  lemma SavedTogether(c: Setup, w: World, repository: string, requested: string, a: Answers, w': World, r: SyncResult)
    requires SyncStep(c, w, repository, requested, a, w', r) && w.mem == w.saved && a.saveHit && a.saveFetch
    ensures w'.mem == w'.saved
  {
  }
}
