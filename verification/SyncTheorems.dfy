/** What every single sync guarantees, from any world, however inconsistent. */
module SyncTheorems {
  import opened Naming
  import opened Storage
  import opened SyncState
  import opened Cache
  import opened CacheTheorems
  import opened Sync

  /** A successful Store leaves its target complete, whatever eviction managed to remove. */
  lemma StoredTarget(t: Tree, t': Tree, state: Option<Ledger>, retention: int, config: Config, content: string,
                     io: StoreIO)
    requires StoreStep(t, t', state, retention, config, content, io) && StoreOk(t, config, io)
    ensures Final(config) in t' && t'[Final(config)] == Bundle(config, content)
    ensures Holds(t', Slot(config.evaluatorId, config.version), content, config)
    ensures Shrunk(t[Final(config) := Bundle(config, content)], t', config.evaluatorId, config.version)
  {
    var t1 := t[Final(config) := Bundle(config, content)];
    EvictionShrinks(t1, t', config.evaluatorId, config.version, state, retention, io);
    assert SameAt(t1, t', Final(config));
  }

  lemma EvictionShrinks(t: Tree, t': Tree, evaluatorId: string, target: string, state: Option<Ledger>, retention: int,
                        io: StoreIO)
    requires Evicted(t, t', evaluatorId, target, state, retention, io)
    ensures Shrunk(t, t', evaluatorId, target)
  {
    if io.listable {
      var candidates := Candidates(t, evaluatorId, target);
      var tracked := Tracked(candidates, state, evaluatorId);
      var kept :| Keeps(tracked, state, evaluatorId, retention, kept)
          && t' == Without(t, evaluatorId, candidates - kept - io.stuck);
      RemovalShrinks(t, evaluatorId, target, candidates - kept - io.stuck);
    }
  }

  /** Every result of Store is itself a moment of Store. */
  lemma StoreEndsAtPoint(t: Tree, t': Tree, state: Option<Ledger>, retention: int, config: Config, content: string,
                         io: StoreIO)
    requires StoreStep(t, t', state, retention, config, content, io)
    ensures StorePoint(t, t', t', config, content, io)
  {
    if StoreOk(t, config, io) {
      StoredTarget(t, t', state, retention, config, content, io);
    } else {
      forall s | s != Temp(config, io)
        ensures SameAt(t, t', s) || (s == Final(config) && s !in t' && Replaces(t, config, io))
      {
      }
    }
  }

  /** Outside the stored evaluator nothing changes. */
  lemma StoreFrame(t: Tree, t': Tree, state: Option<Ledger>, retention: int, config: Config, content: string,
                   io: StoreIO)
    requires StoreStep(t, t', state, retention, config, content, io)
    ensures forall s: Slot :: s.evaluator != config.evaluatorId ==> SameAt(t, t', s)
  {
    StoreEndsAtPoint(t, t', state, retention, config, content, io);
  }

  /** The verdict recorded with an entry was given for this reference in this call. */
  ghost predicate ApprovedNow(c: Setup, reference: string, a: Answers, entry: PolicyState) {
    if c.verifying then
      || a.verifyHit(reference, c.insecure) == Approved(entry.verification)
      || a.verifyFetch(reference, c.insecure) == Approved(entry.verification)
    else entry.verification == UNVERIFIED
  }

  /** The reference approved in this call, written out: host, slash, repository, and the pin that was asked for. */
  ghost predicate ApprovedQualified(c: Setup, repository: string, version: string, a: Answers, entry: PolicyState) {
    && (version in {"", "latest"} ==> ApprovedNow(c, c.host + "/" + repository, a, entry))
    && (ParsesAsDigest(version) ==> ApprovedNow(c, c.host + "/" + repository + "@" + version, a, entry))
    && (version !in {"", "latest"} && !ParsesAsDigest(version) ==>
          ApprovedNow(c, c.host + "/" + repository + ":" + version, a, entry))
  }

  /**
   * Self-healing: from any world, "fetched" means the entry holds the remote digest and names a version that is
   * complete on disk, the saved entries equal those in memory, and a configured verifier approved the
   * host-qualified reference of the requested version in this call.
   */
  lemma SelfHealing(c: Setup, w: World, repository: string, version: string, a: Answers, w': World)
    requires SyncStep(c, w, repository, version, a, w', Synced(true))
    ensures repository in w'.mem && w'.saved == w'.mem
    ensures var entry := w'.mem[repository];
            && a.definition(ReferenceFor("", repository, version)).Some?
            && entry.digest == a.definition(ReferenceFor("", repository, version)).value.0
            && ValidDigest(entry.digest)
            && LookupVersion(w'.disk, entry.evaluatorId, entry.version).Hit?
            && (c.verifying ==> c.host != "")
            && ApprovedNow(c, ReferenceFor(c.host, repository, version), a, entry)
    ensures c.verifying && c.host[|c.host| - 1] != '/' ==>
              ApprovedQualified(c, repository, version, a, w'.mem[repository])
  {
    if c.host != "" && c.host[|c.host| - 1] != '/' {
      ReferenceIsHostQualified(c.host, repository, version);
    }
    var remote := a.definition(ReferenceFor("", repository, version)).value;
    var target := ResolveVersion(version, remote.1);
    var reference := ReferenceFor(c.host, repository, version);
    if !(ServesFromCache(c, w, repository, target, remote.0, reference, a) && a.saveHit) {
      var w0 := if ServesFromCache(c, w, repository, target, remote.0, reference, a)
                then AfterHit(c, w, repository, target, remote.0, reference, a) else w;
      assert FetchStep(c, w0, repository, target, remote.0, reference, a, w', Synced(true));
      var package := a.copy(repository, target);
      StoredTarget(w0.disk, w'.disk, Some(w0.mem), c.retention, package.config, package.content, a.io);
    }
  }

  /** Where the entry's version is complete and its evaluator has one owner, the presence check must say yes. */
  lemma PresentForSure(t: Tree, led: Ledger, scannable: bool, repository: string)
    requires repository in led && SoleOwner(led, led[repository].evaluatorId, repository)
    requires LookupVersion(t, led[repository].evaluatorId, led[repository].version).Hit?
    ensures MayExist(t, led, scannable, led[repository]) && !MayBeMissing(t, led, scannable, led[repository])
  {
    var ps := led[repository];
    var hit := LookupVersion(t, ps.evaluatorId, ps.version);
    assert ActiveOnDisk(t, led, ps.evaluatorId, ps.version);
    assert LookupAnswer(t, Some(led), scannable, ps.evaluatorId, hit);
    forall r | LookupAnswer(t, Some(led), scannable, ps.evaluatorId, r) ensures r.Hit? {
      LookupFindsActive(t, led, scannable, ps.evaluatorId, repository, r);
    }
  }

  /**
   * Fixpoint and offline service: after "fetched" with a single owner, every repetition with the same remote digest,
   * or with the registry unreachable, is a skip that changes nothing.
   */
  lemma RepeatIsSkip(c: Setup, w: World, repository: string, version: string, a: Answers, w1: World,
                     version2: string, a2: Answers, w2: World, r2: SyncResult)
    requires SyncStep(c, w, repository, version, a, w1, Synced(true))
    requires SoleOwner(w1.mem, w1.mem[repository].evaluatorId, repository)
    requires SyncStep(c, w1, repository, version2, a2, w2, r2)
    requires var d := a2.definition(ReferenceFor("", repository, version2));
             d.None? || d.value.0 == a.definition(ReferenceFor("", repository, version)).value.0
    ensures r2 == Synced(false) && w2 == w1
  {
    SelfHealing(c, w, repository, version, a, w1);
    PresentForSure(w1.disk, w1.mem, a2.scannable, repository);
  }

  /** The two guards before the registry is asked are passed. */
  predicate ReachesLookup(c: Setup, repository: string) {
    repository != "" && (c.verifying ==> c.host != "")
  }

  /**
   * Two repositories that share an evaluator are never answered by a skip: the presence check cannot succeed for them.
   * With an unreachable registry their sync fails; with an unchanged one it is a cache hit at best.
   */
  lemma SharedEvaluatorNeverSkips(c: Setup, w: World, repository: string, version: string, a: Answers, w': World,
                                  r: SyncResult)
    requires SyncStep(c, w, repository, version, a, w', r)
    requires repository in w.mem && Shared(w.mem, w.mem[repository].evaluatorId)
    ensures r != Synced(false)
    ensures ReachesLookup(c, repository) && a.definition(ReferenceFor("", repository, version)).None?
        ==> r == Fail(Unreachable)
  {
    var ps := w.mem[repository];
    assert forall l: LookupResult ::
        LookupAnswer(w.disk, Some(w.mem), a.scannable, ps.evaluatorId, l) ==> l == LookupResult.Failed;
  }

  /** Errors raised before Store is entered. */
  predicate BeforeStore(e: Error) {
    e !in {StoreError, BadDigest, SaveError}
  }

  /** A cache hit was recorded in memory but could not be saved. */
  predicate UnsavedHit(c: Setup, w: World, repository: string, version: string, a: Answers) {
    && a.definition(ReferenceFor("", repository, version)).Some?
    && var remote := a.definition(ReferenceFor("", repository, version)).value;
    && ServesFromCache(c, w, repository, ResolveVersion(version, remote.1), remote.0,
                       ReferenceFor(c.host, repository, version), a)
    && !a.saveHit
  }

  lemma FetchFailure(c: Setup, w: World, repository: string, version: string, digest: string, reference: string,
                     a: Answers, w': World, e: Error)
    requires FetchStep(c, w, repository, version, digest, reference, a, w', Fail(e)) && BeforeStore(e)
    ensures w' == w && e in {VerificationFailed, TempStore, CopyError, UnpackError}
  {
  }

  /**
   * Failure frame: an error before Store leaves the disk and the saved entries as they were, and the memory too
   * except that a cache hit recorded without being saved stays recorded.
   */
  lemma FailureFrame(c: Setup, w: World, repository: string, version: string, a: Answers, w': World, e: Error)
    requires SyncStep(c, w, repository, version, a, w', Fail(e)) && BeforeStore(e)
    ensures w'.disk == w.disk && w'.saved == w.saved
    ensures e in {EmptyRepository, HostRequired, Unreachable} ==> w'.mem == w.mem
    ensures e !in {EmptyRepository, HostRequired, Unreachable}
        ==> (w'.mem != w.mem <==> UnsavedHit(c, w, repository, version, a))
  {
    if repository != "" && !(c.verifying && c.host == "") && a.definition(ReferenceFor("", repository, version)).Some? {
      var remote := a.definition(ReferenceFor("", repository, version)).value;
      var target := ResolveVersion(version, remote.1);
      var reference := ReferenceFor(c.host, repository, version);
      if ServesFromCache(c, w, repository, target, remote.0, reference, a) {
        var hit := AfterHit(c, w, repository, target, remote.0, reference, a);
        FetchFailure(c, hit, repository, target, remote.0, reference, a, w', e);
        assert hit.mem[repository].version != w.mem[repository].version;
      } else {
        FetchFailure(c, w, repository, target, remote.0, reference, a, w', e);
      }
    }
  }

  /** Two trees differ only below the evaluator of the package handed out. */
  ghost predicate OneEvaluatorTouched(t: Tree, t': Tree, answer: CopyAnswer) {
    answer.Unpacked? && SameElsewhere(t, t', answer.config.evaluatorId)
  }

  ghost predicate SameElsewhere(t: Tree, t': Tree, evaluatorId: string) {
    forall s: Slot :: s.evaluator != evaluatorId ==> SameAt(t, t', s)
  }

  /** The entry after a cache hit: the target under the recorded evaluator, on a disk left as it was. */
  ghost predicate HitRecorded(w: World, repository: string, target: string, digest: string, a: Answers, w': World) {
    && w'.disk == w.disk && repository in w.mem && repository in w'.mem
    && w'.mem[repository]
       == PolicyState(target, digest, w.mem[repository].evaluatorId, a.nowHit, w'.mem[repository].verification)
    && exists content, config :: Holds(w.disk, Slot(w.mem[repository].evaluatorId, target), content, config)
  }

  /** The entry after a fetch: what the package for the target says of itself, and that package on disk. */
  ghost predicate FetchRecorded(repository: string, target: string, digest: string, a: Answers, w': World) {
    && a.copy(repository, target).Unpacked? && repository in w'.mem
    && var config := a.copy(repository, target).config;
    && w'.mem[repository]
       == PolicyState(config.version, digest, config.evaluatorId, a.nowFetch, w'.mem[repository].verification)
    && Holds(w'.disk, Slot(config.evaluatorId, config.version), a.copy(repository, target).content, config)
  }

  /** What "fetched" records: the version asked for or, for none or "latest", the one the registry names. */
  lemma RecordedAfterSync(c: Setup, w: World, repository: string, version: string, a: Answers, w': World)
    requires SyncStep(c, w, repository, version, a, w', Synced(true))
    ensures a.definition(ReferenceFor("", repository, version)).Some?
    ensures var (digest, latest) := a.definition(ReferenceFor("", repository, version)).value;
            var target := if version in {"", "latest"} then latest else version;
            HitRecorded(w, repository, target, digest, a, w') || FetchRecorded(repository, target, digest, a, w')
    ensures !c.verifying ==> w'.mem[repository].verification == VerificationResult(false, "", "", 0)
  {
    var remote := a.definition(ReferenceFor("", repository, version)).value;
    var target := ResolveVersion(version, remote.1);
    var reference := ReferenceFor(c.host, repository, version);
    if ServesFromCache(c, w, repository, target, remote.0, reference, a) && a.saveHit {
      var s := Slot(w.mem[repository].evaluatorId, target);
      assert Holds(w.disk, s, w.disk[s].content.value, w.disk[s].config.config);
    } else {
      var w0 := if ServesFromCache(c, w, repository, target, remote.0, reference, a)
                then AfterHit(c, w, repository, target, remote.0, reference, a) else w;
      assert FetchStep(c, w0, repository, target, remote.0, reference, a, w', Synced(true));
      var package := a.copy(repository, target);
      StoredTarget(w0.disk, w'.disk, Some(w0.mem), c.retention, package.config, package.content, a.io);
    }
  }

  /** In every outcome only this repository's entry and the unpacked package's evaluator directory can differ. */
  lemma OutcomeFrame(c: Setup, w: World, repository: string, version: string, a: Answers, w': World, r: SyncResult)
    requires SyncStep(c, w, repository, version, a, w', r)
    ensures forall other :: other != repository ==> (other in w'.mem <==> other in w.mem)
    ensures forall other :: other != repository && other in w.mem ==> w'.mem[other] == w.mem[other]
    ensures w'.saved == w.saved || w'.saved == w'.mem
    ensures w'.disk == w.disk || OneEvaluatorTouched(w.disk, w'.disk, Handed(repository, version, a))
  {
    if w'.disk != w.disk {
      var remote := a.definition(ReferenceFor("", repository, version)).value;
      var target := ResolveVersion(version, remote.1);
      var reference := ReferenceFor(c.host, repository, version);
      var w0 := if ServesFromCache(c, w, repository, target, remote.0, reference, a)
                then AfterHit(c, w, repository, target, remote.0, reference, a) else w;
      assert FetchStep(c, w0, repository, target, remote.0, reference, a, w', r);
      var package := a.copy(repository, target);
      StoreFrame(w0.disk, w'.disk, Some(w0.mem), c.retention, package.config, package.content, a.io);
      assert SameElsewhere(w.disk, w'.disk, package.config.evaluatorId);
    }
  }
}
