/** Incremental synchronization of one complypack repository. */
module Sync {
  import opened Naming
  import opened Storage
  import opened SyncState
  import opened Cache

  datatype Verdict = Rejected | Approved(result: VerificationResult)

  datatype CopyAnswer = CopyFails | UnpackFails | Unpacked(config: Config, content: string)

  /** Everything the outside answers during one call: registry, verifier, clock and I/O. */
  datatype Answers = Answers(
    definition: string -> Option<(string, string)>,
    verifyHit: (string, bool) -> Verdict,
    verifyFetch: (string, bool) -> Verdict,
    tmpStoreOk: bool,
    copy: (string, string) -> CopyAnswer,
    io: StoreIO,
    saveHit: bool, saveFetch: bool,
    nowHit: int, nowFetch: int,
    scannable: bool)

  /** Fixed at construction: whether signatures are verified, where, and how many versions to keep. */
  datatype Setup = Setup(verifying: bool, host: string, insecure: bool, retention: int)

  datatype Error = EmptyRepository | HostRequired | Unreachable | VerificationFailed
                 | TempStore | CopyError | UnpackError
                 | StoreError | BadDigest | SaveError

  datatype SyncResult = Synced(fetched: bool) | Fail(error: Error)

  /** Disk, in-memory entries and the entries last saved to state.json. */
  datatype World = World(disk: Tree, mem: Ledger, saved: Ledger)

  function SavedEntries(file: Option<Snapshot>): Ledger {
    if file.None? then map[] else file.value.complypacks
  }

  /** cacheExistsForState may answer yes. */
  ghost predicate MayExist(t: Tree, led: Ledger, scannable: bool, ps: PolicyState) {
    ps.evaluatorId != "" && exists r: LookupResult :: r.Hit? && LookupAnswer(t, Some(led), scannable, ps.evaluatorId, r)
  }

  /** cacheExistsForState may answer no. */
  ghost predicate MayBeMissing(t: Tree, led: Ledger, scannable: bool, ps: PolicyState) {
    ps.evaluatorId == ""
    || exists r: LookupResult :: !r.Hit? && LookupAnswer(t, Some(led), scannable, ps.evaluatorId, r)
  }

  function ResolveVersion(version: string, remoteVersion: string): string {
    if version == "" || version == "latest" then remoteVersion else version
  }

  function NewEntry(version: string, digest: string, evaluatorId: string, now: int,
                    verification: Option<VerificationResult>): PolicyState {
    PolicyState(version, digest, evaluatorId, now, if verification.Some? then verification.value else UNVERIFIED)
  }

  function ResultOf(verifying: bool, v: Verdict): Option<VerificationResult> {
    if verifying && v.Approved? then Some(v.result) else None
  }

  /** Verify, copy, unpack, store, record, save. */
  ghost predicate FetchStep(c: Setup, w: World, repository: string, version: string, digest: string, reference: string,
                            a: Answers, w': World, r: SyncResult) {
    var verdict := a.verifyFetch(reference, c.insecure);
    if c.verifying && verdict.Rejected? then w' == w && r == Fail(VerificationFailed)
    else if !a.tmpStoreOk then w' == w && r == Fail(TempStore)
    else match a.copy(repository, version)
      case CopyFails => w' == w && r == Fail(CopyError)
      case UnpackFails => w' == w && r == Fail(UnpackError)
      case Unpacked(config, content) =>
        && StoreStep(w.disk, w'.disk, Some(w.mem), c.retention, config, content, a.io)
        && if !StoreOk(w.disk, config, a.io) then w'.mem == w.mem && w'.saved == w.saved && r == Fail(StoreError)
           else if !ValidDigest(digest) then w'.mem == w.mem && w'.saved == w.saved && r == Fail(BadDigest)
           else
             && w'.mem == w.mem[repository :=
                                NewEntry(config.version, digest, config.evaluatorId, a.nowFetch,
                                         ResultOf(c.verifying, verdict))]
             && if a.saveFetch then w'.saved == w'.mem && r == Synced(true)
                else w'.saved == w.saved && r == Fail(SaveError)
  }

  /** The requested version is already on disk for the recorded evaluator and nothing speaks against serving it. */
  predicate ServesFromCache(c: Setup, w: World, repository: string, version: string, digest: string,
                            reference: string, a: Answers) {
    && repository in w.mem && w.mem[repository].evaluatorId != "" && w.mem[repository].version != version
    && LookupVersion(w.disk, w.mem[repository].evaluatorId, version).Hit?
    && (c.verifying ==> a.verifyHit(reference, c.insecure).Approved?)
    && ValidDigest(digest)
  }

  /** The state after recording a cache hit. */
  function AfterHit(c: Setup, w: World, repository: string, version: string, digest: string, reference: string,
                    a: Answers): World
    requires repository in w.mem
  {
    var verdict := a.verifyHit(reference, c.insecure);
    w.(mem := w.mem[repository :=
                    NewEntry(version, digest, w.mem[repository].evaluatorId, a.nowHit, ResultOf(c.verifying, verdict))])
  }

  /** Neither offline nor skipped: cache hit, else fetch. A hit that cannot be saved falls through to the fetch. */
  ghost predicate RefreshStep(c: Setup, w: World, repository: string, version: string, digest: string,
                              reference: string,
                              a: Answers, w': World, r: SyncResult) {
    if ServesFromCache(c, w, repository, version, digest, reference, a) then
      var hit := AfterHit(c, w, repository, version, digest, reference, a);
      if a.saveHit then w' == hit.(saved := hit.mem) && r == Synced(true)
      else FetchStep(c, hit, repository, version, digest, reference, a, w', r)
    else FetchStep(c, w, repository, version, digest, reference, a, w', r)
  }

  /** One call of SyncComplypack. */
  ghost predicate SyncStep(c: Setup, w: World, repository: string, version: string, a: Answers, w': World,
                           r: SyncResult) {
    if repository == "" then w' == w && r == Fail(EmptyRepository)
    else if c.verifying && c.host == "" then w' == w && r == Fail(HostRequired)
    else match a.definition(ReferenceFor("", repository, version))
      case None =>
        && w' == w && (r == Synced(false) || r == Fail(Unreachable))
        && (r == Synced(false) ==> repository in w.mem && MayExist(w.disk, w.mem, a.scannable, w.mem[repository]))
        && (r != Synced(false) && repository in w.mem ==> MayBeMissing(w.disk, w.mem, a.scannable, w.mem[repository]))
      case Some(remote) =>
        var reference := ReferenceFor(c.host, repository, version);
        var target := ResolveVersion(version, remote.1);
        if r == Synced(false) then
          w' == w && repository in w.mem && w.mem[repository].digest == remote.0
              && MayExist(w.disk, w.mem, a.scannable, w.mem[repository])
        else
          && (repository in w.mem && w.mem[repository].digest == remote.0
              ==> MayBeMissing(w.disk, w.mem, a.scannable, w.mem[repository]))
          && RefreshStep(c, w, repository, target, remote.0, reference, a, w', r)
  }

  /** What the registry hands out if this request is fetched. */
  function Handed(repository: string, requested: string, a: Answers): CopyAnswer {
    match a.definition(ReferenceFor("", repository, requested))
    case None => CopyFails
    case Some(remote) => a.copy(repository, ResolveVersion(requested, remote.1))
  }

  /** A package handed out has a directory of its own. */
  predicate OwnDirectory(answer: CopyAnswer) {
    answer.Unpacked? ==> answer.config.evaluatorId != "." && answer.config.version != "."
  }

  /** What a fetch hands to Store; failed when it stops before. */
  function FetchedPackage(c: Setup, repository: string, version: string, reference: string, a: Answers): CopyAnswer {
    if (c.verifying && a.verifyFetch(reference, c.insecure).Rejected?) || !a.tmpStoreOk then CopyFails
    else a.copy(repository, version)
  }

  function RefreshedPackage(c: Setup, w: World, repository: string, version: string, digest: string,
                            reference: string, a: Answers): CopyAnswer {
    if ServesFromCache(c, w, repository, version, digest, reference, a) && a.saveHit then CopyFails
    else FetchedPackage(c, repository, version, reference, a)
  }

  /** What a call that ends with r hands to Store; failed when it does not get there. */
  function StoredPackage(c: Setup, w: World, repository: string, requested: string, a: Answers,
                         r: SyncResult): CopyAnswer {
    var remote := a.definition(ReferenceFor("", repository, requested));
    if repository == "" || (c.verifying && c.host == "") || remote.None? || r == Synced(false) then CopyFails
    else RefreshedPackage(c, w, repository, ResolveVersion(requested, remote.value.1), remote.value.0,
                          ReferenceFor(c.host, repository, requested), a)
  }

  /** The package handed out is being stored, on the way from t to t'. */
  ghost predicate Storing(t: Tree, answer: CopyAnswer, io: StoreIO, u: Tree, t': Tree) {
    answer.Unpacked? && StorePoint(t, u, t', answer.config, answer.content, io)
  }

  /** The trees a call that stores this package is certain to pass through before its save. */
  ghost predicate Passing(t: Tree, answer: CopyAnswer, io: StoreIO, u: Tree, t': Tree) {
    answer.Unpacked? && Passes(t, u, t', answer.config, answer.content, io)
  }

  /**
   * What a crash during the call from w to w' may leave: the tree and the saved entries of some moment. Until the one
   * save, which comes last, the saved entries are the old ones and the tree is old or at a point of the one Store.
   */
  ghost predicate SyncMoment(w: World, answer: CopyAnswer, io: StoreIO, tree: Tree, saved: Ledger, w': World) {
    || (saved == w.saved && (tree == w.disk || Storing(w.disk, answer, io, tree, w'.disk)))
    || (saved == w'.saved == w'.mem && tree == w'.disk)
  }

  ghost predicate OnlySynced(m: set<Durable>, m': set<Durable>, w: World, answer: CopyAnswer, io: StoreIO, w': World) {
    m <= m' && forall d :: d in m' && d !in m ==> SyncMoment(w, answer, io, d.tree, SavedEntries(d.file), w')
  }

  class ComplypackSync {
    const cache: ComplypackCache
    const state: State
    const store: Disk
    const setup: Setup

    /** One state and one store shared with the cache, as the get command builds them. */
    ghost predicate Valid() {
      cache.state == state && cache.store == store && cache.retentionCount == setup.retention
    }

    constructor (cache: ComplypackCache, state: State, verifying: bool, registryHost: string)
      requires cache.state == state
      ensures Valid() && this.cache == cache && this.state == state
      ensures setup == Setup(verifying, NormalizeHost(registryHost), "http://" <= registryHost, cache.retentionCount)
    {
      this.cache, this.state, this.store := cache, state, cache.store;
      this.setup := Setup(verifying, NormalizeHost(registryHost), "http://" <= registryHost, cache.retentionCount);
    }

    ghost function View(): World
      reads state, store
    {
      World(store.tree, state.complypacks, SavedEntries(store.file))
    }

    method CacheExistsForState(ps: PolicyState, scannable: bool) returns (exist: bool)
      requires Valid()
      ensures exist ==> MayExist(store.tree, state.complypacks, scannable, ps)
      ensures !exist ==> MayBeMissing(store.tree, state.complypacks, scannable, ps)
    {
      if ps.evaluatorId == "" {
        return false;
      }
      var r := cache.LookupByEvaluatorID(ps.evaluatorId, scannable);
      return r.Hit?;
    }

    method TryLocalCacheHit(repository: string, version: string, digest: string, reference: string, a: Answers)
        returns (hit: bool)
      requires Valid() && repository in state.complypacks
      requires state.complypacks[repository].evaluatorId != "" && state.complypacks[repository].version != version
      modifies state, store
      ensures store.tree == old(store.tree) && state.policies == old(state.policies)
      ensures var w := old(View());
              if ServesFromCache(setup, w, repository, version, digest, reference, a) then
                var after := AfterHit(setup, w, repository, version, digest, reference, a);
                hit == a.saveHit && View() == if hit then after.(saved := after.mem) else after
              else !hit && View() == w
      ensures hit ==> store.file == Some(state.Contents())
      ensures hit ==> store.moments == old(store.moments) + {Durable(store.tree, store.file)}
      ensures !hit ==> store.file == old(store.file) && store.moments == old(store.moments)
    {
      var local := state.complypacks[repository];
      var found := LookupVersion(store.tree, local.evaluatorId, version);
      if !found.Hit? {
        return false;
      }
      var verification := None;
      if setup.verifying {
        var verdict := a.verifyHit(reference, setup.insecure);
        if verdict.Rejected? {
          return false;
        }
        verification := Some(verdict.result);
      }
      var updated := state.UpdateComplypack(repository, version, digest, local.evaluatorId, verification, a.nowHit);
      if !updated {
        return false;
      }
      hit := SaveState(state, store, a.saveHit);
    }

    /** The part of SyncComplypack from pre-copy verification on. */
    method Fetch(repository: string, version: string, digest: string, reference: string, a: Answers)
        returns (r: SyncResult)
      requires Valid() && OwnDirectory(a.copy(repository, version))
      modifies state, store
      ensures FetchStep(setup, old(View()), repository, version, digest, reference, a, View(), r) && r != Synced(false)
      ensures state.policies == old(state.policies)
      ensures r == Synced(true) ==> store.file == Some(state.Contents())
      ensures r != Synced(true) ==> store.file == old(store.file)
      ensures OnlySynced(old(store.moments), store.moments, old(View()),
                         FetchedPackage(setup, repository, version, reference, a), a.io, View())
      ensures forall u :: Passing(old(store.tree), FetchedPackage(setup, repository, version, reference, a), a.io, u,
                                  store.tree)
                ==> Durable(u, old(store.file)) in store.moments
    {
      var verification := None;
      if setup.verifying {
        var verdict := a.verifyFetch(reference, setup.insecure);
        if verdict.Rejected? {
          return Fail(VerificationFailed);
        }
        verification := Some(verdict.result);
      }
      if !a.tmpStoreOk {
        return Fail(TempStore);
      }
      var package := a.copy(repository, version);
      if package.CopyFails? {
        return Fail(CopyError);
      }
      if package.UnpackFails? {
        return Fail(UnpackError);
      }
      var stored := cache.Store(package.config, package.content, a.io);
      if !stored {
        return Fail(StoreError);
      }
      var updated := state.UpdateComplypack(repository, package.config.version, digest, package.config.evaluatorId,
                                            verification, a.nowFetch);
      if !updated {
        return Fail(BadDigest);
      }
      var saved := SaveState(state, store, a.saveFetch);
      if !saved {
        return Fail(SaveError);
      }
      return Synced(true);
    }

    /** The part of SyncComplypack from the cache hit check on. */
    method Refresh(repository: string, version: string, digest: string, reference: string, a: Answers)
        returns (r: SyncResult)
      requires Valid() && OwnDirectory(a.copy(repository, version))
      modifies state, store
      ensures RefreshStep(setup, old(View()), repository, version, digest, reference, a, View(), r)
      ensures r != Synced(false)
      ensures state.policies == old(state.policies)
      ensures r == Synced(true) ==> store.file == Some(state.Contents())
      ensures r != Synced(true) ==> store.file == old(store.file)
      ensures OnlySynced(old(store.moments), store.moments, old(View()),
                         RefreshedPackage(setup, old(View()), repository, version, digest, reference, a), a.io, View())
      ensures forall u ::
                Passing(old(store.tree),
                        RefreshedPackage(setup, old(View()), repository, version, digest, reference, a), a.io, u,
                        store.tree)
                ==> Durable(u, old(store.file)) in store.moments
    {
      if repository in state.complypacks {
        var local := state.complypacks[repository];
        if local.evaluatorId != "" && local.version != version {
          var hit := TryLocalCacheHit(repository, version, digest, reference, a);
          if hit {
            return Synced(true);
          }
        }
      }
      r := Fetch(repository, version, digest, reference, a);
    }

    method SyncComplypack(repository: string, requested: string, a: Answers) returns (r: SyncResult)
      requires Valid() && OwnDirectory(Handed(repository, requested, a))
      modifies state, store
      ensures SyncStep(setup, old(View()), repository, requested, a, View(), r)
      ensures state.policies == old(state.policies)
      ensures r == Synced(true) ==> store.file == Some(state.Contents())
      ensures r != Synced(true) ==> store.file == old(store.file)
      ensures OnlySynced(old(store.moments), store.moments, old(View()),
                         StoredPackage(setup, old(View()), repository, requested, a, r), a.io, View())
      ensures forall u :: Passing(old(store.tree), StoredPackage(setup, old(View()), repository, requested, a, r),
                                  a.io, u, store.tree)
                ==> Durable(u, old(store.file)) in store.moments
    {
      if repository == "" {
        return Fail(EmptyRepository);
      }
      if setup.verifying && setup.host == "" {
        return Fail(HostRequired);
      }
      var remote := a.definition(ReferenceFor("", repository, requested));
      if remote.None? {
        if repository in state.complypacks {
          var exist := CacheExistsForState(state.complypacks[repository], a.scannable);
          if exist {
            return Synced(false);
          }
        }
        return Fail(Unreachable);
      }
      var (digest, remoteVersion) := remote.value;
      var version := ResolveVersion(requested, remoteVersion);
      var reference := ReferenceFor(setup.host, repository, requested);
      if repository in state.complypacks {
        var local := state.complypacks[repository];
        if local.digest == digest {
          var exist := CacheExistsForState(local, a.scannable);
          if exist {
            return Synced(false);
          }
        }
      }
      r := Refresh(repository, version, digest, reference, a);
      assert StoredPackage(setup, old(View()), repository, requested, a, r)
          == RefreshedPackage(setup, old(View()), repository, version, digest, reference, a);
    }
  }
}
