/** Freshness of generated artifacts, and its invalidation after a complypack was fetched again. */
module Generation {
  import opened Naming
  import opened Storage
  import opened SyncState
  import opened Cache
  import opened CacheTheorems
  import opened Paths
  import Sync
  import opened Releases

  /** What is recorded at generation time; the digest map may be absent. */
  datatype GenerationState = GenerationState(policyDigest: string, complypackDigests: Option<map<string, string>>,
                                             evaluatorIds: seq<string>)

  function NormalizeNilMap(m: Option<map<string, string>>): map<string, string> {
    if m.None? then map[] else m.value
  }

  predicate IsFresh(g: GenerationState, digest: string, complypackDigests: map<string, string>) {
    g.policyDigest == digest && NormalizeNilMap(g.complypackDigests) == complypackDigests
  }

  /** The evaluator's directory in the workspace holds something. */
  predicate HasArtifacts(files: Files, e: string) {
    exists f :: f in files && Below(JoinedPath([e]), f)
  }

  /** For an ordinary name: some file's path starts with it. */
  lemma HasArtifactsIff(files: Files, e: string)
    requires e !in {"", "."}
    ensures HasArtifacts(files, e) <==> exists f :: f in files && |f| > 1 && f[0] == e
  {
    EvaluatorDir(e);
    forall f | f in files ensures Below([e], f) <==> |f| > 1 && f[0] == e {
      assert |f| > 1 ==> f[..1] == [f[0]];
    }
  }

  method EvaluatorArtifactsExist(files: Files, evaluatorIds: seq<string>) returns (exist: bool)
    ensures exist <==> forall e :: e in evaluatorIds ==> HasArtifacts(files, e)
  {
    for i := 0 to |evaluatorIds|
      invariant forall e :: e in evaluatorIds[..i] ==> HasArtifacts(files, e)
    {
      if !HasArtifacts(files, evaluatorIds[i]) {
        return false;
      }
      assert evaluatorIds[..i + 1] == evaluatorIds[..i] + [evaluatorIds[i]];
    }
    assert evaluatorIds[..|evaluatorIds|] == evaluatorIds;
    return true;
  }

  /** The recorded generation can be used again. */
  ghost predicate Reuses(files: Files, g: Option<GenerationState>, digest: string,
                         complypackDigests: map<string, string>) {
    && g.Some? && IsFresh(g.value, digest, complypackDigests)
    && forall e :: e in g.value.evaluatorIds ==> HasArtifacts(files, e)
  }

  method NeedsRegeneration(files: Files, g: Option<GenerationState>, digest: string,
                           complypackDigests: map<string, string>)
    returns (needed: bool)
    ensures needed <==> !Reuses(files, g, digest, complypackDigests)
  {
    if g.None? || !IsFresh(g.value, digest, complypackDigests) {
      return true;
    }
    var exist := EvaluatorArtifactsExist(files, g.value.evaluatorIds);
    return !exist;
  }

  /** The digests of the cached complypacks by evaluator; with shared evaluators the last entry visited wins. */
  ghost predicate DigestsOf(led: Ledger, digests: map<string, string>) {
    && (forall e :: e in digests <==> e != "" && exists r :: Tracks(led, r, e) && led[r].digest != "")
    && forall e :: e in digests ==> exists r :: Tracks(led, r, e) && led[r].digest == digests[e] && digests[e] != ""
  }

  method ComplypackDigestsByEvaluator(led: Ledger) returns (digests: map<string, string>)
    ensures DigestsOf(led, digests)
  {
    digests := map[];
    var rest := led.Keys;
    while rest != {}
      invariant rest <= led.Keys
      invariant "" !in digests
      invariant forall r ::
          r in led && r !in rest && led[r].evaluatorId != "" && led[r].digest != "" ==> led[r].evaluatorId in digests
      invariant forall e ::
          e in digests ==> exists r :: Tracks(led, r, e) && led[r].digest == digests[e] && digests[e] != ""
    {
      var r :| r in rest;
      rest := rest - {r};
      if led[r].evaluatorId != "" && led[r].digest != "" {
        assert Tracks(led, r, led[r].evaluatorId);
        digests := digests[led[r].evaluatorId := led[r].digest];
      }
    }
  }

  /** With one owner per evaluator the iteration order does not matter. */
  lemma DigestsAreUnique(led: Ledger, d1: map<string, string>, d2: map<string, string>)
    requires DigestsOf(led, d1) && DigestsOf(led, d2) && forall e :: e != "" ==> !Shared(led, e)
    ensures d1 == d2
  {
    assert d1.Keys == d2.Keys;
    forall e | e in d1 ensures d1[e] == d2[e] {
      var r :| Tracks(led, r, e) && led[r].digest == d1[e];
      var s :| Tracks(led, s, e) && led[s].digest == d2[e];
      assert r != s ==> Shared(led, e);
    }
  }

  function Restricted(all: map<string, string>, available: seq<string>): map<string, string> {
    map e | e in all && e in available :: all[e]
  }

  method FilterComplypackDigests(all: map<string, string>, available: seq<string>)
      returns (filtered: map<string, string>)
    ensures filtered == Restricted(all, available)
  {
    filtered := map[];
    for i := 0 to |available|
      invariant filtered == Restricted(all, available[..i])
    {
      assert available[..i + 1] == available[..i] + [available[i]];
      if available[i] in all {
        filtered := filtered[available[i] := all[available[i]]];
      }
    }
    assert available[..|available|] == available;
  }

  /** Some lookup of e succeeded, with or without a complypack. */
  ghost predicate LookedUp(t: Tree, state: Option<Ledger>, scannable: string -> bool, e: string, hit: bool) {
    exists r: LookupResult :: LookupAnswer(t, state, scannable(e), e, r) && !r.Failed? && r.Hit? == hit
  }

  /** Available are exactly the groups whose lookup gave a complypack. */
  ghost predicate AvailableOf(t: Tree, state: Option<Ledger>, scannable: string -> bool, groups: set<string>,
                              available: seq<string>) {
    && (forall e :: e in available ==> e in groups)
    && forall e :: e in groups ==> LookedUp(t, state, scannable, e, e in available)
  }

  /** The lookup of some group may fail, or a provider does. */
  ghost predicate GenerationMayFail(t: Tree, state: Option<Ledger>, scannable: string -> bool, groups: set<string>,
                                    targets: nat, generates: (string, nat) -> bool) {
    exists e :: e in groups
        && (LookupAnswer(t, state, scannable(e), e, LookupResult.Failed) || !GeneratesAll(generates, e, targets))
  }

  predicate GeneratesAll(generates: (string, nat) -> bool, e: string, targets: nat) {
    forall i :: 0 <= i < targets ==> generates(e, i)
  }

  /** Looks up each group's complypack, in any order, and generates for every target; stops at the first failure. */
  method GenerateForAllTargets(cache: ComplypackCache, scannable: string -> bool, groups: set<string>, targets: nat,
                               generates: (string, nat) -> bool)
    returns (available: Option<seq<string>>)
    ensures available.Some? ==> AvailableOf(cache.store.tree, cache.Known(), scannable, groups, available.value)
    ensures available.Some? ==> forall e :: e in groups ==> GeneratesAll(generates, e, targets)
    ensures available.None?
        ==> GenerationMayFail(cache.store.tree, cache.Known(), scannable, groups, targets, generates)
  {
    var found := [];
    var rest := groups;
    while rest != {}
      invariant rest <= groups
      invariant AvailableOf(cache.store.tree, cache.Known(), scannable, groups - rest, found)
      invariant forall e :: e in groups - rest ==> GeneratesAll(generates, e, targets)
    {
      var e :| e in rest;
      var r := cache.LookupByEvaluatorID(e, scannable(e));
      if r.Failed? {
        return None;
      }
      assert LookedUp(cache.store.tree, cache.Known(), scannable, e, r.Hit?);
      if r.Hit? {
        found := found + [e];
      }
      var generated := GenerateForTargets(e, targets, generates);
      if !generated {
        return None;
      }
      rest := rest - {e};
    }
    assert groups - rest == groups;
    return Some(found);
  }

  method GenerateForTargets(e: string, targets: nat, generates: (string, nat) -> bool) returns (ok: bool)
    ensures ok == GeneratesAll(generates, e, targets)
  {
    for i := 0 to targets
      invariant GeneratesAll(generates, e, i)
    {
      if !generates(e, i) {
        return false;
      }
    }
    return true;
  }

  method RunGeneration(cache: ComplypackCache, scannable: string -> bool, groups: set<string>, targets: nat,
                       generates: (string, nat) -> bool,
                       digest: string, complypackDigests: map<string, string>, evaluatorIds: seq<string>,
                       writable: bool)
    returns (saved: Option<GenerationState>, ghost available: seq<string>)
    ensures saved.Some? ==> writable && AvailableOf(cache.store.tree, cache.Known(), scannable, groups, available)
    ensures saved.Some? ==> saved.value == Recorded(digest, complypackDigests, available, evaluatorIds)
    ensures saved.None? && writable ==>
              GenerationMayFail(cache.store.tree, cache.Known(), scannable, groups, targets, generates)
  {
    available := [];
    var generated := GenerateForAllTargets(cache, scannable, groups, targets, generates);
    if generated.None? || !writable {
      return None, available;
    }
    available := generated.value;
    var filtered := FilterComplypackDigests(complypackDigests, generated.value);
    saved := Some(GenerationState(digest, Some(filtered), evaluatorIds));
  }

  /** What RunGeneration records. */
  function Recorded(digest: string, complypackDigests: map<string, string>, available: seq<string>,
                    evaluatorIds: seq<string>): GenerationState {
    GenerationState(digest, Some(Restricted(complypackDigests, available)), evaluatorIds)
  }

  /**
   * After a successful generation and no change, the next check reuses the artifacts exactly when every evaluator with
   * a cached digest was available during generation and every recorded evaluator's artifact directory is non-empty.
   */
  lemma ReusedIff(files: Files, digest: string, complypackDigests: map<string, string>, available: seq<string>,
                  evaluatorIds: seq<string>)
    ensures Reuses(files, Some(Recorded(digest, complypackDigests, available, evaluatorIds)), digest, complypackDigests)
      <==> (&& (forall e :: e in complypackDigests ==> e in available)
            && (forall e :: e in evaluatorIds ==> HasArtifacts(files, e)))
  {
    if forall e :: e in complypackDigests ==> e in available {
      assert Restricted(complypackDigests, available) == complypackDigests;
    }
    forall e | e in complypackDigests && e !in available
      ensures Restricted(complypackDigests, available) != complypackDigests
    {
      assert e !in Restricted(complypackDigests, available);
    }
  }

  /** Every recorded evaluator has one owner, whose version is complete on disk. */
  ghost predicate OwnedAndBacked(t: Tree, led: Ledger) {
    forall r :: r in led && led[r].evaluatorId != "" ==>
      SoleOwner(led, led[r].evaluatorId, r) && LookupVersion(t, led[r].evaluatorId, led[r].version).Hit?
  }

  /** So it is in every agreed world. */
  lemma AgreedIsOwnedAndBacked(k: Catalog, w: Sync.World)
    requires GoodCatalog(k) && Agreed(k, w)
    ensures OwnedAndBacked(w.disk, w.mem)
  {
    forall r | r in w.mem ensures SoleOwner(w.mem, w.mem[r].evaluatorId, r) && Backed(w.disk, w.mem[r]) {
      OwnerIsSole(k, w.mem, r);
    }
  }

  /**
   * Where state and disk agree, that is a condition on the configuration alone: the artifacts are reused exactly when
   * every cached complypack belongs to an evaluator of this policy. One cached complypack of another policy's
   * evaluator makes every check of this policy regenerate.
   */
  lemma ReusedWhenAgreedIff(t: Tree, led: Ledger, files: Files, digest: string, complypackDigests: map<string, string>,
                            scannable: string -> bool, groups: set<string>, available: seq<string>,
                            evaluatorIds: seq<string>)
    requires OwnedAndBacked(t, led) && DigestsOf(led, complypackDigests)
    requires AvailableOf(t, Some(led), scannable, groups, available)
    ensures Reuses(files, Some(Recorded(digest, complypackDigests, available, evaluatorIds)), digest, complypackDigests)
      <==> (&& (forall e :: e in complypackDigests ==> e in groups)
            && (forall e :: e in evaluatorIds ==> HasArtifacts(files, e)))
  {
    ReusedIff(files, digest, complypackDigests, available, evaluatorIds);
    forall e | e in complypackDigests && e in groups ensures e in available {
      var owner :| Tracks(led, owner, e) && led[owner].digest != "";
      OwnedIsAvailable(t, led, scannable, groups, available, e, owner);
    }
  }

  lemma OwnedIsAvailable(t: Tree, led: Ledger, scannable: string -> bool, groups: set<string>, available: seq<string>,
                         e: string, owner: string)
    requires SoleOwner(led, e, owner) && LookupVersion(t, e, led[owner].version).Hit?
    requires AvailableOf(t, Some(led), scannable, groups, available) && e in groups
    ensures e in available
  {
    assert LookedUp(t, Some(led), scannable, e, e in available);
    var r: LookupResult :| LookupAnswer(t, Some(led), scannable(e), e, r) && !r.Failed? && r.Hit? == (e in available);
    LookupFindsActive(t, led, scannable(e), e, owner, r);
  }

  /** In an agreed world the digest under an evaluator is that of the release its owner records. */
  lemma DigestOfOwner(k: Catalog, w: Sync.World, digests: map<string, string>, e: string, owner: string)
    requires GoodCatalog(k) && Agreed(k, w) && DigestsOf(w.mem, digests) && Tracks(w.mem, owner, e)
    ensures e != "" && e in k.owner && k.owner[e] == owner && SoleOwner(w.mem, e, owner)
    ensures FaithfulEntry(k, owner, w.mem[owner])
    ensures e in digests && digests[e] == w.mem[owner].digest && Backed(w.disk, w.mem[owner])
  {
    assert FaithfulEntry(k, owner, w.mem[owner]) && GoodRelease(k, owner, w.mem[owner].version);
    OwnerIsSole(k, w.mem, owner);
    assert Tracks(w.mem, owner, e) && w.mem[owner].digest != "";
    assert e in digests;
  }

  /**
   * Reuse is sound: when the artifacts generated in one agreed world are reused in another, every evaluator of the
   * policy that is recorded in either is recorded in both, and lookup serves the same release, byte for byte, in both.
   */
  lemma ReuseServesTheSame(k: Catalog, w1: Sync.World, w2: Sync.World, scannable: string -> bool, groups: set<string>,
                           available: seq<string>,
                           digests1: map<string, string>, digests2: map<string, string>, files: Files,
                           digest1: string, digest2: string, evaluatorIds: seq<string>, e: string, owner: string)
    requires GoodCatalog(k) && Agreed(k, w1) && Agreed(k, w2) && DigestsOf(w1.mem, digests1)
    requires DigestsOf(w2.mem, digests2)
    requires AvailableOf(w1.disk, Some(w1.mem), scannable, groups, available)
    requires Reuses(files, Some(Recorded(digest1, digests1, available, evaluatorIds)), digest2, digests2)
    requires e in groups && (Tracks(w1.mem, owner, e) || Tracks(w2.mem, owner, e))
    ensures digest1 == digest2 && Tracks(w1.mem, owner, e) && Tracks(w2.mem, owner, e)
    ensures (owner, w1.mem[owner].version) in k.releases
    ensures var p := k.releases[(owner, w1.mem[owner].version)];
            p.config.evaluatorId == e && Transparent(w1, p) && Transparent(w2, p)
  {
    ReuseSharesOwner(k, w1, w2, scannable, groups, available, digests1, digests2, e, owner);
    DigestOfOwner(k, w1, digests1, e, owner);
    DigestOfOwner(k, w2, digests2, e, owner);
    OneDigestOneRelease(k, owner, w1.mem[owner], w2.mem[owner]);
    BackedIsTransparent(k, w1, owner);
    BackedIsTransparent(k, w2, owner);
  }

  lemma OneDigestOneRelease(k: Catalog, repository: string, ps1: PolicyState, ps2: PolicyState)
    requires GoodCatalog(k) && FaithfulEntry(k, repository, ps1) && FaithfulEntry(k, repository, ps2)
    requires ps1.digest == ps2.digest
    ensures ps1.version == ps2.version
  {
    assert GoodRelease(k, repository, ps1.version) && GoodRelease(k, repository, ps2.version);
  }

  /** A recorded evaluator of the policy was available, so its digest was recorded, and is still the current one. */
  lemma ReuseSharesOwner(k: Catalog, w1: Sync.World, w2: Sync.World, scannable: string -> bool, groups: set<string>,
                         available: seq<string>,
                         digests1: map<string, string>, digests2: map<string, string>, e: string, owner: string)
    requires GoodCatalog(k) && Agreed(k, w1) && Agreed(k, w2) && DigestsOf(w1.mem, digests1)
    requires DigestsOf(w2.mem, digests2)
    requires AvailableOf(w1.disk, Some(w1.mem), scannable, groups, available)
    requires Restricted(digests1, available) == digests2
    requires e in groups && (Tracks(w1.mem, owner, e) || Tracks(w2.mem, owner, e))
    ensures Tracks(w1.mem, owner, e) && Tracks(w2.mem, owner, e) && digests1[e] == digests2[e]
  {
    if Tracks(w2.mem, owner, e) {
      DigestOfOwner(k, w2, digests2, e, owner);
      OwnerOfDigest(k, w1, digests1, e, owner);
    }
    DigestOfOwner(k, w1, digests1, e, owner);
    OwnedIsAvailable(w1.disk, w1.mem, scannable, groups, available, e, owner);
    OwnerOfDigest(k, w2, digests2, e, owner);
  }

  /** A recorded digest is its evaluator's owner's. */
  lemma OwnerOfDigest(k: Catalog, w: Sync.World, digests: map<string, string>, e: string, owner: string)
    requires GoodCatalog(k) && Agreed(k, w) && DigestsOf(w.mem, digests) && e in digests && e in k.owner
    requires k.owner[e] == owner
    ensures Tracks(w.mem, owner, e)
  {
    var other :| Tracks(w.mem, other, e) && w.mem[other].digest != "";
    DigestOfOwner(k, w, digests, e, other);
  }

  // ---------- Invalidation ----------

  /** A file below the generation directory. */
  datatype GenerationFile = Unreadable | Malformed | Holding(state: GenerationState)

  type GenerationDir = map<string, GenerationFile>

  predicate IsJson(path: string) {
    |path| >= 5 && path[|path| - 5..] == ".json"
  }

  predicate Mentions(dir: GenerationDir, path: string, e: string) {
    IsJson(path) && path in dir && dir[path].Holding? && e in dir[path].state.evaluatorIds
  }

  function Invalidated(dir: GenerationDir, e: string): GenerationDir {
    map path | path in dir && !Mentions(dir, path, e) :: dir[path]
  }

  /** The directory can be opened and walked, and every state that names the evaluator can be removed. */
  predicate CanInvalidate(dir: GenerationDir, e: string, opens: bool, blocked: set<string>, stuck: set<string>) {
    opens && blocked == {} && forall path :: path in stuck ==> !Mentions(dir, path, e)
  }

  /** Walks the directory in any order; a path that cannot be walked or a removal that fails stops the walk. */
  method InvalidateForEvaluator(dir: GenerationDir, e: string, opens: bool, blocked: set<string>, stuck: set<string>)
    returns (dir': GenerationDir, skipped: set<string>, ok: bool)
    ensures ok ==> dir' == Invalidated(dir, e)
    ensures ok ==> skipped == set path | path in dir && IsJson(path) && !dir[path].Holding?
    ensures ok <==> CanInvalidate(dir, e, opens, blocked, stuck)
    ensures forall path :: path in dir' ==> path in dir && dir'[path] == dir[path]
    ensures forall path :: path in dir && path !in dir' ==> Mentions(dir, path, e)
  {
    dir', skipped := dir, {};
    if !opens {
      return dir', skipped, false;
    }
    var rest := dir.Keys + blocked;
    while rest != {}
      invariant rest <= dir.Keys + blocked && blocked <= rest
      invariant forall path :: path in dir' <==> path in dir && (path in rest || !Mentions(dir, path, e))
      invariant forall path :: path in dir' ==> dir'[path] == dir[path]
      invariant skipped == set path | path in dir && path !in rest && IsJson(path) && !dir[path].Holding?
      invariant forall path :: path in stuck && path !in rest ==> !Mentions(dir, path, e)
    {
      var path :| path in rest;
      if path in blocked {
        return dir', skipped, false;
      }
      rest := rest - {path};
      if IsJson(path) {
        if !dir[path].Holding? {
          skipped := skipped + {path};
        } else if e in dir[path].state.evaluatorIds {
          if path in stuck {
            return dir', skipped, false;
          }
          dir' := dir' - {path};
        }
      }
    }
    assert dir' == Invalidated(dir, e);
    ok := true;
  }

  /** What LoadGenerationState finds for a policy: its state, nothing, or an error. */
  function Load(dir: GenerationDir, policyId: string): Option<Option<GenerationState>> {
    var path := policyId + ".json";
    if path !in dir then Some(None)
    else if dir[path].Holding? then Some(Some(dir[path].state)) else None
  }

  ghost predicate NamedJson(path: string) {
    exists stem: string :: path == stem + ".json"
  }

  lemma IsJsonIff(path: string)
    ensures IsJson(path) <==> NamedJson(path)
  {
    if IsJson(path) {
      assert path == path[..|path| - 5] + ".json";
    }
    if stem :| path == stem + ".json" {
      assert path[|path| - 5..] == ".json";
    }
  }

  /** What is saved for a policy is what is loaded for it, and for no other; what cannot be read is an error. */
  lemma SavedIsLoaded(dir: GenerationDir, policyId: string, g: GenerationState, other: string)
    ensures Load(dir[policyId + ".json" := Holding(g)], policyId) == Some(Some(g))
    ensures other != policyId ==> Load(dir[policyId + ".json" := Holding(g)], other) == Load(dir, other)
    ensures Load(dir - {policyId + ".json"}, policyId) == Some(None)
    ensures Load(dir[policyId + ".json" := Unreadable], policyId) == None
    ensures Load(dir[policyId + ".json" := Malformed], policyId) == None
  {
    assert (other + ".json")[..|other|] == other && (policyId + ".json")[..|policyId|] == policyId;
  }

  /** A state without digests, as older versions wrote it, is fresh exactly while no complypack is cached. */
  lemma OldStateIsFreshIff(g: GenerationState, digest: string, complypackDigests: map<string, string>)
    requires g.complypackDigests.None?
    ensures IsFresh(g, digest, complypackDigests) <==> g.policyDigest == digest && complypackDigests == map[]
  {
  }

  /** After invalidation exactly the policies whose state named the evaluator have no state, and so regenerate. */
  lemma InvalidationIsExact(dir: GenerationDir, e: string, policyId: string)
    ensures Load(Invalidated(dir, e), policyId)
         == if Mentions(dir, policyId + ".json", e) then Some(None) else Load(dir, policyId)
    ensures Mentions(dir, policyId + ".json", e)
      <==> (&& policyId + ".json" in dir && dir[policyId + ".json"].Holding?
            && e in dir[policyId + ".json"].state.evaluatorIds)
  {
    var path := policyId + ".json";
    assert path[|path| - 5..] == ".json";
  }
}
