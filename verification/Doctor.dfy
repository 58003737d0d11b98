/** Diagnostics that must agree with other code: orphans with eviction, the error cache with the plain loop. */
module Doctor {
  import opened Naming
  import opened Storage
  import opened SyncState
  import opened Cache
  import opened CacheTheorems
  import opened SyncTheorems

  // ---------- Orphaned versions ----------

  datatype Orphan = Orphan(slot: Slot, untracked: bool)

  ghost predicate NoState(state: Option<Ledger>) {
    state.None? || state.value == map[]
  }

  ghost predicate Flagged(t: Tree, state: Option<Ledger>, s: Slot) {
    IsDir(t, s) && (NoState(state) || s.evaluator == "" || !TrackedVersion(state.value, s.evaluator, s.name))
  }

  /** All pairs the state tracks. */
  method TrackedPairs(led: Ledger) returns (pairs: set<Slot>)
    ensures forall s :: s in pairs <==> s.evaluator != "" && TrackedVersion(led, s.evaluator, s.name)
  {
    pairs := {};
    var rest := led.Keys;
    while rest != {}
      invariant rest <= led.Keys
      invariant forall s :: s in pairs ==> s.evaluator != "" && TrackedVersion(led, s.evaluator, s.name)
      invariant forall r :: r in led && r !in rest && led[r].evaluatorId != "" && led[r].version != ""
                  ==> Slot(led[r].evaluatorId, led[r].version) in pairs
    {
      var r :| r in rest;
      rest := rest - {r};
      if led[r].evaluatorId != "" && led[r].version != "" {
        assert Tracks(led, r, led[r].evaluatorId);
        pairs := pairs + {Slot(led[r].evaluatorId, led[r].version)};
      }
    }
  }

  /** Walks all version directories, in any order; a directory that cannot be listed is passed over. */
  method FindOrphanedVersions(t: Tree, state: Option<Ledger>, rootListable: bool, listable: string -> bool)
      returns (orphans: seq<Orphan>)
    ensures forall s, u :: Orphan(s, u) in orphans
              <==> rootListable && listable(s.evaluator) && Flagged(t, state, s) && u == NoState(state)
    ensures forall i, j :: 0 <= i < j < |orphans| ==> orphans[i].slot != orphans[j].slot
  {
    var noState := state.None? || state.value == map[];
    var tracked: set<Slot> := {};
    if !noState {
      tracked := TrackedPairs(state.value);
    }
    orphans := [];
    if !rootListable {
      return;
    }
    var rest := t.Keys;
    while rest != {}
      invariant rest <= t.Keys
      invariant forall s, u :: Orphan(s, u) in orphans
                  <==> s !in rest && listable(s.evaluator) && Flagged(t, state, s) && u == noState
      invariant forall i :: 0 <= i < |orphans| ==> orphans[i].slot !in rest
      invariant forall i, j :: 0 <= i < j < |orphans| ==> orphans[i].slot != orphans[j].slot
    {
      var s :| s in rest;
      rest := rest - {s};
      if listable(s.evaluator) && t[s].Dir? && (noState || s !in tracked) {
        orphans := orphans + [Orphan(s, noState)];
      }
    }
  }

  /** Under an evaluator's directory exactly the versions the state tracks are not flagged. */
  lemma FlaggedIffUntracked(t: Tree, state: Option<Ledger>, s: Slot)
    requires IsDir(t, s) && s.evaluator != ""
    ensures Flagged(t, state, s) <==> state.None? || !TrackedVersion(state.value, s.evaluator, s.name)
  {
    assert NoState(state) && state.Some? ==> forall r :: !Tracks(state.value, r, s.evaluator);
  }

  /**
   * Doctor and eviction agree on visible versions: what the doctor flags for an evaluator, other than the version
   * being stored, is removed by the next successful Store under the same state, exactly if it is visible. Hidden
   * directories left by a crash are flagged too and stay.
   */
  lemma FlaggedGoesIffVisible(t: Tree, t': Tree, state: Option<Ledger>, retention: int, config: Config,
                              content: string, io: StoreIO, s: Slot)
    requires StoreStep(t, t', state, retention, config, content, io) && StoreOk(t, config, io) && io.listable
    requires io.stuck == {}
    requires s.evaluator == config.evaluatorId && s != Final(config) && Flagged(t, state, s)
    ensures s !in t' <==> !Hidden(s.name)
  {
    var t1 := t[Final(config) := Bundle(config, content)];
    FlaggedIffUntracked(t, state, s);
    ExactRetention(t1, t', config.evaluatorId, config.version, state, retention, io);
    StoredTarget(t, t', state, retention, config, content, io);
    assert SameAt(t1, t', s) || s !in t';
    assert s.name !in Candidates(t', config.evaluatorId, config.version);
    assert s == Slot(s.evaluator, s.name);
  }

  /** After such a Store the doctor flags nothing visible for this evaluator but possibly the version just stored. */
  lemma StoreSettlesDoctor(t: Tree, t': Tree, state: Option<Ledger>, retention: int, config: Config, content: string,
                           io: StoreIO, s: Slot)
    requires StoreStep(t, t', state, retention, config, content, io) && StoreOk(t, config, io) && io.listable
    requires io.stuck == {}
    requires s.evaluator == config.evaluatorId && !Hidden(s.name) && Flagged(t', state, s)
    ensures s == Final(config)
  {
    StoredTarget(t, t', state, retention, config, content, io);
    if s != Final(config) {
      assert SameAt(t[Final(config) := Bundle(config, content)], t', s);
      FlaggedGoesIffVisible(t, t', state, retention, config, content, io, s);
    }
  }

  // ---------- Policy versions ----------

  datatype PolicyRef = PolicyRef(registry: string, repository: string, pin: string)

  /** A configured policy; the reference is absent when its URL does not parse. */
  datatype Policy = Policy(id: string, reference: Option<PolicyRef>)

  datatype Answer = Latest(version: string) | NotFound | NetworkError

  /** What the registries would answer while the i-th policy is being checked. */
  datatype Registries = Registries(latest: nat -> Answer, pinned: nat -> bool)

  datatype Message =
    | InvalidReference | NotCached | VersionNotFound(pin: string) | LatestTagMissing
    | RegistryUnreachable(registry: string)
    | PinnedWithoutLatest(version: string) | Pinned(version: string) | PinnedOlder(version: string, latest: string)
    | PinMismatch(version: string, pin: string) | UpToDate(version: string) | Outdated(version: string, latest: string)

  datatype Status = Pass | Warn | FailStatus

  datatype CheckResult = CheckResult(id: string, status: Status, message: Message)

  datatype RegistryCall = LatestCall(at: nat, registry: string) | PinnedCall(at: nat, registry: string)

  function PinnedFallback(p: Policy, r: PolicyRef, cached: string, answer: Answer, pinResolves: bool): CheckResult {
    if answer.NotFound? then
      if r.pin != "" && pinResolves then CheckResult(p.id, Pass, PinnedWithoutLatest(cached))
      else CheckResult(p.id, Warn, if r.pin != "" then VersionNotFound(r.pin) else LatestTagMissing)
    else CheckResult(p.id, Warn, RegistryUnreachable(r.registry))
  }

  function Compare(p: Policy, r: PolicyRef, cached: string, latest: string): CheckResult {
    if r.pin != "" then
      if cached == r.pin then CheckResult(p.id, Pass, if latest != cached then PinnedOlder(cached, latest)
                                          else Pinned(cached))
      else CheckResult(p.id, Warn, PinMismatch(cached, r.pin))
    else if cached == latest then CheckResult(p.id, Pass, UpToDate(cached))
    else CheckResult(p.id, Warn, Outdated(cached, latest))
  }

  /** The policy reaches a registry lookup at all. */
  predicate Eligible(p: Policy, cached: Ledger) {
    p.reference.Some? && p.reference.value.repository in cached
  }

  /** The result for the i-th policy when registries are always asked. */
  function PlainResult(ps: seq<Policy>, cached: Ledger, g: Registries, i: nat): CheckResult
    requires i < |ps|
  {
    var p := ps[i];
    if p.reference.None? then CheckResult(p.id, FailStatus, InvalidReference)
    else if p.reference.value.repository !in cached then CheckResult(p.id, Warn, NotCached)
    else
      var r, version := p.reference.value, cached[p.reference.value.repository].version;
      match g.latest(i)
      case Latest(v) => Compare(p, r, version, v)
      case answer => PinnedFallback(p, r, version, answer, g.pinned(i))
  }

  /** The lookup for the j-th policy fails other than by "not found". */
  predicate FailsAt(ps: seq<Policy>, cached: Ledger, g: Registries, j: nat, registry: string)
    requires j < |ps|
  {
    Eligible(ps[j], cached) && ps[j].reference.value.registry == registry && g.latest(j).NetworkError?
  }

  /** The registries at which some lookup for the first n policies fails so. */
  function DownBefore(ps: seq<Policy>, cached: Ledger, g: Registries, n: nat): set<string>
    requires n <= |ps|
  {
    if n == 0 then {}
    else DownBefore(ps, cached, g, n - 1)
         + (if Eligible(ps[n - 1], cached) && g.latest(n - 1).NetworkError? then {ps[n - 1].reference.value.registry}
            else {})
  }

  lemma {:induction false} DownIff(ps: seq<Policy>, cached: Ledger, g: Registries, n: nat, registry: string)
    requires n <= |ps|
    ensures registry in DownBefore(ps, cached, g, n) <==> exists j :: 0 <= j < n && FailsAt(ps, cached, g, j, registry)
  {
    if n > 0 {
      DownIff(ps, cached, g, n - 1, registry);
      assert FailsAt(ps, cached, g, n - 1, registry)
        <==> (&& Eligible(ps[n - 1], cached) && g.latest(n - 1).NetworkError?
              && ps[n - 1].reference.value.registry == registry);
    }
  }

  /** Some lookup at the i-th policy's registry for an earlier policy failed other than by "not found". */
  predicate Down(ps: seq<Policy>, cached: Ledger, g: Registries, i: nat, registry: string)
    requires i <= |ps|
  {
    registry in DownBefore(ps, cached, g, i)
  }

  class VersionResolver {
    const registries: Registries
    var calls: seq<RegistryCall>

    constructor (registries: Registries)
      ensures this.registries == registries && calls == []
    {
      this.registries, calls := registries, [];
    }

    method ResolveLatestVersion(at: nat, registry: string) returns (answer: Answer)
      modifies this
      ensures answer == registries.latest(at) && calls == old(calls) + [LatestCall(at, registry)]
    {
      answer := registries.latest(at);
      calls := calls + [LatestCall(at, registry)];
    }

    method ResolveVersion(at: nat, registry: string) returns (resolves: bool)
      modifies this
      ensures resolves == registries.pinned(at) && calls == old(calls) + [PinnedCall(at, registry)]
    {
      resolves := registries.pinned(at);
      calls := calls + [PinnedCall(at, registry)];
    }
  }

  method ResolvePinnedFallback(resolver: VersionResolver, at: nat, p: Policy, r: PolicyRef, cached: string,
                               answer: Answer)
    returns (result: CheckResult)
    requires !answer.Latest?
    modifies resolver
    ensures result == PinnedFallback(p, r, cached, answer, resolver.registries.pinned(at))
    ensures answer.NetworkError? || r.pin == "" ==> resolver.calls == old(resolver.calls)
    ensures answer.NotFound? && r.pin != "" ==> resolver.calls == old(resolver.calls) + [PinnedCall(at, r.registry)]
  {
    if r.pin != "" && answer.NotFound? {
      var resolves := resolver.ResolveVersion(at, r.registry);
      if resolves {
        return CheckResult(p.id, Pass, PinnedWithoutLatest(cached));
      }
    }
    if answer.NotFound? {
      return CheckResult(p.id, Warn, if r.pin != "" then VersionNotFound(r.pin) else LatestTagMissing);
    }
    return CheckResult(p.id, Warn, RegistryUnreachable(r.registry));
  }

  /** A policy whose registry is known to be down gets the unreachable result; every other one the plain result. */
  function CachedResult(ps: seq<Policy>, cached: Ledger, g: Registries, i: nat): CheckResult
    requires i < |ps|
  {
    if Eligible(ps[i], cached) && Down(ps, cached, g, i, ps[i].reference.value.registry)
    then CheckResult(ps[i].id, Warn, RegistryUnreachable(ps[i].reference.value.registry))
    else PlainResult(ps, cached, g, i)
  }

  predicate CachedResults(ps: seq<Policy>, cached: Ledger, g: Registries, results: seq<CheckResult>) {
    |results| <= |ps| && forall i :: 0 <= i < |results| ==> results[i] == CachedResult(ps, cached, g, i)
  }

  /** The calls made for the i-th policy. */
  function CallsAt(ps: seq<Policy>, cached: Ledger, g: Registries, i: nat): seq<RegistryCall>
    requires i < |ps|
  {
    if !Eligible(ps[i], cached) || Down(ps, cached, g, i, ps[i].reference.value.registry) then []
    else
      var r := ps[i].reference.value;
      [LatestCall(i, r.registry)] + (if g.latest(i).NotFound? && r.pin != "" then [PinnedCall(i, r.registry)] else [])
  }

  function Calls(ps: seq<Policy>, cached: Ledger, g: Registries, n: nat): seq<RegistryCall>
    requires n <= |ps|
  {
    if n == 0 then [] else Calls(ps, cached, g, n - 1) + CallsAt(ps, cached, g, n - 1)
  }

  /** A call is for an eligible policy, to its registry, not known to be down; a pinned one only after "not found". */
  predicate Justified(ps: seq<Policy>, cached: Ledger, g: Registries, c: RegistryCall) {
    && c.at < |ps| && Eligible(ps[c.at], cached) && c.registry == ps[c.at].reference.value.registry
    && !Down(ps, cached, g, c.at, c.registry)
    && (c.PinnedCall? ==> g.latest(c.at).NotFound? && ps[c.at].reference.value.pin != "")
  }

  lemma {:induction false} CallsAreJustified(ps: seq<Policy>, cached: Ledger, g: Registries, n: nat)
    requires n <= |ps|
    ensures forall c :: c in Calls(ps, cached, g, n) ==> c.at < n && Justified(ps, cached, g, c)
  {
    if n > 0 {
      CallsAreJustified(ps, cached, g, n - 1);
    }
  }

  /** No justified call is left out either. */
  lemma {:induction false} JustifiedAreMade(ps: seq<Policy>, cached: Ledger, g: Registries, n: nat, c: RegistryCall)
    requires n <= |ps| && c.at < n && Justified(ps, cached, g, c)
    ensures c in Calls(ps, cached, g, n)
  {
    if c.at == n - 1 {
      assert CallsAt(ps, cached, g, n - 1)[0] == LatestCall(n - 1, c.registry);
      assert c.PinnedCall? ==> CallsAt(ps, cached, g, n - 1)[1] == c;
      assert c in CallsAt(ps, cached, g, n - 1);
    } else {
      JustifiedAreMade(ps, cached, g, n - 1, c);
    }
  }

  /**
   * When a policy passes: it is cached, and its version is the pinned one, or without a pin the latest one; or the
   * registry has no "latest" but knows the pin, and then the cached version is not looked at. Only a reference that
   * does not parse is a failure.
   */
  lemma PassesIff(ps: seq<Policy>, cached: Ledger, g: Registries, i: nat)
    requires i < |ps|
    ensures PlainResult(ps, cached, g, i).id == ps[i].id
    ensures PlainResult(ps, cached, g, i).status == FailStatus <==> ps[i].reference.None?
    ensures PlainResult(ps, cached, g, i).status == Pass
      <==> (&& ps[i].reference.Some? && ps[i].reference.value.repository in cached
            && var pin, version := ps[i].reference.value.pin, cached[ps[i].reference.value.repository].version;
               || (pin != "" && g.latest(i).Latest? && version == pin)
               || (pin == "" && g.latest(i) == Latest(version))
               || (pin != "" && g.latest(i).NotFound? && g.pinned(i)))
  {
  }

  /** What the result of a cached policy says while its registry answers: its version and what that is compared with. */
  lemma ResultsTell(ps: seq<Policy>, cached: Ledger, g: Registries, i: nat, latest: string)
    requires i < |ps| && Eligible(ps[i], cached) && g.latest(i) == Latest(latest)
    ensures var pin, version := ps[i].reference.value.pin, cached[ps[i].reference.value.repository].version;
            var message := PlainResult(ps, cached, g, i).message;
            && (pin != "" && version != pin ==> message == PinMismatch(version, pin))
            && (pin != "" && version == pin && latest != version ==> message == PinnedOlder(version, latest))
            && (pin != "" && version == pin && latest == version ==> message == Pinned(version))
            && (pin == "" && version != latest ==> message == Outdated(version, latest))
            && (pin == "" && version == latest ==> message == UpToDate(version))
  {
  }

  /** With the error cache it passes exactly if it would without it and its registry has not failed before. */
  lemma CachedPassesIff(ps: seq<Policy>, cached: Ledger, g: Registries, i: nat)
    requires i < |ps|
    ensures CachedResult(ps, cached, g, i).id == ps[i].id
    ensures CachedResult(ps, cached, g, i).status == Pass
      <==> (&& PlainResult(ps, cached, g, i).status == Pass
            && !exists j :: 0 <= j < i && FailsAt(ps, cached, g, j, ps[i].reference.value.registry))
  {
    PassesIff(ps, cached, g, i);
    if ps[i].reference.Some? {
      DownIff(ps, cached, g, i, ps[i].reference.value.registry);
    }
  }

  predicate Failing(g: Registries, c: RegistryCall) {
    c.LatestCall? && g.latest(c.at).NetworkError?
  }

  /** After a failing call no call of any kind goes to the same registry. */
  predicate QuietAfterFailure(g: Registries, calls: seq<RegistryCall>) {
    forall i, j :: 0 <= i < j < |calls| && Failing(g, calls[i]) ==> calls[j].registry != calls[i].registry
  }

  lemma QuietAppend(g: Registries, front: seq<RegistryCall>, last: seq<RegistryCall>)
    requires QuietAfterFailure(g, front) && QuietAfterFailure(g, last)
    requires forall c, d :: c in front && d in last && Failing(g, c) ==> d.registry != c.registry
    ensures QuietAfterFailure(g, front + last)
  {
    forall x | 0 <= x < |front + last| ensures (front + last)[x] in if x < |front| then front else last {}
  }

  /** Once a latest lookup failed other than by "not found", no later call of any kind goes to that registry. */
  lemma {:induction false} NoCallAfterFailure(ps: seq<Policy>, cached: Ledger, g: Registries, n: nat)
    requires n <= |ps|
    ensures QuietAfterFailure(g, Calls(ps, cached, g, n))
  {
    if n > 0 {
      NoCallAfterFailure(ps, cached, g, n - 1);
      QuietStep(ps, cached, g, n);
    }
  }

  lemma QuietStep(ps: seq<Policy>, cached: Ledger, g: Registries, n: nat)
    requires 0 < n <= |ps| && QuietAfterFailure(g, Calls(ps, cached, g, n - 1))
    ensures QuietAfterFailure(g, Calls(ps, cached, g, n))
  {
    QuietCallsAt(ps, cached, g, n - 1);
    var front, last := Calls(ps, cached, g, n - 1), CallsAt(ps, cached, g, n - 1);
    forall c, d | c in front && d in last && Failing(g, c) ensures d.registry != c.registry {
      AskedAfterFailure(ps, cached, g, n - 1, c, d);
    }
    QuietAppend(g, front, last);
  }

  lemma QuietCallsAt(ps: seq<Policy>, cached: Ledger, g: Registries, i: nat)
    requires i < |ps|
    ensures QuietAfterFailure(g, CallsAt(ps, cached, g, i))
  {
  }

  lemma AskedAfterFailure(ps: seq<Policy>, cached: Ledger, g: Registries, i: nat, c: RegistryCall, d: RegistryCall)
    requires i < |ps| && c in Calls(ps, cached, g, i) && Failing(g, c) && d in CallsAt(ps, cached, g, i)
    ensures d.registry != c.registry
  {
    CallsAreJustified(ps, cached, g, i);
    assert FailsAt(ps, cached, g, c.at, c.registry);
    DownIff(ps, cached, g, i, c.registry);
  }

  /** The part of the loop that concerns a cached policy; a registry known to be down is not asked. */
  method CheckAtRegistry(resolver: VersionResolver, at: nat, p: Policy, r: PolicyRef, version: string, down: bool)
    returns (result: CheckResult, failed: bool)
    modifies resolver
    ensures var g := resolver.registries;
            && failed == (!down && g.latest(at).NetworkError?)
            && result == (if down then CheckResult(p.id, Warn, RegistryUnreachable(r.registry))
                          else match g.latest(at)
                               case Latest(v) => Compare(p, r, version, v)
                               case answer => PinnedFallback(p, r, version, answer, g.pinned(at)))
            && resolver.calls == old(resolver.calls)
                 + (if down then [] else [LatestCall(at, r.registry)])
                 + (if !down && g.latest(at).NotFound? && r.pin != "" then [PinnedCall(at, r.registry)] else [])
  {
    failed := false;
    if down {
      result := ResolvePinnedFallback(resolver, at, p, r, version, NetworkError);
      return;
    }
    var answer := resolver.ResolveLatestVersion(at, r.registry);
    if !answer.Latest? {
      failed := answer.NetworkError?;
      result := ResolvePinnedFallback(resolver, at, p, r, version, answer);
      return;
    }
    result := Compare(p, r, version, answer.version);
  }

  /** One result per policy, in order; no call of any kind reaches a registry known to be down. */
  method CheckPolicyVersions(ps: seq<Policy>, cached: Ledger, resolver: VersionResolver)
      returns (results: seq<CheckResult>)
    requires resolver.calls == []
    modifies resolver
    ensures |results| == |ps| && CachedResults(ps, cached, resolver.registries, results)
    ensures resolver.calls == Calls(ps, cached, resolver.registries, |ps|)
    ensures forall c :: c in resolver.calls ==> Justified(ps, cached, resolver.registries, c)
  {
    results := [];
    var registryErrors: set<string> := {};
    ghost var g := resolver.registries;
    for i := 0 to |ps|
      invariant |results| == i && CachedResults(ps, cached, g, results)
      invariant registryErrors == DownBefore(ps, cached, g, i)
      invariant resolver.calls == Calls(ps, cached, g, i)
    {
      var p := ps[i];
      if p.reference.None? {
        results := results + [CheckResult(p.id, FailStatus, InvalidReference)];
        continue;
      }
      var r := p.reference.value;
      if r.repository !in cached {
        results := results + [CheckResult(p.id, Warn, NotCached)];
        continue;
      }
      var result, failed :=
          CheckAtRegistry(resolver, i, p, r, cached[r.repository].version, r.registry in registryErrors);
      results := results + [result];
      if failed {
        registryErrors := registryErrors + {r.registry};
      }
    }
    CallsAreJustified(ps, cached, g, |ps|);
  }

  /** Once a registry has failed, every later lookup there would fail too. */
  predicate KeepsFailing(ps: seq<Policy>, cached: Ledger, g: Registries) {
    forall i :: 0 <= i < |ps| && Eligible(ps[i], cached) && Down(ps, cached, g, i, ps[i].reference.value.registry)
      ==> g.latest(i).NetworkError?
  }

  /** The error cache gives the results of the loop without it exactly when failed registries keep failing. */
  lemma ErrorCacheAgreesIff(ps: seq<Policy>, cached: Ledger, g: Registries, results: seq<CheckResult>)
    requires |results| == |ps| && CachedResults(ps, cached, g, results)
    ensures (forall i :: 0 <= i < |ps| ==> results[i] == PlainResult(ps, cached, g, i)) <==> KeepsFailing(ps, cached, g)
  {
    forall i | 0 <= i < |ps| && Eligible(ps[i], cached) && Down(ps, cached, g, i, ps[i].reference.value.registry)
      ensures results[i] == PlainResult(ps, cached, g, i) <==> g.latest(i).NetworkError?
    {
      assert results[i].message.RegistryUnreachable?;
    }
  }
}
