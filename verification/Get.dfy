/** The get command's run over the configured complypacks, and its check for shared evaluators. */
module Get {
  import opened Naming
  import opened Storage
  import opened SyncState
  import opened Cache
  import opened Sync
  import opened SyncTheorems
  import opened Confluence
  import opened Workspaces

  /** A parsed complypack URL; the version is empty when the URL names none. */
  datatype Reference = Reference(registry: string, repository: string, version: string)

  /** Outcome of choosing a verifier for an entry. */
  datatype Verifier = Unverified | Verifying | CannotBuild

  /** An entry of the configuration with everything the outside answers while it is synced. */
  datatype Request = Request(
    reference: Option<Reference>, verifier: Verifier, latest: Option<string>, retention: int, answers: Answers,
    invalidation: InvalidationIO)

  datatype Attempt = InvalidReference | NoVerifier | Attempted(r: SyncResult)

  predicate IsAttempted(q: Request) {
    q.reference.Some? && !q.verifier.CannotBuild?
  }

  /** The version asked for: the URL's, else the newest the registry names, else "latest". */
  function RequestedVersion(q: Request): string
    requires q.reference.Some?
  {
    if q.reference.value.version != "" then q.reference.value.version
    else if q.latest.Some? then q.latest.value else "latest"
  }

  function SetupOf(q: Request): Setup
    requires q.reference.Some?
  {
    Setup(q.verifier.Verifying?, NormalizeHost(q.reference.value.registry), "http://" <= q.reference.value.registry,
          q.retention)
  }

  /** The version synced is the URL's own pin if it has one, else the registry's latest, else "latest". */
  lemma PinIsRequested(q: Request, r: SyncResult)
    requires q.reference.Some?
    ensures ItemOf(q, r).repository == q.reference.value.repository
    ensures ItemOf(q, r).r == r && ItemOf(q, r).a == q.answers
    ensures q.reference.value.version != "" ==> ItemOf(q, r).requested == q.reference.value.version
    ensures q.reference.value.version == "" && q.latest.Some? ==> ItemOf(q, r).requested == q.latest.value
    ensures q.reference.value.version == "" && q.latest.None? ==> ItemOf(q, r).requested == "latest"
    ensures ItemOf(q, r).c.verifying <==> q.verifier == Verifying
    ensures ItemOf(q, r).c.retention == q.retention
    ensures ItemOf(q, r).c.insecure <==> exists rest :: q.reference.value.registry == "http://" + rest
  {
    var registry := q.reference.value.registry;
    assert "http://" <= registry ==> registry == "http://" + registry[7..];
  }

  /**
   * From the configured URL to the verifier: when a pinned complypack was fetched with a verifier, the verifier
   * approved host, repository and that pin in this very call, whatever scheme or trailing slash the registry was
   * written with.
   */
  lemma PinIsApproved(q: Request, w: World, w': World, scheme: string, host: string, slash: string)
    requires q.reference.Some? && q.verifier == Verifying && q.reference.value.registry == scheme + host + slash
    requires scheme in {"", "http://", "https://"} && slash in {"", "/"}
    requires host != "" && host[|host| - 1] != '/' && !("http://" <= host) && !("https://" <= host)
    requires q.reference.value.version !in {"", "latest"}
    requires Done(w, ItemOf(q, Synced(true)), w')
    ensures var repository, pin := q.reference.value.repository, q.reference.value.version;
            repository in w'.mem && PinApproved(SetupOf(q), host, repository, pin, q.answers, w'.mem[repository])
  {
    HostIsBare(scheme, host, slash);
    PinnedApproval(SetupOf(q), w, q.reference.value.repository, q.reference.value.version, q.answers, w');
  }

  ghost predicate PinApproved(c: Setup, host: string, repository: string, pin: string, a: Answers, entry: PolicyState) {
    && (ParsesAsDigest(pin) ==> ApprovedNow(c, host + "/" + repository + "@" + pin, a, entry))
    && (!ParsesAsDigest(pin) ==> ApprovedNow(c, host + "/" + repository + ":" + pin, a, entry))
  }

  lemma PinnedApproval(c: Setup, w: World, repository: string, pin: string, a: Answers, w': World)
    requires SyncStep(c, w, repository, pin, a, w', Synced(true)) && c.verifying && pin !in {"", "latest"}
    requires c.host != "" && c.host[|c.host| - 1] != '/'
    ensures repository in w'.mem && PinApproved(c, c.host, repository, pin, a, w'.mem[repository])
  {
    SelfHealing(c, w, repository, pin, a, w');
  }

  /** And what is recorded is the pinned version from the cache, or the package the registry holds under the pin. */
  lemma PinIsRecorded(q: Request, w: World, w': World)
    requires q.reference.Some? && q.reference.value.version !in {"", "latest"}
    requires Done(w, ItemOf(q, Synced(true)), w')
    ensures var repository, pin := q.reference.value.repository, q.reference.value.version;
            && repository in w'.mem
            && (HitRecorded(w, repository, pin, w'.mem[repository].digest, q.answers, w')
                || FetchRecorded(repository, pin, w'.mem[repository].digest, q.answers, w'))
  {
    RecordedAfterSync(SetupOf(q), w, q.reference.value.repository, q.reference.value.version, q.answers, w');
  }

  predicate OwnDirectoryOf(q: Request) {
    IsAttempted(q) ==> OwnDirectory(Handed(q.reference.value.repository, RequestedVersion(q), q.answers))
  }

  function ItemOf(q: Request, r: SyncResult): Item
    requires q.reference.Some?
  {
    Item(SetupOf(q), q.reference.value.repository, RequestedVersion(q), q.answers, r)
  }

  /** The sync calls behind a list of attempts. */
  function ItemsOf(requests: seq<Request>, attempts: seq<Attempt>): seq<Item>
    requires |requests| == |attempts|
  {
    if requests == [] then []
    else
      var n := |requests| - 1;
      ItemsOf(requests[..n], attempts[..n])
      + if attempts[n].Attempted? && IsAttempted(requests[n]) then [ItemOf(requests[n], attempts[n].r)] else []
  }

  lemma ItemsAppend(requests: seq<Request>, attempts: seq<Attempt>, q: Request, attempt: Attempt)
    requires |requests| == |attempts|
    ensures ItemsOf(requests + [q], attempts + [attempt])
         == ItemsOf(requests, attempts) + if attempt.Attempted? && IsAttempted(q) then [ItemOf(q, attempt.r)] else []
  {
    assert (requests + [q])[..|requests|] == requests && (attempts + [attempt])[..|attempts|] == attempts;
  }

  ghost function ViewOf(state: State, disk: Disk): World
    reads state, disk
  {
    World(disk.tree, state.complypacks, SavedEntries(disk.file))
  }

  lemma {:induction false} Append(w: World, items: seq<Item>, mid: World, x: Item, w': World)
    requires SyncAll(w, items, mid) && Done(mid, x, w')
    ensures SyncAll(w, items + [x], w')
    decreases |items|
  {
    var longer := items + [x];
    if items == [] {
      assert longer[1..] == [];
      assert SyncAll(w', longer[1..], w');
    } else {
      var w1 :| Done(w, items[0], w1) && SyncAll(w1, items[1..], mid);
      Append(w1, items[1..], mid, x, w');
      assert longer[0] == items[0] && longer[1..] == items[1..] + [x];
    }
  }

  // ---------- The loop ----------

  /** One entry: a cache and a sync object of its own over the shared state, and the invalidation after a fetch. */
  method SyncSingleComplypack(state: State, disk: Disk, workspace: Workspace, q: Request) returns (attempt: Attempt)
    requires OwnDirectoryOf(q)
    modifies state, disk, workspace
    ensures attempt.Attempted? <==> IsAttempted(q)
    ensures attempt.InvalidReference? <==> q.reference.None?
    ensures attempt.Attempted? ==> Done(old(ViewOf(state, disk)), ItemOf(q, attempt.r), ViewOf(state, disk))
    ensures !attempt.Attempted? ==> ViewOf(state, disk) == old(ViewOf(state, disk))
    ensures state.policies == old(state.policies)
    ensures attempt != Attempted(Synced(true)) ==> workspace.files == old(workspace.files)
    ensures attempt == Attempted(Synced(true)) ==>
              && q.reference.value.repository in state.complypacks
              && InvalidationStep(old(workspace.files), workspace.files,
                                  state.complypacks[q.reference.value.repository].evaluatorId, q.invalidation)
  {
    if q.reference.None? {
      return InvalidReference;
    }
    if q.verifier.CannotBuild? {
      return NoVerifier;
    }
    var reference := q.reference.value;
    var cache := new ComplypackCache(disk, state, q.retention);
    var cpSync := new ComplypackSync(cache, state, q.verifier.Verifying?, reference.registry);
    var version := reference.version;
    if version == "" {
      version := if q.latest.Some? then q.latest.value else "latest";
    }
    assert cpSync.View() == old(ViewOf(state, disk));
    var r := cpSync.SyncComplypack(reference.repository, version, q.answers);
    assert cpSync.View() == ViewOf(state, disk);
    if r == Synced(true) {
      SelfHealing(SetupOf(q), old(ViewOf(state, disk)), reference.repository, version, q.answers, ViewOf(state, disk));
      var _ := workspace.InvalidateGenerationForComplypack(state.complypacks, reference.repository, q.invalidation);
    }
    return Attempted(r);
  }

  lemma AppendAttempt(w: World, requests: seq<Request>, attempts: seq<Attempt>, mid: World, q: Request,
                      attempt: Attempt, w': World)
    requires |requests| == |attempts| && SyncAll(w, ItemsOf(requests, attempts), mid)
    requires attempt.Attempted? <==> IsAttempted(q)
    requires if attempt.Attempted? then Done(mid, ItemOf(q, attempt.r), w') else w' == mid
    ensures SyncAll(w, ItemsOf(requests + [q], attempts + [attempt]), w')
  {
    ItemsAppend(requests, attempts, q, attempt);
    if attempt.Attempted? {
      Append(w, ItemsOf(requests, attempts), mid, ItemOf(q, attempt.r), w');
    } else {
      assert ItemsOf(requests + [q], attempts + [attempt]) == ItemsOf(requests, attempts);
    }
  }

  /** Every entry is attempted; a failed one does not stop the rest. */
  method SyncAllComplypacks(state: State, disk: Disk, workspace: Workspace, requests: seq<Request>)
      returns (attempts: seq<Attempt>)
    requires forall q :: q in requests ==> OwnDirectoryOf(q)
    modifies state, disk, workspace
    ensures |attempts| == |requests|
        && forall i :: 0 <= i < |requests| ==> (attempts[i].Attempted? <==> IsAttempted(requests[i]))
    ensures SyncAll(old(ViewOf(state, disk)), ItemsOf(requests, attempts), ViewOf(state, disk))
    ensures state.policies == old(state.policies)
  {
    attempts := [];
    ghost var w0 := ViewOf(state, disk);
    for i := 0 to |requests|
      invariant |attempts| == i && forall j :: 0 <= j < i ==> (attempts[j].Attempted? <==> IsAttempted(requests[j]))
      invariant SyncAll(w0, ItemsOf(requests[..i], attempts), ViewOf(state, disk))
      invariant state.policies == old(state.policies)
    {
      var q := requests[i];
      ghost var mid := ViewOf(state, disk);
      var attempt := SyncSingleComplypack(state, disk, workspace, q);
      AppendAttempt(w0, requests[..i], attempts, mid, q, attempt, ViewOf(state, disk));
      assert requests[..i + 1] == requests[..i] + [q];
      attempts := attempts + [attempt];
    }
    assert requests[..|requests|] == requests;
  }

  // ---------- The check for shared evaluators ----------

  /** How many configured entries ended up with an evaluator. */
  function Claims(led: Ledger, repositories: seq<string>, e: string): nat {
    if repositories == [] then 0
    else
      var last := repositories[|repositories| - 1];
      Claims(led, repositories[..|repositories| - 1], e) + if Tracks(led, last, e) then 1 else 0
  }

  /** The evaluators claimed by more than one configured entry. */
  method ValidateUniqueEvaluatorIDs(led: Ledger, repositories: seq<string>) returns (conflicts: set<string>)
    ensures forall e :: e in conflicts <==> e != "" && Claims(led, repositories, e) > 1
  {
    var evalToRepos: map<string, seq<string>> := map[];
    for i := 0 to |repositories|
      invariant "" !in evalToRepos
      invariant forall e ::
          e != "" ==> Claims(led, repositories[..i], e) == if e in evalToRepos then |evalToRepos[e]| else 0
    {
      var r := repositories[i];
      assert repositories[..i + 1][..i] == repositories[..i];
      if r in led && led[r].evaluatorId != "" {
        var e := led[r].evaluatorId;
        evalToRepos := evalToRepos[e := (if e in evalToRepos then evalToRepos[e] else []) + [r]];
      }
    }
    assert repositories[..|repositories|] == repositories;
    conflicts := set e | e in evalToRepos && |evalToRepos[e]| > 1;
  }

  /** Two configured entries, at different places, with one evaluator. */
  ghost predicate ClaimedTwice(led: Ledger, repositories: seq<string>, e: string) {
    exists i, j :: 0 <= i < j < |repositories| && Tracks(led, repositories[i], e) && Tracks(led, repositories[j], e)
  }

  lemma {:induction false} NoClaims(led: Ledger, repositories: seq<string>, e: string)
    ensures Claims(led, repositories, e) == 0
        <==> forall i :: 0 <= i < |repositories| ==> !Tracks(led, repositories[i], e)
  {
    if repositories != [] {
      NoClaims(led, repositories[..|repositories| - 1], e);
    }
  }

  lemma {:induction false} ClaimsIff(led: Ledger, repositories: seq<string>, e: string)
    ensures Claims(led, repositories, e) > 1 <==> ClaimedTwice(led, repositories, e)
  {
    if repositories != [] {
      var n := |repositories| - 1;
      ClaimsIff(led, repositories[..n], e);
      NoClaims(led, repositories[..n], e);
      forall i | 0 <= i < n ensures repositories[..n][i] == repositories[i] {}
      if ClaimedTwice(led, repositories[..n], e) {
        var i, j :| 0 <= i < j < n && Tracks(led, repositories[..n][i], e) && Tracks(led, repositories[..n][j], e);
        assert Tracks(led, repositories[i], e) && Tracks(led, repositories[j], e);
      } else if ClaimedTwice(led, repositories, e) {
        var i, j :| 0 <= i < j < |repositories| && Tracks(led, repositories[i], e) && Tracks(led, repositories[j], e);
        assert i < n;
      }
    }
  }

  /** A recorded repository that is no longer configured has an evaluator that another recorded one has too. */
  ghost predicate StaleSharing(led: Ledger, repositories: seq<string>) {
    exists r, s :: r in led && r !in repositories && r != s && Tracks(led, r, led[r].evaluatorId)
        && led[r].evaluatorId != ""
                && Tracks(led, s, led[r].evaluatorId)
  }

  /**
   * A clean check rules out shared evaluators, so that the reverse lookup cannot fail, exactly when no entry left over
   * from an earlier configuration shares one. The check sees configured entries only, and after the syncs.
   */
  lemma CleanCheckIff(led: Ledger, repositories: seq<string>)
    requires forall e :: e != "" ==> Claims(led, repositories, e) <= 1
    ensures (forall e :: e != "" ==> !Shared(led, e)) <==> !StaleSharing(led, repositories)
    ensures !StaleSharing(led, repositories) ==>
              forall r :: r in led && led[r].evaluatorId != "" ==> SoleOwner(led, led[r].evaluatorId, r)
  {
    if StaleSharing(led, repositories) {
      var r, s :| r in led && r !in repositories && r != s && Tracks(led, r, led[r].evaluatorId)
          && led[r].evaluatorId != ""
               && Tracks(led, s, led[r].evaluatorId);
      assert Shared(led, led[r].evaluatorId);
    } else {
      forall r, s, e | e != "" && Tracks(led, r, e) && Tracks(led, s, e) ensures r == s {
        ClaimsIff(led, repositories, e);
        if r in repositories && s in repositories {
          var i :| 0 <= i < |repositories| && repositories[i] == r;
          var j :| 0 <= j < |repositories| && repositories[j] == s;
          assert i == j || ClaimedTwice(led, repositories, e);
        }
      }
    }
  }

  /** No call forgets a repository, so that entries outlive their configuration. */
  lemma NoneForgotten(c: Setup, w: World, repository: string, version: string, a: Answers, w': World, r: SyncResult)
    requires SyncStep(c, w, repository, version, a, w', r)
    ensures w.mem.Keys <= w'.mem.Keys
  {
  }

  const NEW_NAME := "new/opa"
  const RENAMED := Config("opa", "1", "")

  /**
   * A repository renamed in the configuration: the sync under the new name succeeds and the check is clean, yet from
   * then on every lookup of the evaluator fails.
   */
  lemma RenamedRepositoryIsNeverReported(entry: PolicyState, digest: string) returns (w: World, a: Answers, w': World)
    requires entry.evaluatorId == "opa" && ValidDigest(digest)
    ensures w.mem == map["old/opa" := entry]
    ensures SyncStep(Setup(false, "", false, 1), w, NEW_NAME, "latest", a, w', Synced(true))
    ensures forall e :: Claims(w'.mem, [NEW_NAME], e) <= 1
    ensures forall scannable, l: LookupResult ::
        LookupAnswer(w'.disk, Some(w'.mem), scannable, "opa", l) ==> l == LookupResult.Failed
  {
    var c, io := Setup(false, "", false, 1), StoreIO(NoFault, "1", true, true, {});
    a := Answers(_ => Some((digest, "1")), (_, _) => Rejected, (_, _) => Rejected, true,
                 (_, _) => Unpacked(RENAMED, ""), io, true, true, 0, 0, true);
    w := World(map[], map["old/opa" := entry], map["old/opa" := entry]);
    var led := w.mem[NEW_NAME := NewEntry("1", digest, "opa", 0, None)];
    w' := World(map[Final(RENAMED) := Bundle(RENAMED, "")], led, led);
    StoreOnEmpty(w.mem, io);
    assert FetchStep(c, w, NEW_NAME, "1", digest, ReferenceFor("", NEW_NAME, "latest"), a, w', Synced(true));
    assert Tracks(led, "old/opa", "opa") && Tracks(led, NEW_NAME, "opa");
    forall e ensures Claims(led, [NEW_NAME], e) <= 1 {
      assert Claims(led, [NEW_NAME][..0], e) == 0;
    }
  }

  lemma StoreOnEmpty(led: Ledger, io: StoreIO)
    requires io == StoreIO(NoFault, "1", true, true, {})
    ensures StoreOk(map[], RENAMED, io)
    ensures StoreStep(map[], map[Final(RENAMED) := Bundle(RENAMED, "")], Some(led), 1, RENAMED, "", io)
  {
    TmpNamesAreHidden(io.tmpSuffix);
    assert SafeName("opa") && SafeName("1");
    var t: Tree := map[Final(RENAMED) := Bundle(RENAMED, "")];
    assert Candidates(t, "opa", "1") == {};
    assert Tracked({}, Some(led), "opa") == {};
    assert Keeps({}, Some(led), "opa", 1, {});
    assert t == Without(t, "opa", {} - {} - io.stuck);
  }
}
