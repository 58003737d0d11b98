/** What lookup, Store and eviction guarantee on every tree. */
module CacheTheorems {
  import opened Naming
  import opened Storage
  import opened SyncState
  import opened Cache

  /** What one removal leaves: exactly the kept candidates, and everything outside untouched. */
  lemma RemovalLeaves(t: Tree, evaluatorId: string, target: string, kept: set<string>)
    requires kept <= Candidates(t, evaluatorId, target)
    ensures var t' := Without(t, evaluatorId, Candidates(t, evaluatorId, target) - kept);
            && Candidates(t', evaluatorId, target) == kept
            && SameAt(t, t', Slot(evaluatorId, target))
            && forall s: Slot :: s.evaluator != evaluatorId || Hidden(s.name) ==> SameAt(t, t', s)
  {
    var gone := Candidates(t, evaluatorId, target) - kept;
    var t' := Without(t, evaluatorId, gone);
    forall n ensures n in Candidates(t', evaluatorId, target) <==> n in kept {
      assert IsDir(t', Slot(evaluatorId, n)) <==> IsDir(t, Slot(evaluatorId, n)) && n !in gone;
    }
  }

  /**
   * Retention is exact: the target stays, and of the other visible versions exactly min(N-1, tracked), all of them
   * tracked and none older than a tracked one that went. Without state none is tracked. Nothing else changes.
   */
  lemma ExactRetention(t: Tree, t': Tree, evaluatorId: string, target: string, state: Option<Ledger>, retention: int,
                       io: StoreIO)
    requires io.listable && io.stuck == {}
    requires Evicted(t, t', evaluatorId, target, state, retention, io)
    ensures var tracked := Tracked(Candidates(t, evaluatorId, target), state, evaluatorId);
            var survivors := Candidates(t', evaluatorId, target);
            && survivors <= tracked
            && |survivors| == Min(Slots(retention), |tracked|)
            && OldestGo(survivors, tracked - survivors, state, evaluatorId)
    ensures SameAt(t, t', Slot(evaluatorId, target))
    ensures forall s: Slot :: s.evaluator != evaluatorId || Hidden(s.name) ==> SameAt(t, t', s)
  {
    var candidates := Candidates(t, evaluatorId, target);
    var tracked := Tracked(candidates, state, evaluatorId);
    var kept :| Keeps(tracked, state, evaluatorId, retention, kept)
        && t' == Without(t, evaluatorId, candidates - kept - io.stuck);
    assert candidates - kept - io.stuck == candidates - kept;
    RemovalLeaves(t, evaluatorId, target, kept);
  }

  /** The number of versions that stay beside the target: all tracked ones up to N-1. */
  lemma RetainedCount(t: Tree, t': Tree, evaluatorId: string, target: string, state: Option<Ledger>, retention: int,
                      io: StoreIO)
    requires io.listable && io.stuck == {}
    requires Evicted(t, t', evaluatorId, target, state, retention, io)
    ensures var tracked := Tracked(Candidates(t, evaluatorId, target), state, evaluatorId);
            |Candidates(t', evaluatorId, target)|
            == if retention <= 1 then 0 else if |tracked| <= retention - 1 then |tracked| else retention - 1
  {
    ExactRetention(t, t', evaluatorId, target, state, retention, io);
  }

  /** Of two tracked versions one of which goes, the one that stays is recorded at a time that is not earlier. */
  lemma NewestStay(t: Tree, t': Tree, evaluatorId: string, target: string, led: Ledger, retention: int, io: StoreIO,
                   k: string, g: string)
    requires io.listable && io.stuck == {}
    requires Evicted(t, t', evaluatorId, target, Some(led), retention, io)
    requires k in Candidates(t', evaluatorId, target)
    requires g in Candidates(t, evaluatorId, target) && g !in Candidates(t', evaluatorId, target)
    requires TrackedVersion(led, evaluatorId, g)
    ensures exists r, s :: Tracks(led, r, evaluatorId) && led[r].version == k
                        && Tracks(led, s, evaluatorId) && led[s].version == g
                        && led[s].lastUpdated <= led[r].lastUpdated
  {
    ExactRetention(t, t', evaluatorId, target, Some(led), retention, io);
    var tracked := Tracked(Candidates(t, evaluatorId, target), Some(led), evaluatorId);
    var survivors := Candidates(t', evaluatorId, target);
    assert k in tracked && g in tracked - survivors;
    EntriesInOrder(led, evaluatorId, survivors, tracked - survivors, k, g);
  }

  lemma EntriesInOrder(led: Ledger, evaluatorId: string, kept: set<string>, gone: set<string>, k: string, g: string)
    requires OldestGo(kept, gone, Some(led), evaluatorId) && k in kept && g in gone
    requires TrackedVersion(led, evaluatorId, k) && TrackedVersion(led, evaluatorId, g)
    ensures exists r, s :: Tracks(led, r, evaluatorId) && led[r].version == k
                        && Tracks(led, s, evaluatorId) && led[s].version == g
                        && led[s].lastUpdated <= led[r].lastUpdated
  {
    var ts :| Stamps(ts, led, evaluatorId) && NoneOlder(kept, gone, ts);
    assert NotNewer(ts, g, k);
    var r :| Tracks(led, r, evaluatorId) && led[r].version == k && led[r].lastUpdated == ts[k];
    var s :| Tracks(led, s, evaluatorId) && led[s].version == g && led[s].lastUpdated == ts[g];
  }

  /** With one owner, what stays beside the target is the previously active version, kept exactly when N > 1. */
  lemma SingleOwnerRetention(t: Tree, t': Tree, evaluatorId: string, target: string, led: Ledger, owner: string,
                             retention: int, io: StoreIO)
    requires io.listable && io.stuck == {} && SoleOwner(led, evaluatorId, owner)
    requires Evicted(t, t', evaluatorId, target, Some(led), retention, io)
    ensures var active := led[owner].version;
            Candidates(t', evaluatorId, target)
            == if active != "" && active in Candidates(t, evaluatorId, target) && retention > 1 then {active} else {}
  {
    var active := led[owner].version;
    var tracked := TrackedAmong(Candidates(t, evaluatorId, target), led, evaluatorId);
    SingleTracked(Candidates(t, evaluatorId, target), led, evaluatorId, owner);
    ExactRetention(t, t', evaluatorId, target, Some(led), retention, io);
    var survivors := Candidates(t', evaluatorId, target);
    assert tracked == Tracked(Candidates(t, evaluatorId, target), Some(led), evaluatorId);
    SmallSubset(survivors, tracked, active);
  }

  lemma SingleTracked(names: set<string>, led: Ledger, evaluatorId: string, owner: string)
    requires SoleOwner(led, evaluatorId, owner)
    ensures var active := led[owner].version;
            TrackedAmong(names, led, evaluatorId) == if active != "" && active in names then {active} else {}
  {
    assert Tracks(led, owner, evaluatorId);
  }

  lemma SmallSubset(small: set<string>, big: set<string>, x: string)
    requires small <= big <= {x}
    ensures small == {} || small == {x}
    ensures |small| == if small == {} then 0 else 1
    ensures |big| == if big == {} then 0 else 1
  {
    assert big == {} || big == {x};
    assert small == {} || small == {x};
  }

  /**
   * What becomes of one candidate when at most one version is tracked: it stays exactly if nothing is evicted, its
   * removal fails, or it is the tracked one and N is above 1.
   */
  lemma StaysIff(t: Tree, t': Tree, evaluatorId: string, target: string, led: Ledger, retention: int, io: StoreIO,
                 v: string, active: string)
    requires Evicted(t, t', evaluatorId, target, Some(led), retention, io)
    requires v in Candidates(t, evaluatorId, target)
    requires forall x :: TrackedVersion(led, evaluatorId, x) ==> x == active
    ensures SameAt(t, t', Slot(evaluatorId, v))
      <==> !io.listable || v in io.stuck || (TrackedVersion(led, evaluatorId, v) && retention > 1)
  {
    if io.listable {
      var candidates := Candidates(t, evaluatorId, target);
      var tracked := Tracked(candidates, Some(led), evaluatorId);
      var kept :| Keeps(tracked, Some(led), evaluatorId, retention, kept)
               && t' == Without(t, evaluatorId, candidates - kept - io.stuck);
      assert tracked <= {active};
      SmallSubset(kept, tracked, active);
      assert Slot(evaluatorId, v) in t' <==> v !in candidates - kept - io.stuck;
    }
  }

  /** A version is found exactly if its directory holds content and a config that parses; that is the answer then. */
  lemma FoundIffThere(t: Tree, evaluatorId: string, version: string, config: Config)
    ensures LookupVersion(t, evaluatorId, version) == Hit(Slot(evaluatorId, version), config)
      <==> (&& ValidatePathComponent(evaluatorId).None? && ValidatePathComponent(version).None?
            && exists content :: Holds(t, Slot(evaluatorId, version), content, config))
    ensures !LookupVersion(t, evaluatorId, version).Absent?
  {
    var s := Slot(evaluatorId, version);
    if s in t && t[s].Dir? && t[s].content.Some? && t[s].config == Parsed(config) {
      assert Holds(t, s, t[s].content.value, config);
    }
  }

  /** The directory with these two files. */
  predicate Holds(t: Tree, s: Slot, content: string, config: Config) {
    s in t && t[s] == Dir(Some(content), Parsed(config))
  }

  /** Every visible version directory is complete. */
  ghost predicate AllVisibleWhole(t: Tree) {
    forall s :: IsDir(t, s) && !Hidden(s.name) ==> Whole(t, s)
  }

  /**
   * At every moment of Store a visible directory is as before or is the complete new one; the others stay until
   * the new one is in place, and those that stay in the end are there all the time; so complete visible trees stay
   * complete, and the scan sees no half-written directory.
   */
  lemma StoreIsCrashSafe(t: Tree, u: Tree, t': Tree, config: Config, content: string, io: StoreIO)
    requires StorePoint(t, u, t', config, content, io)
    ensures forall s :: s in t && s in t' && s != Final(config) && s != Temp(config, io) ==> SameAt(t, u, s)
    ensures forall s :: s in u && !Hidden(s.name) ==>
              (s in t && u[s] == t[s]) || (s == Final(config) && u[s] == Bundle(config, content))
    ensures (exists s :: s != Final(config) && s in t && s !in u && s != Temp(config, io)) ==>
              Final(config) in u && u[Final(config)] == Bundle(config, content)
    ensures AllVisibleWhole(t) ==> AllVisibleWhole(u)
  {
    TmpNamesAreHidden(io.tmpSuffix);
    var t1 := t[Final(config) := Bundle(config, content)];
    if BeforeSwap(t, u, config, io) {
      forall s | s in u && !Hidden(s.name) ensures s in t && u[s] == t[s] {
        assert s != Temp(config, io);
      }
    } else {
      forall s | s in t && s in t' && s != Final(config) ensures SameAt(t, u, s) {
        assert SameAt(t1, u, s) || s !in u;
      }
      forall s | s in u ensures (s in t && u[s] == t[s]) || (s == Final(config) && u[s] == Bundle(config, content)) {
        assert SameAt(t1, u, s);
      }
      assert SameAt(t1, u, Final(config));
    }
    if AllVisibleWhole(t) {
      forall s | IsDir(u, s) && !Hidden(s.name) ensures Whole(u, s) {
        assert s in t && u[s] == t[s] ==> IsDir(t, s);
      }
    }
  }

  /**
   * A failed Store whose cleanup works leaves no temp directory, and everything as it was except possibly the target,
   * which is lost exactly when it was there and the final rename was what failed. A failed cleanup only adds the hidden
   * temp directory to that.
   */
  lemma FailedStore(t: Tree, t': Tree, state: Option<Ledger>, retention: int, config: Config, content: string,
                    io: StoreIO)
    requires StoreStep(t, t', state, retention, config, content, io) && !StoreOk(t, config, io)
    ensures io.cleanup ==> t'.Keys <= t.Keys
    ensures forall s :: s != Final(config) && s != Temp(config, io) ==> SameAt(t, t', s)
    ensures Final(config) != Temp(config, io) ==>
              (SameAt(t, t', Final(config)) <==> !(Final(config) in t && Replaces(t, config, io)))
    ensures forall s :: s in t' && s !in t ==> Hidden(s.name)
  {
    TmpNamesAreHidden(io.tmpSuffix);
  }

  /** A scan of complete visible directories cannot fail, and it never answers with a hidden directory. */
  lemma ScanOfWholeTree(t: Tree, evaluatorId: string, r: LookupResult)
    requires ScanAnswer(t, true, evaluatorId, r) && AllVisibleWhole(t)
    ensures !r.Failed? && (r.Hit? ==> !Hidden(r.slot.name) && r.slot.evaluator == evaluatorId)
    ensures r.Absent? <==> Versions(t, evaluatorId) == {}
  {
    if r.Absent? && Versions(t, evaluatorId) != {} {
      var n :| n in Versions(t, evaluatorId);
      assert Whole(t, Slot(evaluatorId, n));
      assert ScanStop(t, evaluatorId, n);
    }
    if r.Hit? {
      assert r.slot == Slot(evaluatorId, r.slot.name);
      assert r.slot.name in Versions(t, evaluatorId);
    }
  }

  /** With one owner whose active version is complete, every order of map and directory gives that version. */
  lemma LookupFindsActive(t: Tree, led: Ledger, scannable: bool, evaluatorId: string, owner: string, r: LookupResult)
    requires LookupAnswer(t, Some(led), scannable, evaluatorId, r)
    requires SoleOwner(led, evaluatorId, owner)
    requires LookupVersion(t, evaluatorId, led[owner].version).Hit?
    ensures r == LookupVersion(t, evaluatorId, led[owner].version)
  {
    var v := led[owner].version;
    assert ActiveOnDisk(t, led, evaluatorId, v);
    forall w | IsActive(led, evaluatorId, At(w)) ensures w == v {
      ActiveIsUnique(led, evaluatorId, At(v), At(w));
    }
  }
}
