/** The complypack cache: lookup, atomic store and retention-aware eviction. */
module Cache {
  import opened Naming
  import opened Storage
  import opened SyncState

  // ---------- Lookup ----------

  datatype LookupResult = Absent | Failed | Hit(slot: Slot, config: Config)

  /** Lookup of one version; it never answers Absent. */
  function LookupVersion(t: Tree, evaluatorId: string, version: string): (r: LookupResult)
    ensures r.Hit? <==> SafeName(evaluatorId) && SafeName(version) && Whole(t, Slot(evaluatorId, version))
    ensures r.Hit? ==> r == Hit(Slot(evaluatorId, version), t[Slot(evaluatorId, version)].config.config)
    ensures !r.Hit? ==> r == Failed
  {
    var s := Slot(evaluatorId, version);
    if ValidatePathComponent(evaluatorId).Some? || ValidatePathComponent(version).Some? then Failed
    else if HasContent(t, s) && t[s].config.Parsed? then Hit(s, t[s].config.config)
    else Failed
  }

  /** A version directory the scan stops at. */
  predicate ScanStop(t: Tree, evaluatorId: string, name: string) {
    HasContent(t, Slot(evaluatorId, name)) && !Hidden(name)
  }

  /** The answers a directory scan can give, whatever order the names come in; a listing that fails is an error. */
  ghost predicate ScanAnswer(t: Tree, scannable: bool, evaluatorId: string, r: LookupResult) {
    if !scannable then r == Failed
    else match r
    case Absent => forall n :: !ScanStop(t, evaluatorId, n)
    case Failed => exists n :: ScanStop(t, evaluatorId, n) && !Whole(t, Slot(evaluatorId, n))
    case Hit(s, c) =>
      s.evaluator == evaluatorId && ScanStop(t, evaluatorId, s.name) && Whole(t, s) && t[s].config.config == c
  }

  /** The active version recorded in the state is on disk and whole. */
  ghost predicate ActiveOnDisk(t: Tree, led: Ledger, evaluatorId: string, version: string) {
    IsActive(led, evaluatorId, At(version)) && LookupVersion(t, evaluatorId, version).Hit?
  }

  /** The answers LookupByEvaluatorID can give. */
  ghost predicate LookupAnswer(t: Tree, state: Option<Ledger>, scannable: bool, evaluatorId: string, r: LookupResult) {
    if !SafeName(evaluatorId) || (state.Some? && Shared(state.value, evaluatorId)) then r == Failed
    else if state.Some? && exists v :: ActiveOnDisk(t, state.value, evaluatorId, v) then
      exists v :: ActiveOnDisk(t, state.value, evaluatorId, v) && r == LookupVersion(t, evaluatorId, v)
    else ScanAnswer(t, scannable, evaluatorId, r)
  }

  // ---------- Retention ----------

  /** Visible version directories of an evaluator. */
  function Versions(t: Tree, evaluatorId: string): (r: set<string>)
    ensures forall n :: n in r <==> IsDir(t, Slot(evaluatorId, n)) && !Hidden(n)
  {
    set s | s in t && s.evaluator == evaluatorId && t[s].Dir? && !Hidden(s.name) :: s.name
  }

  ghost predicate TrackedVersion(led: Ledger, evaluatorId: string, version: string) {
    version != "" && exists r :: Tracks(led, r, evaluatorId) && led[r].version == version
  }

  ghost function TrackedAmong(names: set<string>, led: Ledger, evaluatorId: string): (r: set<string>)
    ensures r <= names
  {
    set n | n in names && TrackedVersion(led, evaluatorId, n)
  }

  /** The time stamps a pass over the map can end up with: one entry's per tracked version. */
  ghost predicate Stamps(ts: map<string, int>, led: Ledger, evaluatorId: string) {
    && (forall v :: v in ts <==> TrackedVersion(led, evaluatorId, v))
    && forall v :: v in ts
        ==> exists r :: Tracks(led, r, evaluatorId) && led[r].version == v && led[r].lastUpdated == ts[v]
  }

  /** Go's map lookup: the zero time for a missing key. */
  function StampOf(ts: map<string, int>, v: string): int {
    if v in ts then ts[v] else 0
  }

  predicate NotNewer(ts: map<string, int>, a: string, b: string) {
    a in ts && b in ts ==> ts[a] <= ts[b]
  }

  ghost predicate NoneOlder(kept: set<string>, gone: set<string>, ts: map<string, int>) {
    forall k, g :: k in kept && g in gone ==> NotNewer(ts, g, k)
  }

  function Slots(retention: int): nat {
    if retention < 1 then 0 else retention - 1
  }

  function Min(a: nat, b: nat): nat {
    if a <= b then a else b
  }

  /** Directories eviction may touch. */
  function Candidates(t: Tree, evaluatorId: string, target: string): set<string> {
    Versions(t, evaluatorId) - {target}
  }

  /** No version that stays is older than one that goes. */
  ghost predicate OldestGo(kept: set<string>, gone: set<string>, state: Option<Ledger>, evaluatorId: string) {
    gone == {} || (state.Some? && exists ts :: Stamps(ts, state.value, evaluatorId) && NoneOlder(kept, gone, ts))
  }

  /** A choice of tracked versions to keep: as many as the limit allows, the newest. */
  ghost predicate Keeps(tracked: set<string>, state: Option<Ledger>, evaluatorId: string, retention: int,
                        kept: set<string>) {
    kept <= tracked && |kept| == Min(Slots(retention), |tracked|) && OldestGo(kept, tracked - kept, state, evaluatorId)
  }

  ghost function Tracked(candidates: set<string>, state: Option<Ledger>, evaluatorId: string): (r: set<string>)
    ensures r <= candidates
  {
    if state.None? then {} else TrackedAmong(candidates, state.value, evaluatorId)
  }

  function Without(t: Tree, evaluatorId: string, names: set<string>): (r: Tree)
    ensures forall s :: s in r <==> s in t && !(s.evaluator == evaluatorId && s.name in names)
    ensures forall s :: s in r ==> r[s] == t[s]
  {
    map s | s in t && !(s.evaluator == evaluatorId && s.name in names) :: t[s]
  }

  /** I/O outcomes during one call to Store. */
  datatype Fault = NoFault | MkdirFails | TempFails | ContentFails(partial: Option<string>) | ConfigFails
                 | RemoveFails | RenameFails

  datatype StoreIO = StoreIO(fault: Fault, tmpSuffix: string, cleanup: bool, listable: bool, stuck: set<string>)

  /** Everything goes except the versions kept and those whose removal fails. */
  ghost predicate Evicted(t: Tree, t': Tree, evaluatorId: string, target: string, state: Option<Ledger>,
                          retention: int, io: StoreIO) {
    var candidates := Candidates(t, evaluatorId, target);
    var tracked := Tracked(candidates, state, evaluatorId);
    if !io.listable then t' == t
    else exists kept :: Keeps(tracked, state, evaluatorId, retention, kept)
                    && t' == Without(t, evaluatorId, candidates - kept - io.stuck)
  }

  /** Some visible versions of an evaluator other than the target are missing; nothing else differs. */
  ghost predicate Shrunk(t: Tree, t': Tree, evaluatorId: string, target: string) {
    forall s :: SameAt(t, t', s)
        || (s !in t' && IsDir(t, s) && s.evaluator == evaluatorId && !Hidden(s.name) && s.name != target)
  }

  // ---------- Store ----------

  function Bundle(config: Config, content: string): Entry {
    Dir(Some(content), Parsed(config))
  }

  function Final(config: Config): Slot {
    Slot(config.evaluatorId, config.version)
  }

  function Temp(config: Config, io: StoreIO): Slot {
    Slot(config.evaluatorId, TMP_PREFIX + io.tmpSuffix)
  }

  predicate StoreOk(t: Tree, config: Config, io: StoreIO) {
    && SafeName(config.evaluatorId) && SafeName(config.version)
    && io.fault == NoFault && Temp(config, io) !in t && Temp(config, io) != Final(config)
  }

  /** What a failed cleanup leaves of the temp directory. */
  function Leftover(config: Config, content: string, fault: Fault): Entry {
    match fault
    case ContentFails(partial) => Dir(partial, NoConfig)
    case ConfigFails => Dir(Some(content), NoConfig)
    case _ => Bundle(config, content)
  }

  /** The relation between the tree before and after Store. */
  ghost predicate StoreStep(t: Tree, t': Tree, state: Option<Ledger>, retention: int, config: Config, content: string,
                            io: StoreIO) {
    var tmp, final := Temp(config, io), Final(config);
    if StoreOk(t, config, io) then
      Evicted(t[final := Bundle(config, content)], t', config.evaluatorId, config.version, state, retention, io)
    else if !SafeName(config.evaluatorId) || !SafeName(config.version) || io.fault in {MkdirFails, TempFails}
        || tmp in t then
      t' == t
    else
      var left := if io.cleanup then t else t[tmp := Leftover(config, content, io.fault)];
      t' == if io.fault in {NoFault, RenameFails} then left - {final} else left
  }

  /** Both files were written, so that the old target is removed. */
  predicate Replaces(t: Tree, config: Config, io: StoreIO) {
    && SafeName(config.evaluatorId) && SafeName(config.version)
    && io.fault in {NoFault, RenameFails} && Temp(config, io) !in t
  }

  /** Until the rename: only the temp directory differs, and the old target may already be gone. */
  ghost predicate BeforeSwap(t: Tree, u: Tree, config: Config, io: StoreIO) {
    forall s :: s != Temp(config, io) ==> SameAt(t, u, s) || (s == Final(config) && s !in u && Replaces(t, config, io))
  }

  /** From the rename on: the new target is complete; older versions go one by one, none that is there in the end. */
  ghost predicate AfterSwap(t: Tree, u: Tree, t': Tree, config: Config, content: string) {
    Shrunk(t[Final(config) := Bundle(config, content)], u, config.evaluatorId, config.version) && t'.Keys <= u.Keys
  }

  /** Every tree on disk at some moment during a Store that leads from t to t'. */
  ghost predicate StorePoint(t: Tree, u: Tree, t': Tree, config: Config, content: string, io: StoreIO) {
    BeforeSwap(t, u, config, io) || (StoreOk(t, config, io) && AfterSwap(t, u, t', config, content))
  }

  /** The trees every Store that gets so far passes through: the old target removed, and the final one. */
  ghost predicate Passes(t: Tree, u: Tree, t': Tree, config: Config, content: string, io: StoreIO) {
    || (Replaces(t, config, io) && Temp(config, io) != Final(config)
        && u == t[Temp(config, io) := Bundle(config, content)] - {Final(config)})
    || (StoreOk(t, config, io) && u == t')
  }

  /** The moments added to m left state.json as it was and only the temp directory differing from t. */
  ghost predicate OnlyTemp(m: set<Durable>, m': set<Durable>, file: Option<Snapshot>, t: Tree, tmp: Slot) {
    m <= m' && forall d :: d in m' && d !in m ==> d.file == file && d.tree - {tmp} == t - {tmp}
  }

  /** The moments added to m left state.json as it was, with trees shrinking from t to t'. */
  ghost predicate OnlyShrank(m: set<Durable>, m': set<Durable>, file: Option<Snapshot>, t: Tree, t': Tree,
                             evaluatorId: string, target: string) {
    m <= m' && forall d ::
        d in m' && d !in m ==> d.file == file && Shrunk(t, d.tree, evaluatorId, target) && t'.Keys <= d.tree.Keys
  }

  /** The moments added to m left state.json as it was, each tree a point of one Store from t to t'. */
  ghost predicate OnlyStored(m: set<Durable>, m': set<Durable>, file: Option<Snapshot>, t: Tree, t': Tree,
                             config: Config, content: string, io: StoreIO) {
    m <= m' && forall d :: d in m' && d !in m ==> d.file == file && StorePoint(t, d.tree, t', config, content, io)
  }

  /** Before the swap; whatever the Store leads to. */
  ghost predicate OnlyBefore(m: set<Durable>, m': set<Durable>, file: Option<Snapshot>, t: Tree, config: Config,
                             io: StoreIO) {
    m <= m' && forall d :: d in m' && d !in m ==> d.file == file && BeforeSwap(t, d.tree, config, io)
  }

  // ---------- Counting and sorting helpers ----------

  predicate Distinct(xs: seq<string>) {
    forall i, j :: 0 <= i < j < |xs| ==> xs[i] != xs[j]
  }

  function Names(xs: seq<string>): set<string> {
    set x | x in xs
  }

  lemma {:induction false} DistinctCount(xs: seq<string>)
    requires Distinct(xs)
    ensures |Names(xs)| == |xs|
  {
    if xs != [] {
      var rest := xs[..|xs| - 1];
      DistinctCount(rest);
      assert Names(xs) == Names(rest) + {xs[|xs| - 1]};
    }
  }

  lemma {:induction false} DistinctIffMultiplicity(xs: seq<string>)
    ensures Distinct(xs) <==> forall x :: multiset(xs)[x] <= 1
  {
    if xs != [] {
      var rest, last := xs[..|xs| - 1], xs[|xs| - 1];
      DistinctIffMultiplicity(rest);
      assert xs == rest + [last];
      assert multiset(xs) == multiset(rest) + multiset{last};
      if Distinct(xs) {
        assert last !in rest;
        assert multiset(rest)[last] == 0;
        forall x ensures multiset(xs)[x] <= 1 {
          assert multiset(rest)[x] <= 1;
        }
      } else if last in rest {
        assert multiset(rest)[last] >= 1;
        assert multiset(xs)[last] >= 2;
      } else {
        assert !Distinct(rest);
        var x :| multiset(rest)[x] > 1;
        assert multiset(xs)[x] > 1;
      }
    }
  }

  ghost predicate Sorted(xs: seq<string>, ts: map<string, int>) {
    forall i, j :: 0 <= i < j < |xs| ==> StampOf(ts, xs[i]) <= StampOf(ts, xs[j])
  }

  function Insert(xs: seq<string>, v: string, ts: map<string, int>): (r: seq<string>)
    ensures multiset(r) == multiset(xs) + multiset{v}
  {
    if xs == [] || StampOf(ts, xs[|xs| - 1]) <= StampOf(ts, v) then xs + [v]
    else
      assert xs == xs[..|xs| - 1] + [xs[|xs| - 1]];
      Insert(xs[..|xs| - 1], v, ts) + [xs[|xs| - 1]]
  }

  lemma {:induction false} InsertKeepsOrder(xs: seq<string>, v: string, ts: map<string, int>)
    requires Sorted(xs, ts)
    ensures Sorted(Insert(xs, v, ts), ts)
  {
    if xs != [] && StampOf(ts, xs[|xs| - 1]) > StampOf(ts, v) {
      var front, last := xs[..|xs| - 1], xs[|xs| - 1];
      var r := Insert(front, v, ts);
      InsertKeepsOrder(front, v, ts);
      forall i | 0 <= i < |r| ensures StampOf(ts, r[i]) <= StampOf(ts, last) {
        assert r[i] in multiset(r);
        assert r[i] in multiset(front) || r[i] == v;
      }
    }
  }

  /** Library sort: callers learn that the result is an ordered permutation, not how ties fall. */
  method SortByStamp(versions: seq<string>, ts: map<string, int>) returns (sorted: seq<string>)
    ensures multiset(sorted) == multiset(versions) && Sorted(sorted, ts)
    ensures forall i, j :: 0 <= i < j < |sorted| ==> NotNewer(ts, sorted[i], sorted[j])
  {
    sorted := [];
    for i := 0 to |versions|
      invariant multiset(sorted) == multiset(versions[..i]) && Sorted(sorted, ts)
    {
      assert versions[..i + 1] == versions[..i] + [versions[i]];
      InsertKeepsOrder(sorted, versions[i], ts);
      sorted := Insert(sorted, versions[i], ts);
    }
    assert versions[..|versions|] == versions;
  }

  // ---------- The cache object ----------

  class ComplypackCache {
    const store: Disk
    const state: State?
    const retentionCount: int

    constructor (store: Disk, state: State?, retentionCount: int)
      ensures this.store == store && this.state == state && this.retentionCount == retentionCount
    {
      this.store, this.state, this.retentionCount := store, state, retentionCount;
    }

    ghost function Known(): Option<Ledger>
      reads state
    {
      if state == null then None else Some(state.complypacks)
    }

    method LookupByDirScan(evaluatorId: string, scannable: bool) returns (r: LookupResult)
      ensures ScanAnswer(store.tree, scannable, evaluatorId, r)
    {
      if !scannable {
        return Failed;
      }
      var names := store.ReadDir(evaluatorId);
      for i := 0 to |names|
        invariant forall j :: 0 <= j < i ==> !ScanStop(store.tree, evaluatorId, names[j])
      {
        var s := Slot(evaluatorId, names[i]);
        if !IsDir(store.tree, s) || Hidden(names[i]) {
          continue;
        }
        if HasContent(store.tree, s) {
          if store.tree[s].config.Parsed? {
            return Hit(s, store.tree[s].config.config);
          }
          assert ScanStop(store.tree, evaluatorId, names[i]);
          return Failed;
        }
      }
      return Absent;
    }

    method LookupByEvaluatorID(evaluatorId: string, scannable: bool) returns (r: LookupResult)
      ensures LookupAnswer(store.tree, Known(), scannable, evaluatorId, r)
    {
      if ValidatePathComponent(evaluatorId).Some? {
        return Failed;
      }
      if state != null {
        var active := state.EvaluatorIDToVersion(evaluatorId);
        if active.Duplicate? {
          return Failed;
        }
        if active.At? {
          r := LookupVersion(store.tree, evaluatorId, active.version);
          if r.Hit? {
            assert ActiveOnDisk(store.tree, state.complypacks, evaluatorId, active.version);
            return;
          }
        }
        forall v | IsActive(state.complypacks, evaluatorId, At(v)) ensures active == At(v) {
          ActiveIsUnique(state.complypacks, evaluatorId, active, At(v));
        }
      }
      r := LookupByDirScan(evaluatorId, scannable);
    }

    /** One pass over the map, collecting for each version the stamp seen last. */
    method CollectStamps(evaluatorId: string) returns (ts: map<string, int>)
      requires state != null
      ensures Stamps(ts, state.complypacks, evaluatorId)
    {
      ts := map[];
      var led := state.complypacks;
      var rest := led.Keys;
      while rest != {}
        invariant rest <= led.Keys
        invariant forall v ::
            v in ts ==> exists r :: Tracks(led, r, evaluatorId) && led[r].version == v && led[r].lastUpdated == ts[v]
        invariant "" !in ts
        invariant forall r :: Tracks(led, r, evaluatorId) && led[r].version != "" ==> r in rest || led[r].version in ts
      {
        var r :| r in rest;
        rest := rest - {r};
        if led[r].evaluatorId == evaluatorId && led[r].version != "" {
          ts := ts[led[r].version := led[r].lastUpdated];
          assert Tracks(led, r, evaluatorId);
        }
      }
    }

    method RemoveVersions(evaluatorId: string, target: string, names: seq<string>, stuck: set<string>)
      requires Names(names) <= Candidates(store.tree, evaluatorId, target)
      modifies store
      ensures store.tree == Without(old(store.tree), evaluatorId, Names(names) - stuck) && store.file == old(store.file)
      ensures OnlyShrank(old(store.moments), store.moments, old(store.file), old(store.tree), store.tree, evaluatorId,
                         target)
      ensures Durable(old(store.tree), old(store.file)) in old(store.moments)
          ==> Durable(store.tree, store.file) in store.moments
    {
      ghost var t0 := store.tree;
      for i := 0 to |names|
        invariant store.tree == Without(t0, evaluatorId, Names(names[..i]) - stuck) && store.file == old(store.file)
        invariant OnlyShrank(old(store.moments), store.moments, old(store.file), t0, store.tree, evaluatorId, target)
        invariant Durable(t0, old(store.file)) in old(store.moments)
            ==> Durable(store.tree, store.file) in store.moments
      {
        ghost var done := Names(names[..i + 1]) - stuck;
        assert Names(names[..i + 1]) == Names(names[..i]) + {names[i]};
        if names[i] !in stuck {
          store.RemoveAll(Slot(evaluatorId, names[i]));
          assert store.tree == Without(t0, evaluatorId, done);
          assert done <= Names(names);
          RemovalShrinks(t0, evaluatorId, target, done);
        }
      }
      assert names[..|names|] == names;
    }

    /** Directory names under an evaluator that eviction considers. */
    method ListCandidates(evaluatorId: string, target: string) returns (names: seq<string>)
      ensures Names(names) == Candidates(store.tree, evaluatorId, target) && Distinct(names)
    {
      var all := store.ReadDir(evaluatorId);
      names := [];
      for i := 0 to |all|
        invariant Distinct(names)
        invariant forall n ::
            n in names <==> n in all[..i] && IsDir(store.tree, Slot(evaluatorId, n)) && !Hidden(n) && n != target
      {
        assert all[..i + 1] == all[..i] + [all[i]];
        if IsDir(store.tree, Slot(evaluatorId, all[i])) && !Hidden(all[i]) && all[i] != target {
          names := names + [all[i]];
        }
      }
      assert all[..|all|] == all;
    }

    /** Splits the candidates by whether the state tracks them. */
    method Partition(evaluatorId: string, candidates: seq<string>) returns (orphaned: seq<string>, tracked: seq<string>)
      requires state != null && Distinct(candidates)
      ensures Distinct(tracked)
      ensures Names(tracked) == TrackedAmong(Names(candidates), state.complypacks, evaluatorId)
      ensures Names(orphaned) == Names(candidates) - Names(tracked)
    {
      var stamps := CollectStamps(evaluatorId);
      orphaned, tracked := [], [];
      for i := 0 to |candidates|
        invariant Distinct(tracked)
        invariant forall n :: n in tracked <==> n in candidates[..i] && n in stamps
        invariant forall n :: n in orphaned <==> n in candidates[..i] && n !in stamps
      {
        assert candidates[..i + 1] == candidates[..i] + [candidates[i]];
        if candidates[i] in stamps {
          tracked := tracked + [candidates[i]];
        } else {
          orphaned := orphaned + [candidates[i]];
        }
      }
      assert candidates[..|candidates|] == candidates;
    }

    method EvictOldVersions(evaluatorId: string, target: string, io: StoreIO)
      modifies store
      ensures Evicted(old(store.tree), store.tree, evaluatorId, target, Known(), retentionCount, io)
      ensures store.file == old(store.file)
      ensures OnlyShrank(old(store.moments), store.moments, old(store.file), old(store.tree), store.tree, evaluatorId,
                         target)
      ensures Durable(old(store.tree), old(store.file)) in old(store.moments)
          ==> Durable(store.tree, store.file) in store.moments
    {
      if !io.listable {
        return;
      }
      var candidates := ListCandidates(evaluatorId, target);
      if state == null {
        RemoveVersions(evaluatorId, target, candidates, io.stuck);
        KeepNone(old(store.tree), evaluatorId, target, retentionCount, io);
        return;
      }
      EvictByState(evaluatorId, target, candidates, io);
    }

    /** What goes when there is a state: the untracked versions, and the oldest tracked ones beyond the limit. */
    method EvictByState(evaluatorId: string, target: string, candidates: seq<string>, io: StoreIO)
      requires state != null && io.listable
      requires Names(candidates) == Candidates(store.tree, evaluatorId, target) && Distinct(candidates)
      modifies store
      ensures Evicted(old(store.tree), store.tree, evaluatorId, target, Known(), retentionCount, io)
      ensures store.file == old(store.file)
      ensures OnlyShrank(old(store.moments), store.moments, old(store.file), old(store.tree), store.tree, evaluatorId,
                         target)
      ensures Durable(old(store.tree), old(store.file)) in old(store.moments)
          ==> Durable(store.tree, store.file) in store.moments
    {
      var orphaned, tracked := Partition(evaluatorId, candidates);
      var excess := ExcessVersions(evaluatorId, tracked);
      EvictTracked(evaluatorId, target, orphaned, excess, io.stuck);
      KeepRest(old(store.tree), evaluatorId, target, Known(), retentionCount, io, Names(orphaned), Names(excess));
    }

    /** Orphaned directories go first, then the excess. */
    method EvictTracked(evaluatorId: string, target: string, orphaned: seq<string>, excess: seq<string>,
                        stuck: set<string>)
      requires Names(orphaned) <= Candidates(store.tree, evaluatorId, target)
      requires Names(excess) <= Candidates(store.tree, evaluatorId, target) - Names(orphaned)
      modifies store
      ensures store.tree == Without(old(store.tree), evaluatorId, Names(orphaned) + Names(excess) - stuck)
      ensures store.file == old(store.file)
      ensures OnlyShrank(old(store.moments), store.moments, old(store.file), old(store.tree), store.tree, evaluatorId,
                         target)
      ensures Durable(old(store.tree), old(store.file)) in old(store.moments)
          ==> Durable(store.tree, store.file) in store.moments
    {
      ghost var t0 := store.tree;
      RemoveVersions(evaluatorId, target, orphaned, stuck);
      ghost var t1, m1 := store.tree, store.moments;
      RemovalShrinks(t0, evaluatorId, target, Names(orphaned) - stuck);
      RemainVersions(t0, evaluatorId, target, Names(orphaned) - stuck, Names(excess));
      RemoveVersions(evaluatorId, target, excess, stuck);
      ShrunkFurther(old(store.moments), m1, store.moments, store.file, t0, t1, store.tree, evaluatorId, target);
    }

    /** The tracked versions beyond the limit, oldest first. */
    method ExcessVersions(evaluatorId: string, tracked: seq<string>) returns (excess: seq<string>)
      requires state != null && Distinct(tracked)
      ensures Names(excess) <= Names(tracked)
      ensures Keeps(Names(tracked), Known(), evaluatorId, retentionCount, Names(tracked) - Names(excess))
    {
      if |tracked| <= Slots(retentionCount) {
        excess := [];
        KeepAll(tracked, state.complypacks, evaluatorId, retentionCount);
      } else {
        excess := OldestVersions(evaluatorId, tracked);
      }
    }

    method OldestVersions(evaluatorId: string, tracked: seq<string>) returns (oldest: seq<string>)
      requires state != null && Distinct(tracked) && |tracked| > Slots(retentionCount)
      ensures Names(oldest) <= Names(tracked)
      ensures Keeps(Names(tracked), Known(), evaluatorId, retentionCount, Names(tracked) - Names(oldest))
    {
      var ts := CollectStamps(evaluatorId);
      var sorted := SortByStamp(tracked, ts);
      KeepNewest(tracked, sorted, ts, state.complypacks, evaluatorId, retentionCount);
      oldest := sorted[..|tracked| - Slots(retentionCount)];
    }

    /** Writes content and config to a hidden directory, swaps it in by rename, then evicts. */
    method Store(config: Config, content: string, io: StoreIO) returns (ok: bool)
      requires config.evaluatorId != "." && config.version != "."
      modifies store
      ensures ok == StoreOk(old(store.tree), config, io)
      ensures StoreStep(old(store.tree), store.tree, Known(), retentionCount, config, content, io)
      ensures store.file == old(store.file)
      ensures OnlyStored(old(store.moments), store.moments, old(store.file), old(store.tree), store.tree, config,
                         content, io)
      ensures forall u ::
                Passes(old(store.tree), u, store.tree, config, content, io) ==> Durable(u, store.file) in store.moments
    {
      if ValidatePathComponent(config.evaluatorId).Some? || ValidatePathComponent(config.version).Some? {
        return false;
      }
      var final, tmp := Final(config), Temp(config, io);
      if io.fault in {MkdirFails, TempFails} || tmp in store.tree {
        return false;
      }
      ghost var t0, m0 := store.tree, store.moments;
      var filled := Fill(config, content, io);
      ghost var m1 := store.moments;
      TempPoints(m0, m1, store.file, t0, config, io);
      if !filled {
        return false;
      }
      store.RemoveAll(final);
      ghost var m2 := store.moments;
      RemovedPoint(t0, store.tree, config, io);
      assert OnlyBefore(m0, m2, store.file, t0, config, io);
      if io.fault.RenameFails? || tmp !in store.tree {
        CleanUp(tmp, io.cleanup);
        RemovedPoint(t0, store.tree, config, io);
        assert store.tree == (if io.cleanup then t0 else t0[tmp := Bundle(config, content)]) - {final};
        return false;
      }
      store.Rename(tmp, final);
      ghost var t1, m3 := store.tree, store.moments;
      assert t1 == t0[final := Bundle(config, content)];
      EvictOldVersions(config.evaluatorId, config.version, io);
      EvictionPoints(m2, m3, store.moments, store.file, t0, t1, store.tree, config, content, io);
      return true;
    }

    /** Writes both files to the temp directory; on failure removes it again. */
    method Fill(config: Config, content: string, io: StoreIO) returns (ok: bool)
      requires Temp(config, io) !in store.tree && io.fault !in {MkdirFails, TempFails}
      modifies store
      ensures ok == (io.fault in {NoFault, RenameFails}) && store.file == old(store.file)
      ensures store.tree == if ok || !io.cleanup
                            then old(store.tree)[Temp(config, io) := Leftover(config, content, io.fault)]
                            else old(store.tree)
      ensures OnlyTemp(old(store.moments), store.moments, old(store.file), old(store.tree), Temp(config, io))
    {
      ghost var t0 := store.tree;
      var tmp := Temp(config, io);
      store.Write(tmp, Dir(None, NoConfig));
      if io.fault.ContentFails? {
        store.Write(tmp, Dir(io.fault.partial, NoConfig));
      } else {
        store.Write(tmp, Dir(Some(content), NoConfig));
        if !io.fault.ConfigFails? {
          store.Write(tmp, Bundle(config, content));
        }
      }
      ok := io.fault.NoFault? || io.fault.RenameFails?;
      if !ok {
        CleanUp(tmp, io.cleanup);
        assert io.cleanup ==> store.tree == t0;
      }
    }

    method CleanUp(tmp: Slot, removable: bool)
      modifies store
      ensures store.tree == if removable then old(store.tree) - {tmp} else old(store.tree)
      ensures store.file == old(store.file)
      ensures old(store.moments) <= store.moments <= old(store.moments) + {Durable(store.tree, store.file)}
    {
      if removable {
        store.RemoveAll(tmp);
      }
    }
  }

  lemma TempPoints(m: set<Durable>, m': set<Durable>, file: Option<Snapshot>, t: Tree, config: Config, io: StoreIO)
    requires OnlyTemp(m, m', file, t, Temp(config, io))
    ensures OnlyBefore(m, m', file, t, config, io)
  {
    forall d | d in m' && d !in m ensures BeforeSwap(t, d.tree, config, io) {
      forall s | s != Temp(config, io) ensures SameAt(t, d.tree, s) {
        assert s in t <==> s in t - {Temp(config, io)};
        assert s in d.tree <==> s in d.tree - {Temp(config, io)};
      }
    }
  }

  /** Once the old target is gone: before the swap only the temp directory differs besides. */
  lemma RemovedPoint(t: Tree, u: Tree, config: Config, io: StoreIO)
    requires u - {Temp(config, io)} == t - {Temp(config, io), Final(config)} && Replaces(t, config, io)
    ensures BeforeSwap(t, u, config, io)
  {
    forall s | s != Temp(config, io) ensures SameAt(t, u, s) || (s == Final(config) && s !in u) {
      assert s in u <==> s in u - {Temp(config, io)};
      assert s in t && s != Final(config) <==> s in t - {Temp(config, io), Final(config)};
    }
  }

  /** The swap and the eviction after it pass only through complete-target moments. */
  lemma EvictionPoints(m: set<Durable>, m1: set<Durable>, m2: set<Durable>, file: Option<Snapshot>, t: Tree, t1: Tree,
                       t': Tree,
                       config: Config, content: string, io: StoreIO)
    requires StoreOk(t, config, io) && t1 == t[Final(config) := Bundle(config, content)]
    requires m <= m1 && forall d :: d in m1 && d !in m ==> d == Durable(t1, file)
    requires OnlyShrank(m1, m2, file, t1, t', config.evaluatorId, config.version) && t'.Keys <= t1.Keys
    ensures OnlyStored(m, m2, file, t, t', config, content, io)
  {
    assert Shrunk(t1, t1, config.evaluatorId, config.version);
  }

  lemma RemovalShrinks(t: Tree, evaluatorId: string, target: string, names: set<string>)
    requires names <= Candidates(t, evaluatorId, target)
    ensures Shrunk(t, Without(t, evaluatorId, names), evaluatorId, target)
  {
    forall s ensures SameAt(t, Without(t, evaluatorId, names), s)
                     || (s !in Without(t, evaluatorId, names) && IsDir(t, s) && s.evaluator == evaluatorId
                         && !Hidden(s.name) && s.name != target)
    {
      if s.evaluator == evaluatorId && s.name in names {
        assert s == Slot(evaluatorId, s.name);
      }
    }
  }

  /** Versions selected for removal are still there after other versions went. */
  lemma RemainVersions(t: Tree, evaluatorId: string, target: string, gone: set<string>, names: set<string>)
    requires gone !! names && names <= Candidates(t, evaluatorId, target)
    ensures names <= Candidates(Without(t, evaluatorId, gone), evaluatorId, target)
  {
  }

  lemma ShrunkFurther(m: set<Durable>, m1: set<Durable>, m2: set<Durable>, file: Option<Snapshot>,
                      t: Tree, t1: Tree, t2: Tree, evaluatorId: string, target: string)
    requires OnlyShrank(m, m1, file, t, t1, evaluatorId, target)
    requires OnlyShrank(m1, m2, file, t1, t2, evaluatorId, target)
    requires Shrunk(t, t1, evaluatorId, target) && t2.Keys <= t1.Keys
    ensures OnlyShrank(m, m2, file, t, t2, evaluatorId, target)
  {
    forall d | d in m2 && d !in m
      ensures d.file == file && Shrunk(t, d.tree, evaluatorId, target) && t2.Keys <= d.tree.Keys
    {
      if d !in m1 {
        ShrunkTrans(t, t1, d.tree, evaluatorId, target);
      }
    }
  }

  lemma ShrunkTrans(t: Tree, t1: Tree, t2: Tree, evaluatorId: string, target: string)
    requires Shrunk(t, t1, evaluatorId, target) && Shrunk(t1, t2, evaluatorId, target)
    ensures Shrunk(t, t2, evaluatorId, target)
  {
    forall s
      ensures SameAt(t, t2, s)
          || (s !in t2 && IsDir(t, s) && s.evaluator == evaluatorId && !Hidden(s.name) && s.name != target)
    {
      assert SameAt(t, t1, s) || s !in t1;
      assert SameAt(t1, t2, s) || s !in t2;
    }
  }

  lemma KeepNone(t: Tree, evaluatorId: string, target: string, retention: int, io: StoreIO)
    requires io.listable
    ensures Evicted(t, Without(t, evaluatorId, Candidates(t, evaluatorId, target) - io.stuck), evaluatorId, target,
                    None, retention, io)
  {
    var candidates := Candidates(t, evaluatorId, target);
    assert Keeps({}, None, evaluatorId, retention, {});
    assert candidates - io.stuck == candidates - {} - io.stuck;
  }

  /** Removing the untracked versions and an excess of the tracked ones is one eviction. */
  lemma KeepRest(t: Tree, evaluatorId: string, target: string, state: Option<Ledger>, retention: int, io: StoreIO,
                 orphaned: set<string>, excess: set<string>)
    requires io.listable
    requires var candidates := Candidates(t, evaluatorId, target);
             var tracked := Tracked(candidates, state, evaluatorId);
             && orphaned == candidates - tracked && excess <= tracked
             && Keeps(tracked, state, evaluatorId, retention, tracked - excess)
    ensures Evicted(t, Without(t, evaluatorId, orphaned + excess - io.stuck), evaluatorId, target, state, retention, io)
  {
    var candidates := Candidates(t, evaluatorId, target);
    var tracked := Tracked(candidates, state, evaluatorId);
    var kept := tracked - excess;
    assert orphaned + excess - io.stuck == candidates - kept - io.stuck;
    assert Keeps(tracked, state, evaluatorId, retention, kept)
        && Without(t, evaluatorId, orphaned + excess - io.stuck)
           == Without(t, evaluatorId, candidates - kept - io.stuck);
  }

  lemma KeepAll(tracked: seq<string>, led: Ledger, evaluatorId: string, retention: int)
    requires Distinct(tracked) && |tracked| <= Slots(retention)
    ensures Keeps(Names(tracked), Some(led), evaluatorId, retention, Names(tracked) - Names([]))
  {
    DistinctCount(tracked);
    assert Names([]) == {};
    assert Names(tracked) - {} == Names(tracked);
  }

  lemma KeepNewest(tracked: seq<string>, sorted: seq<string>, ts: map<string, int>, led: Ledger, evaluatorId: string,
                   retention: int)
    requires Distinct(tracked) && |tracked| > Slots(retention)
    requires multiset(sorted) == multiset(tracked) && Sorted(sorted, ts) && Stamps(ts, led, evaluatorId)
    ensures |sorted| == |tracked|
    ensures var oldest := Names(sorted[..|tracked| - Slots(retention)]);
            oldest <= Names(tracked)
                && Keeps(Names(tracked), Some(led), evaluatorId, retention, Names(tracked) - oldest)
  {
    DistinctCount(tracked);
    OldestFirst(tracked, sorted, ts, |tracked| - Slots(retention));
    var oldest := Names(sorted[..|tracked| - Slots(retention)]);
    assert Names(tracked) - (Names(tracked) - oldest) == oldest;
    assert OldestGo(Names(tracked) - oldest, oldest, Some(led), evaluatorId);
  }

  /** The first entries of an ordered permutation: how many remain, and that none of those is older. */
  lemma OldestFirst(tracked: seq<string>, sorted: seq<string>, ts: map<string, int>, count: nat)
    requires Distinct(tracked) && multiset(sorted) == multiset(tracked) && Sorted(sorted, ts) && count <= |tracked|
    ensures |sorted| == |tracked| && Names(sorted[..count]) <= Names(tracked)
    ensures |Names(tracked) - Names(sorted[..count])| == |tracked| - count
    ensures NoneOlder(Names(tracked) - Names(sorted[..count]), Names(sorted[..count]), ts)
  {
    DistinctIffMultiplicity(tracked);
    DistinctIffMultiplicity(sorted);
    assert |sorted| == |multiset(sorted)| == |multiset(tracked)| == |tracked|;
    var oldest, kept := sorted[..count], sorted[count..];
    assert sorted == oldest + kept;
    forall x ensures x in sorted <==> x in tracked {
      assert x in sorted <==> x in multiset(sorted);
      assert x in tracked <==> x in multiset(tracked);
    }
    assert Names(tracked) - Names(oldest) == Names(kept);
    DistinctCount(kept);
  }
}
