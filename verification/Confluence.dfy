/** Syncing a list of complypacks: independent entries commute, so the list order does not matter. */
module Confluence {
  import opened Naming
  import opened Storage
  import opened SyncState
  import opened Cache
  import opened Sync
  import opened SyncTheorems

  /** One entry of the list with what the outside answers and the result its sync returns. */
  datatype Item = Item(c: Setup, repository: string, requested: string, a: Answers, r: SyncResult)

  ghost predicate Done(w: World, x: Item, w': World) {
    SyncStep(x.c, w, x.repository, x.requested, x.a, w', x.r)
  }

  /** Both saves of the call would succeed. */
  predicate Saving(x: Item) {
    x.a.saveHit && x.a.saveFetch
  }

  /** The evaluators a call can look at or write below: the recorded one and the one the registry serves. */
  function Evaluators(w: World, x: Item): set<string> {
    (if x.repository in w.mem then {w.mem[x.repository].evaluatorId} else {}) + Served(x)
  }

  function Served(x: Item): set<string> {
    match Handed(x.repository, x.requested, x.a)
    case Unpacked(config, _) => {config.evaluatorId}
    case _ => {}
  }

  ghost predicate SameTracking(led: Ledger, led': Ledger, evaluatorId: string) {
    forall r :: (Tracks(led, r, evaluatorId) <==> Tracks(led', r, evaluatorId))
             && (Tracks(led, r, evaluatorId) ==> led[r] == led'[r])
  }

  ghost predicate SameBelow(t: Tree, t': Tree, evaluators: set<string>) {
    forall s: Slot :: s.evaluator in evaluators ==> SameAt(t, t', s)
  }

  /** Two worlds look the same to a call. */
  ghost predicate SameView(w: World, v: World, x: Item) {
    && (x.repository in w.mem <==> x.repository in v.mem)
    && (x.repository in w.mem ==> w.mem[x.repository] == v.mem[x.repository])
    && (forall e :: e in Evaluators(w, x) ==> SameTracking(w.mem, v.mem, e))
    && SameBelow(w.disk, v.disk, Evaluators(w, x))
  }

  /** base with everything below the given evaluators taken from part. */
  function Graft(base: Tree, part: Tree, evaluators: set<string>): (r: Tree)
    ensures forall s: Slot :: SameAt(r, if s.evaluator in evaluators then part else base, s)
  {
    map s | s in base.Keys + part.Keys && (if s.evaluator in evaluators then s in part else s in base)
      :: if s.evaluator in evaluators then part[s] else base[s]
  }

  function Updated(led: Ledger, from: Ledger, repository: string): Ledger {
    if repository in from then led[repository := from[repository]] else led
  }

  /** v after the call that took w to w'. */
  function Splice(v: World, w: World, x: Item, w': World): World {
    var mem := Updated(v.mem, w'.mem, x.repository);
    World(Graft(v.disk, w'.disk, Evaluators(w, x)), mem, if x.r == Synced(true) then mem else v.saved)
  }

  // ---------- Locality ----------

  lemma LookupIsLocal(t: Tree, u: Tree, led: Ledger, led': Ledger, scannable: bool, evaluatorId: string,
                      r: LookupResult)
    requires SameTracking(led, led', evaluatorId) && SameBelow(t, u, {evaluatorId})
    requires LookupAnswer(t, Some(led), scannable, evaluatorId, r)
    ensures LookupAnswer(u, Some(led'), scannable, evaluatorId, r)
  {
    forall n
      ensures SameAt(t, u, Slot(evaluatorId, n)) && (ScanStop(t, evaluatorId, n) <==> ScanStop(u, evaluatorId, n))
    {
      assert SameAt(t, u, Slot(evaluatorId, n));
    }
    forall v ensures IsActive(led, evaluatorId, At(v)) <==> IsActive(led', evaluatorId, At(v)) {
      assert forall o :: SoleOwner(led, evaluatorId, o) <==> SoleOwner(led', evaluatorId, o);
    }
    forall v ensures ActiveOnDisk(t, led, evaluatorId, v) <==> ActiveOnDisk(u, led', evaluatorId, v)
             ensures LookupVersion(t, evaluatorId, v) == LookupVersion(u, evaluatorId, v)
    {
      assert SameAt(t, u, Slot(evaluatorId, v));
    }
    assert Shared(led, evaluatorId) <==> Shared(led', evaluatorId);
    if SafeName(evaluatorId) && !Shared(led, evaluatorId) && !(exists v :: ActiveOnDisk(t, led, evaluatorId, v)) {
      ScanIsLocal(t, u, scannable, evaluatorId, r);
    }
  }

  lemma ScanIsLocal(t: Tree, u: Tree, scannable: bool, evaluatorId: string, r: LookupResult)
    requires SameBelow(t, u, {evaluatorId}) && ScanAnswer(t, scannable, evaluatorId, r)
    ensures ScanAnswer(u, scannable, evaluatorId, r)
  {
    forall n ensures ScanStop(t, evaluatorId, n) <==> ScanStop(u, evaluatorId, n)
             ensures Whole(t, Slot(evaluatorId, n)) <==> Whole(u, Slot(evaluatorId, n))
    {
      assert SameAt(t, u, Slot(evaluatorId, n));
    }
    if r.Hit? {
      assert SameAt(t, u, r.slot);
    }
  }

  lemma PresenceIsLocal(t: Tree, u: Tree, led: Ledger, led': Ledger, scannable: bool, ps: PolicyState)
    requires SameTracking(led, led', ps.evaluatorId) && SameBelow(t, u, {ps.evaluatorId})
    ensures MayExist(t, led, scannable, ps) ==> MayExist(u, led', scannable, ps)
    ensures MayBeMissing(t, led, scannable, ps) ==> MayBeMissing(u, led', scannable, ps)
  {
    forall r | LookupAnswer(t, Some(led), scannable, ps.evaluatorId, r)
      ensures LookupAnswer(u, Some(led'), scannable, ps.evaluatorId, r)
    {
      LookupIsLocal(t, u, led, led', scannable, ps.evaluatorId, r);
    }
  }

  lemma KeepsIsLocal(led: Ledger, led': Ledger, evaluatorId: string, candidates: set<string>, retention: int,
                     kept: set<string>)
    requires SameTracking(led, led', evaluatorId)
    requires Keeps(Tracked(candidates, Some(led), evaluatorId), Some(led), evaluatorId, retention, kept)
    ensures Tracked(candidates, Some(led), evaluatorId) == Tracked(candidates, Some(led'), evaluatorId)
    ensures Keeps(Tracked(candidates, Some(led'), evaluatorId), Some(led'), evaluatorId, retention, kept)
  {
    assert forall v :: TrackedVersion(led, evaluatorId, v) <==> TrackedVersion(led', evaluatorId, v);
    var tracked := Tracked(candidates, Some(led), evaluatorId);
    assert tracked == Tracked(candidates, Some(led'), evaluatorId);
    if tracked - kept != {} {
      var ts :| Stamps(ts, led, evaluatorId) && NoneOlder(kept, tracked - kept, ts);
      StampsAreLocal(led, led', evaluatorId, ts);
    }
  }

  lemma StampsAreLocal(led: Ledger, led': Ledger, evaluatorId: string, ts: map<string, int>)
    requires SameTracking(led, led', evaluatorId) && Stamps(ts, led, evaluatorId)
    ensures Stamps(ts, led', evaluatorId)
  {
    forall v | v in ts
      ensures exists r :: Tracks(led', r, evaluatorId) && led'[r].version == v && led'[r].lastUpdated == ts[v]
    {
      var r :| Tracks(led, r, evaluatorId) && led[r].version == v && led[r].lastUpdated == ts[v];
      assert Tracks(led', r, evaluatorId);
    }
    assert forall v :: TrackedVersion(led, evaluatorId, v) <==> TrackedVersion(led', evaluatorId, v);
  }

  lemma EvictionIsLocal(t: Tree, t': Tree, u: Tree, led: Ledger, led': Ledger, evaluatorId: string, target: string,
                        retention: int,
                        io: StoreIO, evaluators: set<string>)
    requires Evicted(t, t', evaluatorId, target, Some(led), retention, io)
    requires evaluatorId in evaluators && SameBelow(t, u, evaluators) && SameTracking(led, led', evaluatorId)
    ensures Evicted(u, Graft(u, t', evaluators), evaluatorId, target, Some(led'), retention, io)
  {
    var candidates := Candidates(t, evaluatorId, target);
    forall n ensures n in candidates <==> n in Candidates(u, evaluatorId, target) {
      assert SameAt(t, u, Slot(evaluatorId, n));
    }
    assert candidates == Candidates(u, evaluatorId, target);
    if io.listable {
      var kept :| Keeps(Tracked(candidates, Some(led), evaluatorId), Some(led), evaluatorId, retention, kept)
               && t' == Without(t, evaluatorId, candidates - kept - io.stuck);
      KeepsIsLocal(led, led', evaluatorId, candidates, retention, kept);
      GraftOfRemoval(t, u, evaluatorId, candidates - kept - io.stuck, evaluators);
    } else {
      GraftOfRemoval(t, u, evaluatorId, {}, evaluators);
      assert Without(t, evaluatorId, {}) == t && Without(u, evaluatorId, {}) == u;
    }
  }

  lemma GraftOfRemoval(t: Tree, u: Tree, evaluatorId: string, gone: set<string>, evaluators: set<string>)
    requires evaluatorId in evaluators && SameBelow(t, u, evaluators)
    ensures Graft(u, Without(t, evaluatorId, gone), evaluators) == Without(u, evaluatorId, gone)
  {
    var left, right := Graft(u, Without(t, evaluatorId, gone), evaluators), Without(u, evaluatorId, gone);
    forall s ensures SameAt(left, right, s) {
      assert SameAt(left, if s.evaluator in evaluators then Without(t, evaluatorId, gone) else u, s);
      assert s.evaluator in evaluators ==> SameAt(t, u, s);
    }
    SameTrees(left, right);
  }

  lemma SameTrees(t: Tree, u: Tree)
    requires forall s :: SameAt(t, u, s)
    ensures t == u
  {
    assert t.Keys == u.Keys by {
      forall s ensures s in t <==> s in u { assert SameAt(t, u, s); }
    }
    forall s | s in t ensures t[s] == u[s] { assert SameAt(t, u, s); }
  }

  lemma GraftOfUpdate(t: Tree, u: Tree, s: Slot, e: Entry, evaluators: set<string>)
    requires s.evaluator in evaluators && SameBelow(t, u, evaluators)
    ensures SameBelow(t[s := e], u[s := e], evaluators)
    ensures Graft(u, t[s := e], evaluators) == u[s := e]
    ensures Graft(u, t - {s}, evaluators) == u - {s}
    ensures Graft(u, t, evaluators) == u
  {
    GraftOfOne(t, u, s, e, evaluators);
    GraftWithoutOne(t, u, s, evaluators);
    SameTrees(Graft(u, t, evaluators), u);
  }

  lemma GraftOfOne(t: Tree, u: Tree, s: Slot, e: Entry, evaluators: set<string>)
    requires s.evaluator in evaluators && SameBelow(t, u, evaluators)
    ensures SameBelow(t[s := e], u[s := e], evaluators)
    ensures Graft(u, t[s := e], evaluators) == u[s := e]
  {
    forall x: Slot ensures x.evaluator in evaluators ==> SameAt(t, u, x) {}
    SameTrees(Graft(u, t[s := e], evaluators), u[s := e]);
  }

  lemma GraftWithoutOne(t: Tree, u: Tree, s: Slot, evaluators: set<string>)
    requires s.evaluator in evaluators && SameBelow(t, u, evaluators)
    ensures Graft(u, t - {s}, evaluators) == u - {s}
  {
    forall x: Slot ensures x.evaluator in evaluators ==> SameAt(t, u, x) {}
    SameTrees(Graft(u, t - {s}, evaluators), u - {s});
  }

  lemma GraftAgain(u: Tree, u1: Tree, t: Tree, evaluators: set<string>)
    requires forall s: Slot :: s.evaluator !in evaluators ==> SameAt(u, u1, s)
    ensures Graft(u1, t, evaluators) == Graft(u, t, evaluators)
  {
    SameTrees(Graft(u1, t, evaluators), Graft(u, t, evaluators));
  }

  lemma StoreIsLocal(t: Tree, t': Tree, u: Tree, led: Ledger, led': Ledger, retention: int, config: Config,
                     content: string,
                     io: StoreIO, evaluators: set<string>)
    requires StoreStep(t, t', Some(led), retention, config, content, io)
    requires config.evaluatorId in evaluators && SameBelow(t, u, evaluators)
    requires SameTracking(led, led', config.evaluatorId)
    ensures StoreOk(t, config, io) == StoreOk(u, config, io)
    ensures StoreStep(u, Graft(u, t', evaluators), Some(led'), retention, config, content, io)
  {
    var tmp, final := Temp(config, io), Final(config);
    assert SameAt(t, u, tmp);
    GraftOfUpdate(t, u, final, Bundle(config, content), evaluators);
    if StoreOk(t, config, io) {
      var t1, u1 := t[final := Bundle(config, content)], u[final := Bundle(config, content)];
      EvictionIsLocal(t1, t', u1, led, led', config.evaluatorId, config.version, retention, io, evaluators);
      GraftAgain(u, u1, t', evaluators);
    } else {
      var left := Leftover(config, content, io.fault);
      GraftOfUpdate(t, u, tmp, left, evaluators);
      GraftOfUpdate(t[tmp := left], u[tmp := left], final, left, evaluators);
      GraftAgain(u, u[tmp := left], t[tmp := left] - {final}, evaluators);
    }
  }

  // ---------- One call is local ----------

  lemma FetchIsLocal(x: Item, w: World, w': World, v: World, version: string, digest: string, reference: string,
                     evaluators: set<string>)
    requires FetchStep(x.c, w, x.repository, version, digest, reference, x.a, w', x.r) && Saving(x)
    requires x.a.copy(x.repository, version).Unpacked?
        ==> x.a.copy(x.repository, version).config.evaluatorId in evaluators
    requires (x.repository in w.mem <==> x.repository in v.mem)
    requires (x.repository in w.mem ==> w.mem[x.repository] == v.mem[x.repository])
    requires forall e :: e in evaluators ==> SameTracking(w.mem, v.mem, e)
    requires SameBelow(w.disk, v.disk, evaluators)
    ensures var mem := Updated(v.mem, w'.mem, x.repository);
            FetchStep(x.c, v, x.repository, version, digest, reference, x.a,
                      World(Graft(v.disk, w'.disk, evaluators), mem, if x.r == Synced(true) then mem else v.saved), x.r)
  {
    var mem := Updated(v.mem, w'.mem, x.repository);
    var answer := x.a.copy(x.repository, version);
    if w' == w {
      assert mem == v.mem;
      SameTrees(Graft(v.disk, w.disk, evaluators), v.disk);
    }
    if answer.Unpacked? && x.r !in {Fail(VerificationFailed), Fail(TempStore)} {
      StoreIsLocal(w.disk, w'.disk, v.disk, w.mem, v.mem, x.c.retention, answer.config, answer.content, x.a.io,
                   evaluators);
      assert w'.mem == w.mem ==> mem == v.mem;
    }
  }

  /** A call does to any world that looks the same to it what it did to this one. */
  lemma CallIsLocal(w: World, x: Item, w': World, v: World)
    requires Done(w, x, w') && Saving(x) && SameView(w, v, x)
    ensures Done(v, x, Splice(v, w, x, w'))
  {
    var v' := Splice(v, w, x, w');
    if x.repository in w.mem {
      var ps := w.mem[x.repository];
      assert ps.evaluatorId in Evaluators(w, x);
      PresenceIsLocal(w.disk, v.disk, w.mem, v.mem, x.a.scannable, ps);
      PresenceIsLocal(v.disk, w.disk, v.mem, w.mem, x.a.scannable, ps);
    }
    if w' == w {
      SpliceOfNothing(w, x, v);
    }
    var remote := x.a.definition(ReferenceFor("", x.repository, x.requested));
    if x.repository != "" && !(x.c.verifying && x.c.host == "") && remote.Some? && x.r != Synced(false) {
      RefreshIsLocal(w, x, w', v, remote.value.0, ResolveVersion(x.requested, remote.value.1));
    }
  }

  lemma SpliceOfNothing(w: World, x: Item, v: World)
    requires SameView(w, v, x)
    ensures x.r != Synced(true) ==> Splice(v, w, x, w) == v
  {
    SameTrees(Graft(v.disk, w.disk, Evaluators(w, x)), v.disk);
    assert x.repository in w.mem ==> v.mem[x.repository := w.mem[x.repository]] == v.mem;
  }

  lemma RefreshIsLocal(w: World, x: Item, w': World, v: World, digest: string, target: string)
    requires Saving(x) && SameView(w, v, x)
    requires x.a.definition(ReferenceFor("", x.repository, x.requested)).Some?
    requires target == ResolveVersion(x.requested, x.a.definition(ReferenceFor("", x.repository, x.requested)).value.1)
    requires RefreshStep(x.c, w, x.repository, target, digest, ReferenceFor(x.c.host, x.repository, x.requested), x.a,
                         w', x.r)
    ensures RefreshStep(x.c, v, x.repository, target, digest, ReferenceFor(x.c.host, x.repository, x.requested), x.a,
                        Splice(v, w, x, w'), x.r)
  {
    var reference := ReferenceFor(x.c.host, x.repository, x.requested);
    if x.repository in w.mem {
      assert SameAt(w.disk, v.disk, Slot(w.mem[x.repository].evaluatorId, target));
    }
    assert ServesFromCache(x.c, w, x.repository, target, digest, reference, x.a)
      <==> ServesFromCache(x.c, v, x.repository, target, digest, reference, x.a);
    if ServesFromCache(x.c, w, x.repository, target, digest, reference, x.a) {
      SameTrees(Graft(v.disk, w.disk, Evaluators(w, x)), v.disk);
    } else {
      FetchIsLocal(x, w, w', v, target, digest, reference, Evaluators(w, x));
    }
  }

  /** Only one entry differs, and none is lost. */
  ghost predicate SameExcept(led: Ledger, led': Ledger, repository: string) {
    && (repository in led ==> repository in led')
    && forall r :: r != repository ==> (r in led <==> r in led') && (r in led ==> led[r] == led'[r])
  }

  /** What a call changes lies within its evaluators and its own entry; entries change only together with a save. */
  ghost predicate Framed(w: World, x: Item, w': World) {
    && SameExcept(w.mem, w'.mem, x.repository)
    && (w'.mem != w.mem ==> x.repository in w'.mem && w'.mem[x.repository].evaluatorId in Evaluators(w, x))
    && (forall s: Slot :: s.evaluator !in Evaluators(w, x) ==> SameAt(w.disk, w'.disk, s))
    && if x.r == Synced(true) then w'.saved == w'.mem else w'.saved == w.saved && w'.mem == w.mem
  }

  lemma DiskFrame(w: World, x: Item, w': World)
    requires Done(w, x, w')
    ensures forall s: Slot :: s.evaluator !in Evaluators(w, x) ==> SameAt(w.disk, w'.disk, s)
  {
    OutcomeFrame(x.c, w, x.repository, x.requested, x.a, w', x.r);
  }

  lemma CallFrame(w: World, x: Item, w': World)
    requires Done(w, x, w') && Saving(x)
    ensures Framed(w, x, w')
  {
    DiskFrame(w, x, w');
  }

  /** A call over other evaluators and another repository does not change what y sees. */
  lemma ViewKept(w: World, x: Item, w': World, y: Item)
    requires Done(w, x, w') && Saving(x) && x.repository != y.repository && Evaluators(w, x) !! Evaluators(w, y)
    ensures Evaluators(w', y) == Evaluators(w, y)
    ensures SameView(w, w', y) && SameView(w', w, y)
  {
    CallFrame(w, x, w');
    forall e | e in Evaluators(w, y) ensures SameTracking(w.mem, w'.mem, e) && SameTracking(w'.mem, w.mem, e) {
      forall r ensures Tracks(w.mem, r, e) <==> Tracks(w'.mem, r, e) {
        if r == x.repository {
          assert r in w.mem ==> w.mem[r].evaluatorId in Evaluators(w, x);
        }
      }
    }
    assert SameBelow(w.disk, w'.disk, Evaluators(w, y)) by {
      forall s: Slot | s.evaluator in Evaluators(w, y) ensures SameAt(w.disk, w'.disk, s) {}
    }
  }

  /** Calls on distinct repositories with disjoint evaluators commute: same disk, entries, saved entries and results. */
  lemma CallsCommute(w: World, x: Item, w1: World, y: Item, w2: World) returns (v1: World)
    requires Done(w, x, w1) && Done(w1, y, w2) && Saving(x) && Saving(y)
    requires x.repository != y.repository && Evaluators(w, x) !! Evaluators(w, y)
    ensures Done(w, y, v1) && Done(v1, x, w2)
  {
    ViewKept(w, x, w1, y);
    v1 := Splice(w, w1, y, w2);
    CallIsLocal(w1, y, w2, w);
    ViewKept(w, y, v1, x);
    CallIsLocal(w, x, w1, v1);
    CallFrame(w, x, w1);
    CallFrame(w1, y, w2);
    SplicesMeet(w, x, w1, y, w2, v1);
  }

  lemma SplicesMeet(w: World, x: Item, w1: World, y: Item, w2: World, v1: World)
    requires Framed(w, x, w1) && Framed(w1, y, w2)
    requires x.repository != y.repository && Evaluators(w, x) !! Evaluators(w, y)
    requires Evaluators(w1, y) == Evaluators(w, y)
    requires v1 == Splice(w, w1, y, w2)
    ensures Splice(v1, w, x, w1) == w2
  {
    GraftsMeet(w.disk, w1.disk, w2.disk, Evaluators(w, x), Evaluators(w, y));
    UpdatesMeet(w.mem, w1.mem, w2.mem, x.repository, y.repository);
  }

  lemma UpdatesMeet(led: Ledger, led1: Ledger, led2: Ledger, x: string, y: string)
    requires x != y && SameExcept(led, led1, x) && SameExcept(led1, led2, y)
    ensures Updated(Updated(led, led2, y), led1, x) == led2
  {
    var left := Updated(Updated(led, led2, y), led1, x);
    forall r ensures (r in left <==> r in led2) && (r in left ==> left[r] == led2[r]) {}
    SameLedgers(left, led2);
  }

  lemma GraftsMeet(t: Tree, t1: Tree, t2: Tree, xs: set<string>, ys: set<string>)
    requires xs !! ys
    requires forall s: Slot :: s.evaluator !in xs ==> SameAt(t, t1, s)
    requires forall s: Slot :: s.evaluator !in ys ==> SameAt(t1, t2, s)
    ensures Graft(Graft(t, t2, ys), t1, xs) == t2
  {
    var u := Graft(t, t2, ys);
    forall s: Slot ensures SameAt(Graft(u, t1, xs), t2, s) {
      assert SameAt(u, if s.evaluator in ys then t2 else t, s);
      assert SameAt(Graft(u, t1, xs), if s.evaluator in xs then t1 else u, s);
    }
    SameTrees(Graft(u, t1, xs), t2);
  }

  lemma SameLedgers(l: Ledger, m: Ledger)
    requires forall r :: (r in l <==> r in m) && (r in l ==> l[r] == m[r])
    ensures l == m
  {
  }

  // ---------- Lists ----------

  /** The loop over the configured complypacks: every entry is attempted, whatever the others return. */
  ghost predicate SyncAll(w: World, items: seq<Item>, w': World)
    decreases |items|
  {
    if items == [] then w' == w
    else exists mid :: Done(w, items[0], mid) && SyncAll(mid, items[1..], w')
  }

  ghost predicate Independent(w: World, items: seq<Item>) {
    && (forall x :: x in items ==> Saving(x))
    && forall i, j :: 0 <= i < j < |items| ==>
         items[i].repository != items[j].repository && Evaluators(w, items[i]) !! Evaluators(w, items[j])
  }

  lemma IndependenceKept(w: World, items: seq<Item>, w1: World)
    requires items != [] && Independent(w, items) && Done(w, items[0], w1)
    ensures Independent(w1, items[1..])
  {
    forall i | 1 <= i < |items| ensures Evaluators(w1, items[i]) == Evaluators(w, items[i]) {
      assert items[0] in items;
      ViewKept(w, items[0], w1, items[i]);
    }
  }

  /** An entry can be synced first instead of in its place. */
  lemma {:induction false} MoveToFront(w: World, before: seq<Item>, x: Item, after: seq<Item>, w': World)
    requires Independent(w, before + [x] + after) && SyncAll(w, before + [x] + after, w')
    ensures SyncAll(w, [x] + (before + after), w')
    decreases |before|
  {
    if before == [] {
      assert before + [x] + after == [x] + (before + after);
    } else {
      var items, y := before + [x] + after, before[0];
      assert items[0] == y && items[1..] == before[1..] + [x] + after;
      assert items[|before|] == x;
      var w1 :| Done(w, y, w1) && SyncAll(w1, items[1..], w');
      IndependenceKept(w, items, w1);
      MoveToFront(w1, before[1..], x, after, w');
      var rest := [x] + (before[1..] + after);
      assert rest[0] == x && rest[1..] == before[1..] + after;
      var w2 :| Done(w1, x, w2) && SyncAll(w2, before[1..] + after, w');
      assert x in items && y in items;
      var v1 := CallsCommute(w, y, w1, x, w2);
      Prepend(v1, y, w2, before[1..] + after, w');
      assert [y] + (before[1..] + after) == before + after;
      Prepend(w, x, v1, before + after, w');
    }
  }

  lemma Prepend(w: World, x: Item, w1: World, items: seq<Item>, w': World)
    requires Done(w, x, w1) && SyncAll(w1, items, w')
    ensures SyncAll(w, [x] + items, w')
  {
    assert ([x] + items)[0] == x && ([x] + items)[1..] == items;
  }

  lemma IndependenceOfSwap(w: World, before: seq<Item>, x: Item, after: seq<Item>)
    requires Independent(w, before + [x] + after)
    ensures Independent(w, [x] + (before + after))
  {
    var items, moved := before + [x] + after, [x] + (before + after);
    assert items[|before|] == x;
    forall i | 0 < i < |moved| ensures moved[i] == items[if i <= |before| then i - 1 else i] {}
    forall z | z in moved ensures z in items {}
  }

  lemma SplitAt(items: seq<Item>, x: Item) returns (before: seq<Item>, after: seq<Item>)
    requires x in items
    ensures items == before + [x] + after && multiset(items) == multiset{x} + multiset(before + after)
  {
    var i :| 0 <= i < |items| && items[i] == x;
    before, after := items[..i], items[i + 1..];
    assert items == before + [x] + after;
  }

  /** Any entry of the list can be the first one synced. */
  lemma BringForward(w: World, items: seq<Item>, x: Item, w': World) returns (rest: seq<Item>, w1: World)
    requires Independent(w, items) && SyncAll(w, items, w') && x in items
    ensures Done(w, x, w1) && SyncAll(w1, rest, w') && Independent(w1, rest)
    ensures multiset(items) == multiset{x} + multiset(rest)
  {
    var before, after := SplitAt(items, x);
    rest := before + after;
    MoveToFront(w, before, x, after, w');
    IndependenceOfSwap(w, before, x, after);
    var moved := [x] + rest;
    assert moved[0] == x && moved[1..] == rest;
    w1 :| Done(w, x, w1) && SyncAll(w1, rest, w');
    IndependenceKept(w, moved, w1);
  }

  lemma SameRest(items: seq<Item>, x: Item, rest: seq<Item>, tail: seq<Item>)
    requires multiset(items) == multiset{x} + multiset(rest) && multiset(items) == multiset([x] + tail)
    ensures multiset(rest) == multiset(tail)
  {
    assert multiset([x] + tail) == multiset{x} + multiset(tail);
    assert multiset(rest) == multiset(items) - multiset{x};
    assert multiset(tail) == multiset(items) - multiset{x};
  }

  /**
   * Every order of an independent list gives the same disk, entries, saved entries and results: what one order can
   * end in, every other can.
   */
  lemma {:induction false} OrderDoesNotMatter(w: World, items: seq<Item>, order: seq<Item>, w': World)
    requires Independent(w, items) && multiset(items) == multiset(order)
    requires SyncAll(w, items, w')
    ensures SyncAll(w, order, w')
    decreases |order|
  {
    if order == [] {
      assert |items| == |multiset(items)| == 0;
    } else {
      var x, tail := order[0], order[1..];
      assert x in multiset(order);
      var rest, w1 := BringForward(w, items, x, w');
      assert order == [x] + tail;
      SameRest(items, x, rest, tail);
      OrderDoesNotMatter(w1, rest, tail, w');
      Prepend(w, x, w1, tail, w');
    }
  }
}
