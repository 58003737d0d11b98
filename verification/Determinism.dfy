/**
 * Against a catalog with one owner per evaluator nothing is left open: no order of maps, directories or ties can
 * change what a call does, and a list of calls ends in one world, whatever its order.
 */
module Determinism {
  import opened Naming
  import opened Storage
  import opened SyncState
  import opened Cache
  import opened CacheTheorems
  import opened Sync
  import opened Releases
  import opened Agreement
  import opened Confluence
  import Aggregation

  // ---------- One call ----------

  /** A recorded evaluator is either found or not, in whatever order it is looked for. */
  lemma PresenceIsDetermined(k: Catalog, w: World, scannable: bool, repository: string)
    requires GoodCatalog(k) && Sound(k, w) && repository in w.mem
    ensures !(MayExist(w.disk, w.mem, scannable, w.mem[repository])
              && MayBeMissing(w.disk, w.mem, scannable, w.mem[repository]))
  {
    var ps := w.mem[repository];
    forall r, r': LookupResult
      | LookupAnswer(w.disk, Some(w.mem), scannable, ps.evaluatorId, r)
        && LookupAnswer(w.disk, Some(w.mem), scannable, ps.evaluatorId, r')
      ensures r.Hit? == r'.Hit?
    {
      AnswersAgree(k, w, scannable, repository, r, r');
    }
  }

  lemma AnswersAgree(k: Catalog, w: World, scannable: bool, repository: string, r: LookupResult, r': LookupResult)
    requires GoodCatalog(k) && Sound(k, w) && repository in w.mem
    requires LookupAnswer(w.disk, Some(w.mem), scannable, w.mem[repository].evaluatorId, r)
    requires LookupAnswer(w.disk, Some(w.mem), scannable, w.mem[repository].evaluatorId, r')
    ensures r.Hit? == r'.Hit?
  {
    var e, v := w.mem[repository].evaluatorId, w.mem[repository].version;
    OwnerIsSole(k, w.mem, repository);
    assert IsActive(w.mem, e, At(v));
    if LookupVersion(w.disk, e, v).Hit? {
      LookupFindsActive(w.disk, w.mem, scannable, e, repository, r);
      LookupFindsActive(w.disk, w.mem, scannable, e, repository, r');
    } else {
      forall x ensures !ActiveOnDisk(w.disk, w.mem, e, x) {
        if IsActive(w.mem, e, At(x)) {
          ActiveIsUnique(w.mem, e, At(v), At(x));
        }
      }
      AllWhole(k, w.disk);
      if SafeName(e) && scannable {
        ScanOfWholeTree(w.disk, e, r);
        ScanOfWholeTree(w.disk, e, r');
      }
    }
  }

  lemma AllWhole(k: Catalog, t: Tree)
    requires FaithfulTree(k, t)
    ensures AllVisibleWhole(t)
  {
    forall s | IsDir(t, s) && !Hidden(s.name) ensures Whole(t, s) {
      assert Faithful(k, t, s);
    }
  }

  lemma EvictionIsDetermined(k: Catalog, t: Tree, t1: Tree, t2: Tree, led: Ledger, retention: int, repository: string,
                             p: Package, io: StoreIO)
    requires GoodCatalog(k) && FaithfulLedger(k, led) && IsRelease(k, repository, p)
    requires Evicted(t, t1, p.config.evaluatorId, p.config.version, Some(led), retention, io)
    requires Evicted(t, t2, p.config.evaluatorId, p.config.version, Some(led), retention, io)
    ensures t1 == t2
  {
    if io.listable {
      var e := p.config.evaluatorId;
      var candidates := Candidates(t, e, p.config.version);
      var tracked := Tracked(candidates, Some(led), e);
      var active := if repository in led then led[repository].version else "";
      OneTracked(k, led, repository, p, p.config.version);
      assert tracked <= {active};
      var kept1 :| Keeps(tracked, Some(led), e, retention, kept1) && t1 == Without(t, e, candidates - kept1 - io.stuck);
      var kept2 :| Keeps(tracked, Some(led), e, retention, kept2) && t2 == Without(t, e, candidates - kept2 - io.stuck);
      SmallSubset(kept1, tracked, active);
      SmallSubset(kept2, tracked, active);
    }
  }

  lemma FetchIsDetermined(k: Catalog, c: Setup, w: World, repository: string, version: string, digest: string,
                          reference: string, a: Answers, p: Package, w1: World, r1: SyncResult, w2: World,
                          r2: SyncResult)
    requires GoodCatalog(k) && FaithfulLedger(k, w.mem) && IsRelease(k, repository, p)
    requires a.copy(repository, version).Unpacked? ==> a.copy(repository, version) == Unpacked(p.config, p.content)
    requires FetchStep(c, w, repository, version, digest, reference, a, w1, r1)
    requires FetchStep(c, w, repository, version, digest, reference, a, w2, r2)
    ensures w1 == w2 && r1 == r2
  {
    if FetchedPackage(c, repository, version, reference, a).Unpacked? && StoreOk(w.disk, p.config, a.io) {
      var t := w.disk[Final(p.config) := Bundle(p.config, p.content)];
      EvictionIsDetermined(k, t, w1.disk, w2.disk, w.mem, c.retention, repository, p, a.io);
    }
  }

  lemma RefreshIsDetermined(k: Catalog, c: Setup, w: World, repository: string, requested: string, a: Answers,
                            p: Package,
                            w1: World, r1: SyncResult, w2: World, r2: SyncResult)
    requires GoodCatalog(k) && Sound(k, w) && Serves(k, repository, requested, a, p)
    requires a.definition(ReferenceFor("", repository, requested)).Some?
    requires var remote := a.definition(ReferenceFor("", repository, requested)).value;
             var target, reference := ResolveVersion(requested, remote.1), ReferenceFor(c.host, repository, requested);
             && RefreshStep(c, w, repository, target, remote.0, reference, a, w1, r1)
             && RefreshStep(c, w, repository, target, remote.0, reference, a, w2, r2)
    ensures w1 == w2 && r1 == r2
  {
    var remote := a.definition(ReferenceFor("", repository, requested)).value;
    var target, reference := ResolveVersion(requested, remote.1), ReferenceFor(c.host, repository, requested);
    if ServesFromCache(c, w, repository, target, remote.0, reference, a) {
      if !a.saveHit {
        HitIsFaithful(k, c, w, repository, requested, a, p);
        var hit := AfterHit(c, w, repository, target, remote.0, reference, a);
        FetchIsDetermined(k, c, hit, repository, target, remote.0, reference, a, p, w1, r1, w2, r2);
      }
    } else {
      FetchIsDetermined(k, c, w, repository, target, remote.0, reference, a, p, w1, r1, w2, r2);
    }
  }

  /** What a call does to a sound world, and what it returns, is determined. */
  lemma CallIsDetermined(k: Catalog, c: Setup, w: World, repository: string, requested: string, a: Answers, p: Package,
                         w1: World, r1: SyncResult, w2: World, r2: SyncResult)
    requires GoodCatalog(k) && Sound(k, w) && Serves(k, repository, requested, a, p)
    requires SyncStep(c, w, repository, requested, a, w1, r1) && SyncStep(c, w, repository, requested, a, w2, r2)
    ensures w1 == w2 && r1 == r2
  {
    SkipIsDetermined(k, c, w, repository, requested, a, w1, r1, w2, r2);
    if r1 != Synced(false) && Asks(c, repository) && a.definition(ReferenceFor("", repository, requested)).Some? {
      RefreshIsDetermined(k, c, w, repository, requested, a, p, w1, r1, w2, r2);
    } else {
      RestIsDetermined(c, w, repository, requested, a, w1, r1, w2, r2);
    }
  }

  predicate Asks(c: Setup, repository: string) {
    repository != "" && !(c.verifying && c.host == "")
  }

  lemma SkipIsDetermined(k: Catalog, c: Setup, w: World, repository: string, requested: string, a: Answers,
                         w1: World, r1: SyncResult, w2: World, r2: SyncResult)
    requires GoodCatalog(k) && Sound(k, w)
    requires SyncStep(c, w, repository, requested, a, w1, r1) && SyncStep(c, w, repository, requested, a, w2, r2)
    ensures r1 == Synced(false) <==> r2 == Synced(false)
  {
    if repository in w.mem {
      PresenceIsDetermined(k, w, a.scannable, repository);
    }
  }

  lemma RestIsDetermined(c: Setup, w: World, repository: string, requested: string, a: Answers,
                         w1: World, r1: SyncResult, w2: World, r2: SyncResult)
    requires SyncStep(c, w, repository, requested, a, w1, r1) && SyncStep(c, w, repository, requested, a, w2, r2)
    requires r1 == Synced(false) <==> r2 == Synced(false)
    requires r1 == Synced(false) || !Asks(c, repository) || a.definition(ReferenceFor("", repository, requested)).None?
    ensures w1 == w2 && r1 == r2
  {
  }

  // ---------- Lists of calls ----------

  /** The registry serves a release of the catalog to this entry. */
  ghost predicate Served(k: Catalog, x: Item) {
    exists p :: Serves(k, x.repository, x.requested, x.a, p)
  }

  ghost predicate AllServed(k: Catalog, items: seq<Item>) {
    forall x :: x in items ==> Served(k, x)
  }

  /** An entry without its result. */
  function Asked(x: Item): Item {
    x.(r := Synced(false))
  }

  function AllAsked(items: seq<Item>): (r: seq<Item>)
    ensures |r| == |items|
  {
    seq(|items|, i requires 0 <= i < |items| => Asked(items[i]))
  }

  lemma EntryIsDetermined(k: Catalog, w: World, x: Item, y: Item, w1: World, w2: World)
    requires GoodCatalog(k) && Sound(k, w) && Served(k, x) && Asked(x) == Asked(y)
    requires Done(w, x, w1) && Done(w, y, w2)
    ensures w1 == w2 && x == y && Sound(k, w1)
  {
    var p :| Serves(k, x.repository, x.requested, x.a, p);
    assert y == x.(r := y.r);
    CallIsDetermined(k, x.c, w, x.repository, x.requested, x.a, p, w1, x.r, w2, y.r);
    SyncKeepsSound(k, x.c, w, x.repository, x.requested, x.a, p, w1, x.r);
  }

  lemma {:induction false} ListIsDetermined(k: Catalog, w: World, xs: seq<Item>, ys: seq<Item>, w1: World, w2: World)
    requires GoodCatalog(k) && Sound(k, w) && AllServed(k, xs) && AllAsked(xs) == AllAsked(ys)
    requires SyncAll(w, xs, w1) && SyncAll(w, ys, w2)
    ensures w1 == w2 && xs == ys
    decreases |xs|
  {
    assert |xs| == |AllAsked(xs)| == |ys|;
    if xs != [] {
      var u :| Done(w, xs[0], u) && SyncAll(u, xs[1..], w1);
      var v :| Done(w, ys[0], v) && SyncAll(v, ys[1..], w2);
      assert Asked(xs[0]) == AllAsked(xs)[0] == AllAsked(ys)[0] == Asked(ys[0]);
      EntryIsDetermined(k, w, xs[0], ys[0], u, v);
      assert AllAsked(xs[1..]) == AllAsked(xs)[1..] && AllAsked(ys[1..]) == AllAsked(ys)[1..];
      ListIsDetermined(k, u, xs[1..], ys[1..], w1, w2);
      assert xs == [xs[0]] + xs[1..] && ys == [ys[0]] + ys[1..];
    }
  }

  /** Entries in the order in which others ask the same. */
  lemma {:induction false} Arrange(items: seq<Item>, order: seq<Item>) returns (xs: seq<Item>)
    requires multiset(AllAsked(items)) == multiset(AllAsked(order))
    ensures multiset(xs) == multiset(items) && AllAsked(xs) == AllAsked(order)
    decreases |order|
  {
    if order == [] {
      assert |items| == |multiset(AllAsked(items))| == |multiset(AllAsked(order))| == 0;
      xs := [];
    } else {
      var n := |order| - 1;
      var i := Aggregation.TakeOut(AllAsked(order), AllAsked(items));
      var rest := items[..i] + items[i + 1..];
      assert AllAsked(rest) == AllAsked(items)[..i] + AllAsked(items)[i + 1..];
      assert AllAsked(order[..n]) == AllAsked(order)[..n];
      var front := Arrange(rest, order[..n]);
      xs := front + [items[i]];
      Aggregation.WithoutOne(items, i);
      assert AllAsked(xs) == AllAsked(front) + [Asked(items[i])];
      assert AllAsked(order) == AllAsked(order[..n]) + [Asked(order[n])];
    }
  }

  // ---------- Independence ----------

  ghost predicate DistinctRepositories(items: seq<Item>) {
    forall i, j :: 0 <= i < j < |items| ==> items[i].repository != items[j].repository
  }

  /** A call looks and writes only below evaluators that its repository owns. */
  lemma EvaluatorsAreOwned(k: Catalog, w: World, x: Item, e: string)
    requires GoodCatalog(k) && Sound(k, w) && Served(k, x) && e in Evaluators(w, x)
    ensures e in k.owner && k.owner[e] == x.repository
  {
    if x.repository in w.mem && e == w.mem[x.repository].evaluatorId {
      assert FaithfulEntry(k, x.repository, w.mem[x.repository]);
      assert GoodRelease(k, x.repository, w.mem[x.repository].version);
    } else {
      var p :| Serves(k, x.repository, x.requested, x.a, p);
      assert GoodRelease(k, x.repository, p.config.version);
    }
  }

  /** In a catalog distinct repositories are independent. */
  lemma CatalogMakesIndependent(k: Catalog, w: World, items: seq<Item>)
    requires GoodCatalog(k) && Sound(k, w) && AllServed(k, items) && DistinctRepositories(items)
    requires forall x :: x in items ==> Saving(x)
    ensures Independent(w, items)
  {
    forall i, j | 0 <= i < j < |items| ensures Evaluators(w, items[i]) !! Evaluators(w, items[j]) {
      forall e | e in Evaluators(w, items[i]) && e in Evaluators(w, items[j]) ensures false {
        EvaluatorsAreOwned(k, w, items[i], e);
        EvaluatorsAreOwned(k, w, items[j], e);
      }
    }
  }

  /**
   * Any two runs over the same configured complypacks, in whatever orders, end in one world, and every entry has the
   * same result in both.
   */
  lemma AllOrdersMeet(k: Catalog, w: World, items: seq<Item>, order: seq<Item>, w1: World, w2: World)
    requires GoodCatalog(k) && Sound(k, w) && AllServed(k, items) && DistinctRepositories(items)
    requires forall x :: x in items ==> Saving(x)
    requires multiset(AllAsked(items)) == multiset(AllAsked(order))
    requires SyncAll(w, items, w1) && SyncAll(w, order, w2)
    ensures w1 == w2 && multiset(items) == multiset(order)
  {
    CatalogMakesIndependent(k, w, items);
    var xs := Arrange(items, order);
    OrderDoesNotMatter(w, items, xs, w1);
    forall x | x in xs ensures x in items {
      assert x in multiset(xs);
    }
    ListIsDetermined(k, w, xs, order, w1, w2);
  }
}
