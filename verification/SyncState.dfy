/** The sync state: in memory, and its round trip through state.json. */
module SyncState {
  import opened Naming
  import opened Storage

  predicate Tracks(led: Ledger, repository: string, evaluatorId: string) {
    repository in led && led[repository].evaluatorId == evaluatorId
  }

  ghost predicate SoleOwner(led: Ledger, evaluatorId: string, repository: string) {
    Tracks(led, repository, evaluatorId) && forall r :: Tracks(led, r, evaluatorId) ==> r == repository
  }

  ghost predicate Shared(led: Ledger, evaluatorId: string) {
    exists r, s :: r != s && Tracks(led, r, evaluatorId) && Tracks(led, s, evaluatorId)
  }

  /** Answer of the reverse lookup from evaluator-id to active version. */
  datatype Active = Duplicate | Untracked | At(version: string)

  ghost predicate IsActive(led: Ledger, evaluatorId: string, a: Active) {
    match a
    case Duplicate => Shared(led, evaluatorId)
    case Untracked => forall r :: !Tracks(led, r, evaluatorId)
    case At(v) => exists r :: SoleOwner(led, evaluatorId, r) && led[r].version == v
  }

  /** The map's iteration order cannot change the reverse lookup's answer. */
  lemma ActiveIsUnique(led: Ledger, evaluatorId: string, a: Active, b: Active)
    requires IsActive(led, evaluatorId, a) && IsActive(led, evaluatorId, b)
    ensures a == b
  {
  }

  /** The entries LoadState keeps: those whose digest is empty or well formed. */
  function WellFormed(led: Ledger): (kept: Ledger)
    ensures forall r :: r in kept <==> r in led && ValidDigest(led[r].digest)
    ensures forall r :: r in kept ==> kept[r] == led[r]
  {
    map r | r in led && ValidDigest(led[r].digest) :: led[r]
  }

  class State {
    var lastSync: int
    var policies: Ledger
    var complypacks: Ledger

    constructor (lastSync: int, policies: Ledger, complypacks: Ledger)
      ensures this.lastSync == lastSync && this.policies == policies && this.complypacks == complypacks
    {
      this.lastSync, this.policies, this.complypacks := lastSync, policies, complypacks;
    }

    function Contents(): Snapshot
      reads this
    {
      Snapshot(lastSync, policies, complypacks)
    }

    /** False, and no change, when the digest is malformed. */
    method UpdateComplypack(repository: string, version: string, digest: string, evaluatorId: string,
                            verification: Option<VerificationResult>, now: int)
      returns (ok: bool)
      modifies this
      ensures ok == ValidDigest(digest)
      ensures ok ==> Contents() == Snapshot(now, old(policies), old(complypacks)[repository :=
                PolicyState(version, digest, evaluatorId, now,
                            if verification.Some? then verification.value else UNVERIFIED)])
      ensures !ok ==> Contents() == old(Contents())
    {
      if !ValidDigest(digest) {
        return false;
      }
      var ps := PolicyState(version, digest, evaluatorId, now, UNVERIFIED);
      if verification.Some? {
        ps := ps.(verification := verification.value);
      }
      complypacks := complypacks[repository := ps];
      lastSync := now;
      return true;
    }

    /** One pass over the map in any order. */
    method EvaluatorIDToVersion(evaluatorId: string) returns (a: Active)
      ensures IsActive(complypacks, evaluatorId, a)
    {
      a := Untracked;
      ghost var owner := "";
      var rest := complypacks.Keys;
      while rest != {}
        invariant rest <= complypacks.Keys
        invariant a.Untracked? ==> forall r :: Tracks(complypacks, r, evaluatorId) ==> r in rest
        invariant a.At? ==> owner !in rest && Tracks(complypacks, owner, evaluatorId)
        invariant a.At? ==> complypacks[owner].version == a.version
        invariant a.At? ==> forall r :: Tracks(complypacks, r, evaluatorId) ==> r == owner || r in rest
        invariant !a.Duplicate?
      {
        var r :| r in rest;
        rest := rest - {r};
        if complypacks[r].evaluatorId == evaluatorId {
          if a.At? {
            assert Tracks(complypacks, r, evaluatorId) && r != owner;
            return Duplicate;
          }
          a, owner := At(complypacks[r].version), r;
        }
      }
      if a.At? {
        assert SoleOwner(complypacks, evaluatorId, owner);
      }
    }
  }

  /** Replaces state.json, or changes nothing when the write fails. */
  method SaveState(state: State, store: Disk, writable: bool) returns (ok: bool)
    modifies store
    ensures ok == writable && store.tree == old(store.tree)
    ensures ok ==> store.file == Some(state.Contents())
    ensures ok ==> store.moments == old(store.moments) + {Durable(store.tree, store.file)}
    ensures !ok ==> store.file == old(store.file) && store.moments == old(store.moments)
  {
    if !writable {
      return false;
    }
    store.ReplaceFile(state.Contents());
    return true;
  }

  /** Deletes malformed entries while iterating, in any order. */
  method ExcludeMalformed(led: Ledger) returns (kept: Ledger)
    ensures kept == WellFormed(led)
  {
    kept := led;
    var rest := led.Keys;
    while rest != {}
      invariant rest <= led.Keys
      invariant forall r :: r in kept <==> r in led && (r in rest || ValidDigest(led[r].digest))
      invariant forall r :: r in kept ==> kept[r] == led[r]
    {
      var r :| r in rest;
      rest := rest - {r};
      if !ValidDigest(led[r].digest) {
        kept := kept - {r};
      }
    }
  }

  /** What a new process starts from. */
  function Loaded(file: Option<Snapshot>): Snapshot {
    if file.None? then Snapshot(0, map[], map[])
    else Snapshot(file.value.lastSync, WellFormed(file.value.policies), WellFormed(file.value.complypacks))
  }

  /** A missing file gives an empty state; a file that cannot be read or parsed gives none. */
  method LoadState(store: Disk, readable: bool, parses: bool) returns (state: Option<State>)
    ensures state.None? <==> store.file.Some? && !(readable && parses)
    ensures state.Some? ==> fresh(state.value) && state.value.Contents() == Loaded(store.file)
  {
    if store.file.None? {
      var empty := new State(0, map[], map[]);
      return Some(empty);
    }
    if !readable || !parses {
      return None;
    }
    var policies := ExcludeMalformed(store.file.value.policies);
    var complypacks := ExcludeMalformed(store.file.value.complypacks);
    var loaded := new State(store.file.value.lastSync, policies, complypacks);
    return Some(loaded);
  }

  ghost predicate AllWellFormed(led: Ledger) {
    forall r :: r in led ==> ValidDigest(led[r].digest)
  }

  /** Saving and loading gives the state back exactly when every digest is well formed. */
  lemma SaveLoadRoundTrip(s: Snapshot)
    ensures Loaded(Some(s)) == s <==> AllWellFormed(s.policies) && AllWellFormed(s.complypacks)
    ensures Loaded(Some(Loaded(Some(s)))) == Loaded(Some(s))
  {
    if AllWellFormed(s.policies) && AllWellFormed(s.complypacks) {
      assert WellFormed(s.policies) == s.policies && WellFormed(s.complypacks) == s.complypacks;
    }
    assert WellFormed(WellFormed(s.policies)) == WellFormed(s.policies);
    assert WellFormed(WellFormed(s.complypacks)) == WellFormed(s.complypacks);
  }
}
