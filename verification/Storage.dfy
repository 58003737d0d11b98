/**
 * What survives a process: the version directories {evaluator-id}/{name} and state.json.
 * RemoveAll, Rename and the state file's replacement are single steps that succeed or change nothing.
 */
module Storage {
  import opened Naming

  /** The embedded config.json of a complypack. */
  datatype Config = Config(evaluatorId: string, version: string, rest: string)

  datatype Slot = Slot(evaluator: string, name: string)

  datatype ConfigFile = NoConfig | MalformedConfig | Parsed(config: Config)

  datatype Entry = PlainFile | Dir(content: Option<string>, config: ConfigFile)

  type Tree = map<Slot, Entry>

  datatype VerificationResult =
    VerificationResult(verified: bool, signerIdentity: string, issuer: string, verifiedAt: int)

  const UNVERIFIED := VerificationResult(false, "", "", 0)

  datatype PolicyState = PolicyState(
    version: string, digest: string, evaluatorId: string, lastUpdated: int, verification: VerificationResult)

  type Ledger = map<string, PolicyState>

  datatype Snapshot = Snapshot(lastSync: int, policies: Ledger, complypacks: Ledger)

  /** One durable state: what a crash at this moment leaves behind. */
  datatype Durable = Durable(tree: Tree, file: Option<Snapshot>)

  predicate IsDir(t: Tree, s: Slot) {
    s in t && t[s].Dir?
  }

  predicate HasContent(t: Tree, s: Slot) {
    IsDir(t, s) && t[s].content.Some?
  }

  /** Both files are there and config.json can be parsed. */
  predicate Whole(t: Tree, s: Slot) {
    HasContent(t, s) && t[s].config.Parsed?
  }

  /** Two trees hold the same thing at a slot. */
  predicate SameAt(t: Tree, u: Tree, s: Slot) {
    (s in t <==> s in u) && (s in t ==> t[s] == u[s])
  }

  class Disk {
    var tree: Tree
    var file: Option<Snapshot>
    /** Every durable state so far: what a crash at some moment would have left. */
    ghost var moments: set<Durable>

    constructor (tree: Tree, file: Option<Snapshot>)
      ensures this.tree == tree && this.file == file && moments == {Durable(tree, file)}
    {
      this.tree, this.file, this.moments := tree, file, {Durable(tree, file)};
    }

    method Write(s: Slot, e: Entry)
      modifies this
      ensures tree == old(tree)[s := e] && file == old(file)
      ensures moments == old(moments) + {Durable(tree, file)}
    {
      tree := tree[s := e];
      moments := moments + {Durable(tree, file)};
    }

    method RemoveAll(s: Slot)
      modifies this
      ensures tree == old(tree) - {s} && file == old(file)
      ensures moments == old(moments) + {Durable(tree, file)}
    {
      tree := tree - {s};
      moments := moments + {Durable(tree, file)};
    }

    method Rename(from: Slot, to: Slot)
      requires from in tree
      modifies this
      ensures tree == (old(tree) - {from})[to := old(tree)[from]] && file == old(file)
      ensures moments == old(moments) + {Durable(tree, file)}
    {
      tree := (tree - {from})[to := tree[from]];
      moments := moments + {Durable(tree, file)};
    }

    method ReplaceFile(snapshot: Snapshot)
      modifies this
      ensures tree == old(tree) && file == Some(snapshot)
      ensures moments == old(moments) + {Durable(tree, file)}
    {
      file := Some(snapshot);
      moments := moments + {Durable(tree, file)};
    }

    /** The names under an evaluator directory, in some order. */
    method ReadDir(evaluator: string) returns (names: seq<string>)
      ensures forall n :: n in names <==> Slot(evaluator, n) in tree
      ensures forall i, j :: 0 <= i < j < |names| ==> names[i] != names[j]
    {
      names := [];
      var rest := set s | s in tree && s.evaluator == evaluator;
      while rest != {}
        invariant forall n :: Slot(evaluator, n) in tree <==> n in names || Slot(evaluator, n) in rest
        invariant forall s :: s in rest ==> s.evaluator == evaluator && s.name !in names
        invariant forall i, j :: 0 <= i < j < |names| ==> names[i] != names[j]
      {
        var s :| s in rest;
        assert s == Slot(evaluator, s.name);
        rest := rest - {s};
        names := names + [s.name];
      }
    }
  }
}
