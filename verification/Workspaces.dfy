/** The workspace directory: generation states, generated artifacts, and what is removed after a fetch. */
module Workspaces {
  import opened Naming
  import opened Storage
  import opened Paths
  import opened Generation

  /**
   * The files below the workspace directory. A generation state is at "generation" followed by its path below that
   * directory as one component; of artifacts only the paths matter.
   */
  type WorkspaceFiles = map<seq<string>, GenerationFile>

  predicate IsState(f: seq<string>) {
    |f| == 2 && f[0] == GENERATION
  }

  function GenerationOf(files: WorkspaceFiles): (dir: GenerationDir)
    ensures forall path :: path in dir <==> [GENERATION, path] in files
    ensures forall path :: path in dir ==> dir[path] == files[[GENERATION, path]]
  {
    assert forall f :: f in files && IsState(f) ==> f == [GENERATION, f[1]];
    map path | path in (set f | f in files && IsState(f) :: f[1]) :: files[[GENERATION, path]]
  }

  /** What the outside answers during an invalidation. */
  datatype InvalidationIO = InvalidationIO(opens: bool, blocked: set<string>, stuck: set<string>, removable: bool)

  /** A state that names the evaluator. */
  predicate Outdated(files: WorkspaceFiles, f: seq<string>, e: string) {
    IsState(f) && Mentions(GenerationOf(files), f[1], e)
  }

  function StatesInvalidated(files: WorkspaceFiles, e: string): WorkspaceFiles {
    map f | f in files && !Outdated(files, f, e) :: files[f]
  }

  function AfterInvalidation(files: WorkspaceFiles, e: string): WorkspaceFiles {
    var left := StatesInvalidated(files, e);
    map f | f in left && f in AfterRemoval(left.Keys, e) :: left[f]
  }

  ghost predicate OnlyFewer(files: WorkspaceFiles, files': WorkspaceFiles) {
    forall f :: f in files' ==> f in files && files'[f] == files[f]
  }

  /** The workspace before and after the invalidation for an evaluator, whatever fails in it. */
  ghost predicate InvalidationStep(files: WorkspaceFiles, files': WorkspaceFiles, e: string, io: InvalidationIO) {
    if e == "" then files' == files
    else if !CanInvalidate(GenerationOf(files), e, io.opens, io.blocked, io.stuck) then
      OnlyFewer(files, files') && forall f :: f in files && f !in files' ==> Outdated(files, f, e)
    else files' == if SafeName(e) && io.removable then AfterInvalidation(files, e) else StatesInvalidated(files, e)
  }

  /** The states that are not in dir are gone. */
  function WithStates(files: WorkspaceFiles, dir: GenerationDir): WorkspaceFiles {
    map f | f in files && (IsState(f) ==> f[1] in dir) :: files[f]
  }

  lemma FewerStates(files: WorkspaceFiles, e: string, dir: GenerationDir)
    requires forall path :: path in GenerationOf(files) && path !in dir ==> Mentions(GenerationOf(files), path, e)
    ensures OnlyFewer(files, WithStates(files, dir))
    ensures forall f :: f in files && f !in WithStates(files, dir) ==> Outdated(files, f, e)
    ensures dir == Invalidated(GenerationOf(files), e) ==> WithStates(files, dir) == StatesInvalidated(files, e)
  {
    forall f | f in files && IsState(f) ensures f[1] in GenerationOf(files) {
      assert f == [GENERATION, f[1]];
    }
  }

  class Workspace {
    var files: WorkspaceFiles

    constructor (files: WorkspaceFiles)
      ensures this.files == files
    {
      this.files := files;
    }

    method RemoveEvaluatorArtifacts(e: string, removable: bool) returns (ok: bool)
      modifies this
      ensures ok == (SafeName(e) && removable)
      ensures OnlyFewer(old(files), files)
      ensures files.Keys == if ok then AfterRemoval(old(files).Keys, e) else old(files).Keys
    {
      if ValidatePathComponent(e).Some? || !removable {
        return false;
      }
      files := map f | f in files && !Below(JoinedPath([e]), f) :: files[f];
      return true;
    }

    /** Best effort: failures are only warned about. The artifacts go only after all the states went. */
    method InvalidateGenerationForComplypack(led: Ledger, repository: string, io: InvalidationIO) returns (ok: bool)
      modifies this
      ensures repository !in led ==> !ok && files == old(files)
      ensures repository in led ==> InvalidationStep(old(files), files, led[repository].evaluatorId, io)
      ensures repository in led ==>
                var e := led[repository].evaluatorId;
                ok == (e != "" && SafeName(e) && io.removable
                       && CanInvalidate(GenerationOf(old(files)), e, io.opens, io.blocked, io.stuck))
    {
      if repository !in led || led[repository].evaluatorId == "" {
        return false;
      }
      var e := led[repository].evaluatorId;
      var invalidated := InvalidateStates(e, io);
      if !invalidated {
        return false;
      }
      ok := RemoveEvaluatorArtifacts(e, io.removable);
      assert ok ==> files == AfterInvalidation(old(files), e);
    }

    /** Removes the states that name the evaluator. */
    method InvalidateStates(e: string, io: InvalidationIO) returns (ok: bool)
      modifies this
      ensures ok == CanInvalidate(GenerationOf(old(files)), e, io.opens, io.blocked, io.stuck)
      ensures ok ==> files == StatesInvalidated(old(files), e)
      ensures OnlyFewer(old(files), files)
      ensures forall f :: f in old(files) && f !in files ==> Outdated(old(files), f, e)
    {
      var all := GenerationOf(files);
      var dir, _, invalidated := InvalidateForEvaluator(all, e, io.opens, io.blocked, io.stuck);
      FewerStates(files, e, dir);
      files := WithStates(files, dir);
      ok := invalidated;
    }
  }

  /** For an ordinary evaluator name the states afterwards are the old ones that do not name it. */
  lemma StatesAfterInvalidation(files: WorkspaceFiles, e: string)
    requires SafeName(e) && e !in {".", GENERATION}
    ensures GenerationOf(AfterInvalidation(files, e)) == Invalidated(GenerationOf(files), e)
  {
    var left, dir := StatesInvalidated(files, e), Invalidated(GenerationOf(files), e);
    forall path ensures path in GenerationOf(AfterInvalidation(files, e)) <==> path in dir {
      var f := [GENERATION, path];
      if f in left {
        RemovedIff(left.Keys, e, f);
      }
    }
  }

  /**
   * What an invalidation that worked leaves, file by file: everything but the evaluator's artifacts and the states that
   * name it.
   */
  lemma LeftAfterInvalidation(files: WorkspaceFiles, e: string, f: seq<string>)
    requires SafeName(e) && e !in {".", GENERATION} && f in files && |f| > 1
    ensures f in AfterInvalidation(files, e)
      <==> (&& f[0] != e
            && !(|f| == 2 && f[0] == GENERATION && NamedJson(f[1]) && files[f].Holding?
                 && e in files[f].state.evaluatorIds))
  {
    assert |f| == 2 ==> f == [f[0], f[1]];
    if |f| == 2 {
      IsJsonIff(f[1]);
    }
    if f in StatesInvalidated(files, e) {
      RemovedIff(StatesInvalidated(files, e).Keys, e, f);
    }
  }

  /** So the evaluator has no artifacts afterwards. */
  lemma ArtifactsAreGone(files: WorkspaceFiles, e: string)
    requires SafeName(e) && e !in {".", GENERATION}
    ensures !HasArtifacts(AfterInvalidation(files, e).Keys, e)
  {
    HasArtifactsIff(AfterInvalidation(files, e).Keys, e);
    forall f | f in AfterInvalidation(files, e) && |f| > 1 ensures f[0] != e {
      LeftAfterInvalidation(files, e, f);
    }
  }

  /** Another evaluator's directory holds something afterwards, if it did before and some state is left. */
  lemma OthersKeepArtifacts(files: WorkspaceFiles, e: string, path: string, x: string)
    requires SafeName(e) && e !in {".", GENERATION} && x != e && [GENERATION, path] in AfterInvalidation(files, e)
    ensures HasArtifacts(AfterInvalidation(files, e).Keys, x) <==> HasArtifacts(files.Keys, x)
  {
    var state, left := [GENERATION, path], StatesInvalidated(files, e);
    EvaluatorDir(x);
    assert state[..0] == [] && state[..1] == [GENERATION];
    if x in {"", ".", GENERATION} {
      assert Below(JoinedPath([x]), state);
    } else if HasArtifacts(files.Keys, x) {
      var f :| f in files.Keys && Below(JoinedPath([x]), f);
      assert f[0] == f[..1][0] == x;
      RemovedIff(left.Keys, e, f);
      assert f in AfterInvalidation(files, e);
    }
  }

  /**
   * After an invalidation that worked exactly those policies reuse their artifacts that did so before and whose state
   * does not name the evaluator; none does, if the evaluator is called "." or "generation".
   */
  lemma FetchForcesRegeneration(files: WorkspaceFiles, e: string, policyId: string, digest: string,
                                digests: map<string, string>)
    requires SafeName(e) && Load(GenerationOf(files), policyId).Some?
    ensures var after := AfterInvalidation(files, e);
            var g := Load(GenerationOf(files), policyId).value;
            && Load(GenerationOf(after), policyId).Some?
            && (Reuses(after.Keys, Load(GenerationOf(after), policyId).value, digest, digests)
                <==> Reuses(files.Keys, g, digest, digests) && e !in g.value.evaluatorIds && e !in {".", GENERATION})
  {
    var after, path := AfterInvalidation(files, e), policyId + ".json";
    var g, f := Load(GenerationOf(files), policyId).value, [GENERATION, path];
    if e in {".", GENERATION} {
      if f in StatesInvalidated(files, e) {
        RemovedIff(StatesInvalidated(files, e).Keys, e, f);
      }
      assert f !in after;
    } else {
      StatesAfterInvalidation(files, e);
      InvalidationIsExact(GenerationOf(files), e, policyId);
      assert path[|path| - 5..] == ".json";
      if g.Some? && e !in g.value.evaluatorIds {
        assert path in GenerationOf(after);
        forall x | x in g.value.evaluatorIds ensures HasArtifacts(after.Keys, x) <==> HasArtifacts(files.Keys, x) {
          OthersKeepArtifacts(files, e, path, x);
        }
      }
    }
  }
}
