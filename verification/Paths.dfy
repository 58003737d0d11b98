/** What Store does to the files below the cache directory when path components are joined, "." included. */
module Paths {
  import opened Naming

  /** Files by the components of their cleaned path below the cache directory. */
  type Files = set<seq<string>>

  const ROOT := "complypacks"

  predicate Below(dir: seq<string>, path: seq<string>) {
    |dir| < |path| && dir == path[..|dir|]
  }

  function VersionDir(evaluator: string, version: string): seq<string> {
    JoinedPath([ROOT, evaluator, version])
  }

  /** The parent of a cleaned, non-empty path. */
  function Parent(dir: seq<string>): seq<string>
    requires dir != []
  {
    dir[..|dir| - 1]
  }

  /** The directory was removed and the temp directory with its two files renamed to it. */
  function Swapped(files: Files, dir: seq<string>): Files {
    (set f | f in files && !Below(dir, f)) + {dir + ["content.tar.gz"], dir + ["config.json"]}
  }

  /** A directory directly below parent that eviction removes: visible, not the target's name, not kept. */
  predicate Goes(parent: seq<string>, target: string, kept: set<string>, f: seq<string>) {
    && Below(parent, f) && |f| > |parent| + 1
    && !Hidden(f[|parent|]) && f[|parent|] != target && f[|parent|] !in kept
  }

  /** The files after a Store that succeeds and whose eviction keeps the tracked names in kept. */
  function AfterStore(files: Files, evaluator: string, version: string, kept: set<string>): Files
    requires VersionDir(evaluator, version) != []
  {
    var dir := VersionDir(evaluator, version);
    set f | f in Swapped(files, dir) && !Goes(Parent(dir), version, kept, f)
  }

  lemma VersionDirs(evaluator: string, version: string)
    requires evaluator != "" && version != ""
    ensures VersionDir(evaluator, version)
         == [ROOT] + (if evaluator == "." then [] else [evaluator]) + (if version == "." then [] else [version])
  {
    assert [ROOT, evaluator, version][1..] == [evaluator, version];
    assert [evaluator, version][1..] == [version];
    assert [version][1..] == [];
    assert JoinedPath([version]) == if version == "." then [] else [version];
    assert JoinedPath([evaluator, version]) == (if evaluator == "." then [] else [evaluator]) + JoinedPath([version]);
    assert JoinedPath([ROOT, evaluator, version]) == [ROOT] + JoinedPath([evaluator, version]);
  }

  /** A file in a version directory of another, visible evaluator. */
  predicate OfOther(evaluator: string, f: seq<string>) {
    |f| > 2 && f[0] == ROOT && f[1] != evaluator && !Hidden(f[1])
  }

  lemma OwnFrame(files: Files, evaluator: string, version: string, kept: set<string>, f: seq<string>)
    requires evaluator !in {"", "."} && version !in {"", "."} && f in files && OfOther(evaluator, f)
    ensures VersionDir(evaluator, version) != [] && f in AfterStore(files, evaluator, version, kept)
  {
    VersionDirs(evaluator, version);
    var dir := VersionDir(evaluator, version);
    assert dir == [ROOT, evaluator, version] && Parent(dir) == [ROOT, evaluator];
    assert f[..3][1] == f[1] && f[..2][1] == f[1];
  }

  /** A path that a Store at this version directory writes. */
  predicate Written(evaluator: string, version: string, f: seq<string>) {
    var dir := VersionDir(evaluator, version);
    f == dir + ["content.tar.gz"] || f == dir + ["config.json"]
  }

  /**
   * With a "." the parent is the complypack root or above it, and eviction takes evaluators for versions: what other
   * visible evaluators have goes, except below a name that is kept as tracked. For the evaluator "." the version names
   * an evaluator directory, which is replaced by the two new files. With two dots everything goes.
   */
  lemma DotFate(files: Files, evaluator: string, version: string, kept: set<string>, f: seq<string>)
    requires evaluator != "" && version != "" && (evaluator == "." || version == ".")
    requires f in files && OfOther(evaluator, f)
    ensures VersionDir(evaluator, version) != []
    ensures f in AfterStore(files, evaluator, version, kept)
      <==> !(evaluator == "." && version == ".")
           && if evaluator == "." && f[1] == version then Written(evaluator, version, f) else f[1] in kept
  {
    VersionDirs(evaluator, version);
    var dir := VersionDir(evaluator, version);
    if evaluator == "." && version == "." {
      assert dir == [ROOT] && f[..1] == [ROOT] && Below(dir, f);
    } else {
      assert |dir| == 2 && dir[0] == ROOT && Parent(dir) == [ROOT];
      assert f[..1] == [ROOT] && Below(Parent(dir), f);
      assert f[..2] == [ROOT, f[1]];
      assert Below(dir, f) <==> evaluator == "." && f[1] == version;
      assert Goes(Parent(dir), version, kept, f) <==> f[1] != version && f[1] !in kept;
    }
  }

  /** With version "." even what was just stored goes, while Store reports its path as success. */
  lemma DotVersionRemovesItself(files: Files, evaluator: string, kept: set<string>)
    requires evaluator !in {"", "."} && !Hidden(evaluator) && evaluator !in kept
    ensures VersionDir(evaluator, ".") == [ROOT, evaluator]
    ensures VersionDir(evaluator, ".") + ["content.tar.gz"] !in AfterStore(files, evaluator, ".", kept)
  {
    VersionDirs(evaluator, ".");
    var f := [ROOT, evaluator] + ["content.tar.gz"];
    assert f[..1] == [ROOT] && f[1] == evaluator;
  }

  lemma LongestName(names: set<string>) returns (n: nat)
    ensures forall x :: x in names ==> |x| <= n
  {
    n := 0;
    if names != {} {
      var x :| x in names;
      n := LongestName(names - {x});
      n := if n < |x| then |x| else n;
    }
  }

  /** A file of a visible evaluator with a fresh name. */
  lemma FreshFile(names: set<string>, evaluator: string) returns (f: seq<string>)
    ensures OfOther(evaluator, f) && f[1] !in names
  {
    var n := LongestName(names + {evaluator});
    var name := seq(n + 1, _ => 'a');
    assert name[0] == 'a';
    f := [ROOT, name, "1", "config.json"];
  }

  /**
   * Whatever eviction keeps as tracked, Store leaves other evaluators' files alone exactly when neither name is ".",
   * which validation lets through.
   */
  lemma OthersStayIff(evaluator: string, version: string, kept: set<string>)
    requires SafeName(evaluator) && SafeName(version)
    ensures VersionDir(evaluator, version) != []
    ensures (forall files, f ::
             f in files && OfOther(evaluator, f) ==> f in AfterStore(files, evaluator, version, kept))
      <==> evaluator != "." && version != "."
  {
    VersionDirs(evaluator, version);
    if evaluator == "." || version == "." {
      var f := FreshFile(kept + {version}, evaluator);
      var files := {f};
      DotFate(files, evaluator, version, kept, f);
      assert f in files && f !in AfterStore(files, evaluator, version, kept);
    } else {
      forall files, f | f in files && OfOther(evaluator, f) ensures f in AfterStore(files, evaluator, version, kept) {
        OwnFrame(files, evaluator, version, kept, f);
      }
    }
  }

  // ---------- The workspace directory ----------

  const GENERATION := "generation"

  /** The files below the workspace directory after an evaluator's directory was removed. */
  function AfterRemoval(files: Files, evaluator: string): Files {
    set f | f in files && !Below(JoinedPath([evaluator]), f)
  }

  /** A generation state, or an artifact of another evaluator. */
  predicate NotArtifactOf(evaluator: string, f: seq<string>) {
    |f| > 1 && (f[0] == GENERATION || f[0] != evaluator)
  }

  lemma EvaluatorDir(evaluator: string)
    ensures JoinedPath([evaluator]) == if evaluator in {"", "."} then [] else [evaluator]
  {
    assert [evaluator][1..] == [];
  }

  /** What a removal takes along, file by file. */
  lemma RemovedIff(files: Files, evaluator: string, f: seq<string>)
    requires f in files && |f| > 1
    ensures f !in AfterRemoval(files, evaluator) <==> evaluator in {"", "."} || f[0] == evaluator
  {
    EvaluatorDir(evaluator);
    assert f[..1] == [f[0]] && f[..0] == [];
  }

  /**
   * Removing an evaluator's artifacts leaves all generation states and all other evaluators' artifacts alone exactly
   * when the validated name is neither "." nor "generation".
   */
  lemma RemovalIsHarmlessIff(evaluator: string)
    requires SafeName(evaluator)
    ensures (forall files, f :: f in files && NotArtifactOf(evaluator, f) ==> f in AfterRemoval(files, evaluator))
      <==> evaluator !in {".", GENERATION}
  {
    if evaluator in {".", GENERATION} {
      var f := [GENERATION, "policy.json"];
      var files := {f};
      RemovedIff(files, evaluator, f);
      assert f in files && NotArtifactOf(evaluator, f) && f !in AfterRemoval(files, evaluator);
    } else {
      forall files, f | f in files && NotArtifactOf(evaluator, f) ensures f in AfterRemoval(files, evaluator) {
        RemovedIff(files, evaluator, f);
      }
    }
  }
}
