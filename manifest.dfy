/**
 * The `elm-package.json` manifest as index.js loads it and `fixElmPackage`
 * rewrites it in place before it is written into the render directory.
 * Only the fields the tool reads or writes are modelled; `path.join` is the
 * parameter `join`.
 */
module Manifest {

  /** The package the generated driver imports, and the version range the fix pins for it. */
  const HtmlInElm := "eeue56/elm-html-in-elm"
  const HtmlInElmRange := "1.0.1 <= v < 2.0.0"

  /** The source directory the fix appends: the render directory itself. */
  const RenderDir := "."

  /** `dirs.map(dir => path.join(workingDir, dir))`: each directory resolved against `workingDir`, in order. */
  function JoinEach(join: (string, string) -> string, workingDir: string, dirs: seq<string>): (r: seq<string>)
    ensures |r| == |dirs|
    ensures forall i :: 0 <= i < |dirs| ==> r[i] == join(workingDir, dirs[i])
  {
    if dirs == [] then [] else [join(workingDir, dirs[0])] + JoinEach(join, workingDir, dirs[1..])
  }

  /**
   * The source directories after the fix: the old ones resolved against the
   * working directory, in their order, then `.`.
   */
  function FixedSources(join: (string, string) -> string, workingDir: string, dirs: seq<string>): (r: seq<string>)
    ensures |r| == |dirs| + 1 && r[|dirs|] == RenderDir
    ensures forall i :: 0 <= i < |dirs| ==> r[i] == join(workingDir, dirs[i])
  {
    JoinEach(join, workingDir, dirs) + [RenderDir]
  }

  /**
   * The dependencies after the fix: `elm-html-in-elm` at its pinned range
   * (added or overwritten), every other entry as it was.
   */
  function FixedDependencies(deps: map<string, string>): (r: map<string, string>)
    ensures r.Keys == deps.Keys + {HtmlInElm}
    ensures r[HtmlInElm] == HtmlInElmRange
    ensures forall k :: k in deps && k != HtmlInElm ==> r[k] == deps[k]
  {
    deps[HtmlInElm := HtmlInElmRange]
  }

  /** Fixing the dependencies twice is fixing them once. */
  lemma FixedDependenciesIdempotent(deps: map<string, string>)
    ensures FixedDependencies(FixedDependencies(deps)) == FixedDependencies(deps)
  {
    var once := FixedDependencies(deps);
    var twice := FixedDependencies(once);
    assert twice.Keys == once.Keys;
    forall k | k in once ensures twice[k] == once[k] {
      if k != HtmlInElm {
        assert twice[k] == once[k];
      }
    }
  }

  /**
   * The source directories are NOT idempotent under the fix: a second fix
   * resolves the already resolved directories again and appends a second `.`.
   */
  lemma {:induction false} FixedSourcesTwice(join: (string, string) -> string, workingDir: string, dirs: seq<string>)
    ensures var twice := FixedSources(join, workingDir, FixedSources(join, workingDir, dirs));
      |twice| == |dirs| + 2
      && twice[|dirs|] == join(workingDir, RenderDir)
      && twice[|dirs| + 1] == RenderDir
      && forall i :: 0 <= i < |dirs| ==> twice[i] == join(workingDir, join(workingDir, dirs[i]))
  {
    var once := FixedSources(join, workingDir, dirs);
    var twice := FixedSources(join, workingDir, once);
    assert twice[|dirs|] == join(workingDir, once[|dirs|]);
    forall i | 0 <= i < |dirs| ensures twice[i] == join(workingDir, join(workingDir, dirs[i])) {
      assert twice[i] == join(workingDir, once[i]);
    }
  }

  /** The manifest object `require` returns, with the fields the tool touches. */
  class ElmPackage {
    var repository: string
    var sourceDirectories: seq<string>
    var nativeModules: bool
    var dependencies: map<string, string>

    constructor (repository: string, sourceDirectories: seq<string>, nativeModules: bool, dependencies: map<string, string>)
      ensures this.repository == repository && this.sourceDirectories == sourceDirectories
      ensures this.nativeModules == nativeModules && this.dependencies == dependencies
    {
      this.repository := repository;
      this.sourceDirectories := sourceDirectories;
      this.nativeModules := nativeModules;
      this.dependencies := dependencies;
    }

    /**
     * `fixElmPackage(workingDir, elmPackage)`: turn native modules on,
     * resolve the source directories against the working directory and add
     * `.`, and pin `elm-html-in-elm`. The repository is left alone.
     */
    method Fix(workingDir: string, join: (string, string) -> string)
      modifies this
      ensures nativeModules
      ensures sourceDirectories == FixedSources(join, workingDir, old(sourceDirectories))
      ensures dependencies == FixedDependencies(old(dependencies))
      ensures repository == old(repository)
    {
      nativeModules := true;
      var sources := JoinEach(join, workingDir, sourceDirectories);
      sources := sources + [RenderDir];
      sourceDirectories := sources;
      dependencies := dependencies[HtmlInElm := HtmlInElmRange];
    }
  }
}
