/**
 * Path arithmetic of WriteableFile.kt: `pathDifference`, and the destination that
 * `ExistingFile.writeTo` computes from it.
 */
module WriteableFile {
  import opened Wrappers

  /**
   * A java.nio.file.Path: whether it starts at the file-system root, and the names of
   * its elements (`Path.toList()` yields one single-name path per element; the root
   * itself is not an element). Each name is non-empty in the paths modelled here.
   */
  datatype Path = Path(rooted: bool, names: seq<string>)

  /** `Path.of("/")`. */
  const Root: Path := Path(true, [])

  /**
   * The neutral seed of a relative fold: no element at all. It stands for no Java
   * path; Java's `Path.of("")` has one element, the empty name.
   */
  const Here: Path := Path(false, [])

  /** Message of the IllegalArgumentException thrown by a failed Kotlin `require`. */
  const FailedRequirement: string := "Failed requirement."

  /**
   * `base.resolve(other)`: a rooted `other` replaces `base` entirely, a relative
   * one is appended to it.
   */
  function Resolve(base: Path, other: Path): Path
  {
    if other.rooted then other else Path(base.rooted, base.names + other.names)
  }

  /** The left fold `names.fold(acc) { p, n -> p.resolve(n) }` over single-name relative paths. */
  function ResolveAll(acc: Path, names: seq<string>): Path
    decreases |names|
  {
    if names == [] then acc else ResolveAll(Resolve(acc, Path(false, [names[0]])), names[1..])
  }

  /** Folding name elements onto a path appends them and keeps its rootedness. */
  lemma {:induction false} ResolveAllAppends(acc: Path, names: seq<string>)
    ensures ResolveAll(acc, names) == Path(acc.rooted, acc.names + names)
    decreases |names|
  {
    if names != [] {
      var next := Resolve(acc, Path(false, [names[0]]));
      ResolveAllAppends(next, names[1..]);
      assert next.names + names[1..] == acc.names + names;
    }
  }

  /** True when `shorter`'s names are a proper prefix of `longer`'s: both `require`s of pathDifference. */
  predicate IsProperPrefix(shorter: seq<string>, longer: seq<string>)
  {
    |shorter| < |longer| && longer[..|shorter|] == shorter
  }

  /**
   * pathDifference as written: both `require`s, then the last `differenceSize`
   * names folded onto `Path.of("/")`, so the difference comes out rooted.
   */
  function PathDifferenceAsWritten(shorterPath: Path, longerPath: Path): (r: Result<Path>)
    ensures r.Success? <==> IsProperPrefix(shorterPath.names, longerPath.names)
    ensures r.Failure? ==> r.error == FailedRequirement
    ensures r.Success? ==> r.value.rooted
    ensures r.Success? ==> shorterPath.names + r.value.names == longerPath.names
  {
    var shorterList, longerList := shorterPath.names, longerPath.names;
    if !(|shorterList| < |longerList|) then Failure(FailedRequirement)
    else
      var differenceSize := |longerList| - |shorterList|;
      var shouldBeShorterList := longerList[..|longerList| - differenceSize];
      if shouldBeShorterList != shorterList then Failure(FailedRequirement)
      else
        var tail := longerList[|longerList| - differenceSize..];
        ResolveAllAppends(Root, tail);
        assert shorterList + tail == longerList;
        Success(ResolveAll(Root, tail))
  }

  /**
   * pathDifference as its documentation describes it: the same two checks, the same
   * tail, but a RELATIVE result (`d/e`, not `/d/e`).
   */
  function PathDifference(shorterPath: Path, longerPath: Path): (r: Result<Path>)
    ensures r.Success? <==> IsProperPrefix(shorterPath.names, longerPath.names)
    ensures r.Failure? ==> r.error == FailedRequirement
    ensures r.Success? ==> !r.value.rooted
    ensures r.Success? ==> |r.value.names| == |longerPath.names| - |shorterPath.names| >= 1
    ensures r.Success? ==> r.value.names == longerPath.names[|shorterPath.names|..]
    ensures r.Success? ==> shorterPath.names + r.value.names == longerPath.names
  {
    var shorterList, longerList := shorterPath.names, longerPath.names;
    if !(|shorterList| < |longerList|) then Failure(FailedRequirement)
    else
      var differenceSize := |longerList| - |shorterList|;
      if longerList[..|longerList| - differenceSize] != shorterList then Failure(FailedRequirement)
      else
        var tail := longerList[|longerList| - differenceSize..];
        ResolveAllAppends(Here, tail);
        assert shorterList + tail == longerList;
        Success(ResolveAll(Here, tail))
  }

  /** Both versions agree on the name elements; they differ only in rootedness. */
  lemma PathDifferenceSameNames(shorterPath: Path, longerPath: Path)
    ensures PathDifferenceAsWritten(shorterPath, longerPath).Success?
        <==> PathDifference(shorterPath, longerPath).Success?
    ensures PathDifference(shorterPath, longerPath).Success? ==>
        PathDifferenceAsWritten(shorterPath, longerPath).value.names
        == PathDifference(shorterPath, longerPath).value.names
  {
  }

  /** The target `ExistingFile.writeTo` copies to: `Path.of(destination).resolve(pathDifference(base, path))`. */
  function CopyTargetAsWritten(destination: Path, basePath: Path, path: Path): (r: Result<Path>)
    ensures r.Success? <==> IsProperPrefix(basePath.names, path.names)
  {
    match PathDifferenceAsWritten(basePath, path)
    case Success(diff) => Success(Resolve(destination, diff))
    case Failure(e) => Failure(e)
  }

  /** The same target computed with the relative difference. */
  function CopyTarget(destination: Path, basePath: Path, path: Path): (r: Result<Path>)
    ensures r.Success? <==> IsProperPrefix(basePath.names, path.names)
    ensures r.Success? ==> r.value.rooted == destination.rooted
    ensures r.Success? ==> r.value.names == destination.names + path.names[|basePath.names|..]
  {
    match PathDifference(basePath, path)
    case Success(diff) => Success(Resolve(destination, diff))
    case Failure(e) => Failure(e)
  }

  /** As written, the destination never reaches the copy target: the rooted difference replaces it. */
  lemma CopyTargetAsWrittenIgnoresDestination(destination: Path, other: Path, basePath: Path, path: Path)
    ensures CopyTargetAsWritten(destination, basePath, path) == CopyTargetAsWritten(other, basePath, path)
    ensures CopyTargetAsWritten(destination, basePath, path).Success? ==>
        CopyTargetAsWritten(destination, basePath, path).value == Path(true, path.names[|basePath.names|..])
  {
  }

  /** The documented example, `/a/b/c` against `/a/b/c/d/e`. */
  lemma DocumentedExample(destination: Path)
    ensures PathDifference(Path(true, ["a", "b", "c"]), Path(true, ["a", "b", "c", "d", "e"]))
        == Success(Path(false, ["d", "e"]))
    ensures PathDifferenceAsWritten(Path(true, ["a", "b", "c"]), Path(true, ["a", "b", "c", "d", "e"]))
        == Success(Path(true, ["d", "e"]))
    ensures CopyTargetAsWritten(destination, Path(true, ["a", "b", "c"]), Path(true, ["a", "b", "c", "d", "e"]))
        == Success(Path(true, ["d", "e"]))
    ensures CopyTarget(destination, Path(true, ["a", "b", "c"]), Path(true, ["a", "b", "c", "d", "e"]))
        == Success(Path(destination.rooted, destination.names + ["d", "e"]))
  {
    var s: seq<string> := ["a", "b", "c"];
    var l: seq<string> := ["a", "b", "c", "d", "e"];
    assert l[..3] == s;
    assert l[3..] == ["d", "e"];
  }
}
