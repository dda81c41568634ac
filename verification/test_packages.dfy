/**
 * `test_packages.py`: for one platform, test every package listed for any of
 * the given subdirectories, in sorted order. Each package is solved with
 * `mamba`; when the solve yields the package's FETCH entry, that file is
 * downloaded and tested, and a status document records the outcome.
 */
module TestPackages {
  import opened Wrappers
  import opened Process
  import Json
  import Solver
  import Builder
  import ListFiles
  import Sorting

  const Implementation := "mamba"
  const BuildImplementation := "conda-mambabuild"

  /** The fields of the FETCH entry copied into the status record, in the order the code reads them. */
  const PackageKeys := ["name", "version", "build", "build_number", "subdir", "channel"]

  /** The record `test_package_mamba` returns. */
  datatype MambaStatus = MambaStatus(implementation: string, solve: string, test: string, package: Option<Json.Object>)

  /** What happens outside the code while one package is tested: how the solve ends, whether the download goes through, how the test ends. */
  datatype World = World(solve: Outcome<Solver.SolveOutput>, downloaded: bool, build: Outcome<()>)

  datatype TestError =
    | SolveFailed(solveError: Solver.SolveError)
    | MissingKey(key: string)                     // `KeyError` copying the FETCH entry
    | BuildFailed(buildError: Builder.BuildError)

  /** One package's record and the logs written for it, relative to the output root. */
  datatype Tested = Tested(status: MambaStatus, logs: seq<string>)

  /** The first of `keys`, from position `i` on, that `info` lacks. */
  function FirstMissing(info: Json.Object, keys: seq<string>, i: nat): (r: Option<nat>)
    requires i <= |keys|
    ensures r.None? <==> forall j :: i <= j < |keys| ==> keys[j] in info
    ensures r.Some? ==>
      && i <= r.value < |keys|
      && keys[r.value] !in info
      && forall j :: i <= j < r.value ==> keys[j] in info
    decreases |keys| - i
  {
    if i == |keys| then None
    else if keys[i] !in info then Some(i)
    else FirstMissing(info, keys, i + 1)
  }

  /**
   * `{key: package_fetch_info[key] for key in (...)}`: the six fields of the
   * FETCH entry, or the `KeyError` for the first one it lacks.
   */
  function Project(info: Json.Object): (r: Result<Json.Object, TestError>)
    ensures r.Success? <==> forall k :: k in PackageKeys ==> k in info
    ensures r.Success? ==> r.value.Keys == Sorting.Elems(PackageKeys) && forall k :: k in r.value ==> r.value[k] == info[k]
    ensures r.Failure? ==>
      exists i :: 0 <= i < |PackageKeys| && r.error == MissingKey(PackageKeys[i]) && PackageKeys[i] !in info &&
        forall j :: 0 <= j < i ==> PackageKeys[j] in info
  {
    match FirstMissing(info, PackageKeys, 0)
    case Some(i) => Failure(MissingKey(PackageKeys[i]))
    case None =>
      assert forall k :: k in PackageKeys ==> k in info by {
        forall k | k in PackageKeys ensures k in info {
          var j :| 0 <= j < |PackageKeys| && PackageKeys[j] == k;
        }
      }
      Success(map k | k in PackageKeys :: info[k])
  }

  function LogList(log: Option<string>): seq<string> {
    if log.Some? then [log.value] else []
  }

  /**
   * `test_package_mamba` over the corrected `solve`, which reports an
   * unsuccessful solve as a status: the solve status is always recorded; the
   * package is tested only when the solve yields a FETCH entry, and then its
   * six fields and the test status are recorded too.
   */
  function TestPackageMamba(package: string, world: World): (r: Result<Tested, TestError>)
    ensures r.Success? ==> r.value.status.implementation == Implementation
    ensures r.Success? ==> r.value.status.solve == Classify(world.solve)
    ensures Classify(world.solve) != StatusSuccess ==>
      r == Success(Tested(MambaStatus(Implementation, Classify(world.solve), NotRun, None),
                          [package + "/" + Implementation + "-create.log.json"]))
    ensures r.Success? && r.value.status.test != NotRun ==>
      && world.solve.Exited? && world.solve.code == 0
      && r.value.status.test == Classify(world.build)
      && r.value.status.package.Some?
      && r.value.status.package.value.Keys == Sorting.Elems(PackageKeys)
  {
    match Solver.Solve(package, TimeoutMambaCreate, Implementation, world.solve)
    case Failure(e) => Failure(SolveFailed(e))
    case Success(solved) =>
      assert package + "/" + (Implementation + "-create.log.json") == package + "/" + Implementation + "-create.log.json";
      AfterSolve(package, world, solved)
  }

  /**
   * `test_package_mamba` over `solve` as the code stands: it agrees with the
   * corrected one whenever the solve succeeds, and raises on every timeout
   * and every failed solve.
   */
  function TestPackageMambaAsWritten(package: string, world: World): (r: Result<Tested, TestError>)
    ensures Classify(world.solve) == StatusSuccess ==> r == TestPackageMamba(package, world)
    ensures Classify(world.solve) != StatusSuccess ==> r == Failure(SolveFailed(Solver.UnboundFetchInfo))
  {
    Solver.SolveAsWrittenRaises(package, TimeoutMambaCreate, Implementation, world.solve);
    match Solver.SolveAsWritten(package, TimeoutMambaCreate, Implementation, world.solve)
    case Failure(e) => Failure(SolveFailed(e))
    case Success(solved) => AfterSolve(package, world, solved)
  }

  /** The rest of `test_package_mamba` once `solve` has returned. */
  function AfterSolve(package: string, world: World, solved: Solver.Solved): Result<Tested, TestError> {
    var status := MambaStatus(Implementation, solved.status, NotRun, None);
    var logs := LogList(solved.log);
    if solved.fetchInfo.None? || |solved.fetchInfo.value| == 0 then Success(Tested(status, logs))
    else
      var info := solved.fetchInfo.value;
      match Project(info)
      case Failure(e) => Failure(e)
      case Success(record) =>
        match Builder.TestBuild(package, info, TimeoutMambabuild, BuildImplementation, world.downloaded, world.build)
        case Failure(e) => Failure(BuildFailed(e))
        case Success(built) =>
          Success(Tested(status.(package := Some(record), test := built.status), logs + LogList(built.log)))
  }

  /**
   * A solve that yields the package's FETCH entry, with all six fields and a
   * usable URL, file name and subdirectory, and a download that goes
   * through: the record holds the solve's success, the test's status and the
   * six fields, and the only log is the test's, when it did not succeed.
   */
  lemma TestedWhenSolved(package: string, world: World, entries: seq<Json.Object>, info: Json.Object)
    requires world.solve == Exited(0, Solver.Fetch(entries))
    requires Solver.SingleMatch(entries, package) == Success(info)
    requires forall k :: k in PackageKeys ==> k in info
    requires Builder.Usable(info) && world.downloaded
    ensures TestPackageMamba(package, world) ==
      Success(Tested(MambaStatus(Implementation, StatusSuccess, Classify(world.build), Some(map k | k in PackageKeys :: info[k])),
                     LogList(LogPath(package, BuildImplementation + "-create.log", Classify(world.build)))))
  {
    var solved := Solver.Solve(package, TimeoutMambaCreate, Implementation, world.solve);
    assert solved.Success? && solved.value.fetchInfo == Some(info) && solved.value.log.None?;
    assert "name" in info;
    assert |info| > 0 by {
      assert info.Keys != {};
    }
    var built := Builder.TestBuild(package, info, TimeoutMambabuild, BuildImplementation, world.downloaded, world.build);
    assert built.Success? && built.value.status == Classify(world.build);
    assert built.value.log == LogPath(package, BuildImplementation + "-create.log", Classify(world.build));
    assert Project(info) == Success(map k | k in PackageKeys :: info[k]);
    var r := TestPackageMamba(package, world);
    assert r.Success?;
    assert r.value.status == MambaStatus(Implementation, StatusSuccess, Classify(world.build), Some(map k | k in PackageKeys :: info[k]));
    assert r.value.logs == LogList(built.value.log);
  }

  /**
   * Testing a package raises exactly when its solve succeeds but the FETCH
   * entry cannot be found, lacks one of the six fields, or cannot be
   * downloaded and tested.
   */
  lemma MambaErrors(package: string, world: World)
    ensures TestPackageMamba(package, world).Failure? <==>
      && world.solve.Exited? && world.solve.code == 0
      && var found := Solver.FetchInfo(package, world.solve.output);
         (|| found.Failure?
          || Project(found.value).Failure?
          || Builder.TestBuild(package, found.value, TimeoutMambabuild, BuildImplementation, world.downloaded, world.build).Failure?)
  {
    if world.solve.Exited? && world.solve.code == 0 {
      var found := Solver.FetchInfo(package, world.solve.output);
      if found.Success? {
        assert "name" in found.value;
      }
    }
  }

  /** The status document `test_package` writes to `<package>/status.json`. */
  datatype StatusDocument = StatusDocument(name: string, platform: string, status: seq<MambaStatus>)

  /** The document as `json.dump` writes it: three top-level keys, the record list nested. */
  function DocumentJson(doc: StatusDocument): (r: Json.Object)
    ensures r.Keys == {"name", "platform", "status"}
  {
    map["name" := Json.Str(doc.name), "platform" := Json.Str(doc.platform), "status" := Json.Nested]
  }

  function StatusPath(package: string): string {
    package + "/status.json"
  }

  /** `test_package`: the package's name, the platform, and its one record. */
  function TestPackage(platform: string, package: string, world: World): (r: Result<StatusDocument, TestError>)
    ensures r.Success? <==> TestPackageMamba(package, world).Success?
    ensures r.Success? ==>
      && r.value.name == package
      && r.value.platform == platform
      && r.value.status == [TestPackageMamba(package, world).value.status]
    ensures r.Failure? ==> r.error == TestPackageMamba(package, world).error
  {
    var tested :- TestPackageMamba(package, world);
    Success(StatusDocument(package, platform, [tested.status]))
  }

  /** `test_package` as the code stands: no document for a package whose solve does not succeed. */
  function TestPackageAsWritten(platform: string, package: string, world: World): (r: Result<StatusDocument, TestError>)
    ensures Classify(world.solve) == StatusSuccess ==> r == TestPackage(platform, package, world)
    ensures Classify(world.solve) != StatusSuccess ==> r == Failure(SolveFailed(Solver.UnboundFetchInfo))
  {
    var tested :- TestPackageMambaAsWritten(package, world);
    Success(StatusDocument(package, platform, [tested.status]))
  }

  // ----- which packages a run tests -----

  /** Python's `<` on `str`: code point by code point, a proper prefix first. */
  predicate LexLess(a: string, b: string)
    decreases |a|
  {
    if |a| == 0 then |b| > 0
    else |b| > 0 && (a[0] < b[0] || (a[0] == b[0] && LexLess(a[1..], b[1..])))
  }

  lemma {:induction false} LexIrreflexive(a: string)
    ensures !LexLess(a, a)
    decreases |a|
  {
    if |a| > 0 {
      LexIrreflexive(a[1..]);
    }
  }

  lemma {:induction false} LexTransitive(a: string, b: string, c: string)
    requires LexLess(a, b) && LexLess(b, c)
    ensures LexLess(a, c)
    decreases |a|
  {
    if |a| > 0 && a[0] == b[0] && b[0] == c[0] {
      LexTransitive(a[1..], b[1..], c[1..]);
    }
  }

  lemma {:induction false} LexConnected(a: string, b: string)
    requires a != b
    ensures LexLess(a, b) || LexLess(b, a)
    decreases |a|
  {
    if |a| > 0 && |b| > 0 && a[0] == b[0] {
      assert a == [a[0]] + a[1..] && b == [b[0]] + b[1..];
      LexConnected(a[1..], b[1..]);
    }
  }

  /** `str` comparison is a strict total order, so `sorted` of a set of names is determined. */
  lemma LexStrictTotal(xs: set<string>)
    ensures Sorting.StrictTotalOn(LexLess, xs)
  {
    forall a | a in xs ensures !LexLess(a, a) {
      LexIrreflexive(a);
    }
    forall a, b, c | a in xs && b in xs && c in xs && LexLess(a, b) && LexLess(b, c) ensures LexLess(a, c) {
      LexTransitive(a, b, c);
    }
    forall a, b | a in xs && b in xs && a != b ensures LexLess(a, b) || LexLess(b, a) {
      LexConnected(a, b);
    }
  }

  /** `workspace / "selected_packages" / f"{subdir}.txt"`, when it is a file. */
  function ListFile(lists: map<string, string>, subdir: string): Option<string> {
    if subdir in lists then Some(lists[subdir]) else None
  }

  /** The lines of every subdirectory's list, one list after the other. */
  function ListedLines(subdirs: seq<string>, lists: map<string, string>): (r: seq<string>)
    ensures forall p :: p in r <==> exists s :: s in subdirs && p in ListFiles.GetLines(ListFile(lists, s))
    decreases |subdirs|
  {
    if |subdirs| == 0 then []
    else
      var rest := ListedLines(subdirs[1..], lists);
      assert forall s :: s in subdirs <==> s == subdirs[0] || s in subdirs[1..];
      ListFiles.GetLines(ListFile(lists, subdirs[0])) + rest
  }

  /**
   * `sorted({package for subdir in subdirs for package in get_lines(...)})`:
   * every package listed for any of the subdirectories, once each, in
   * increasing order.
   */
  function PackagesToTest(subdirs: seq<string>, lists: map<string, string>): (r: seq<string>)
    ensures Sorting.StrictlySorted(LexLess, r)
    ensures Sorting.Distinct(r)
    ensures forall p :: p in r <==> exists s :: s in subdirs && p in ListFiles.GetLines(ListFile(lists, s))
  {
    var lines := ListedLines(subdirs, lists);
    LexStrictTotal(Sorting.Elems(lines));
    var r := Sorting.Sort(LexLess, lines);
    Sorting.SortedDistinct(LexLess, r);
    assert forall p :: p in r <==> p in Sorting.Elems(lines);
    r
  }

  datatype MainError =
    | NoSubdirs                                   // `TypeError`: `--subdir` never given
    | TestFailed(package: string, error: TestError)

  /**
   * `main`: the platform is the first subdirectory given; the packages are
   * tested one after the other, each writing its status document, until one
   * raises. The documents written before that remain.
   */
  method TestMain(subdirs: seq<string>, lists: map<string, string>, world: string -> World)
    returns (documents: seq<StatusDocument>, error: Option<MainError>)
    ensures |subdirs| == 0 ==> documents == [] && error == Some(NoSubdirs)
    ensures |subdirs| > 0 ==>
      var packages := PackagesToTest(subdirs, lists);
      && |documents| <= |packages|
      && (forall i :: 0 <= i < |documents| ==>
            TestPackage(subdirs[0], packages[i], world(packages[i])) == Success(documents[i]))
      && (error.None? <==> |documents| == |packages|)
      && (error.Some? ==>
            var failed := packages[|documents|];
            && TestPackage(subdirs[0], failed, world(failed)).Failure?
            && error == Some(TestFailed(failed, TestPackage(subdirs[0], failed, world(failed)).error)))
  {
    if |subdirs| == 0 {
      return [], Some(NoSubdirs);
    }
    var platform := subdirs[0];
    var packages := PackagesToTest(subdirs, lists);
    var failure;
    documents, failure := RunAll(packages, p => TestPackage(platform, p, world(p)));
    error := if failure.Some? then Some(TestFailed(failure.value.0, failure.value.1)) else None;
  }

  /**
   * `main` as the code stands: documents are written only for packages whose
   * solve succeeds, and the run stops at the first package whose solve times
   * out or fails, if it has not stopped before.
   */
  method TestMainAsWritten(subdirs: seq<string>, lists: map<string, string>, world: string -> World)
    returns (documents: seq<StatusDocument>, error: Option<MainError>)
    ensures |subdirs| == 0 ==> documents == [] && error == Some(NoSubdirs)
    ensures |subdirs| > 0 ==>
      var packages := PackagesToTest(subdirs, lists);
      && |documents| <= |packages|
      && (forall i :: 0 <= i < |documents| ==>
            && Classify(world(packages[i]).solve) == StatusSuccess
            && TestPackage(subdirs[0], packages[i], world(packages[i])) == Success(documents[i]))
      && (forall i :: 0 <= i < |packages| && Classify(world(packages[i]).solve) != StatusSuccess ==>
            |documents| <= i && error.Some?)
      && (error.None? <==> |documents| == |packages|)
      && (error.Some? ==>
            var failed := packages[|documents|];
            && (Classify(world(failed).solve) != StatusSuccess || TestPackage(subdirs[0], failed, world(failed)).Failure?)
            && error == Some(TestFailed(failed, TestPackageAsWritten(subdirs[0], failed, world(failed)).error)))
  {
    if |subdirs| == 0 {
      return [], Some(NoSubdirs);
    }
    var platform := subdirs[0];
    var packages := PackagesToTest(subdirs, lists);
    var failure;
    var test := p => TestPackageAsWritten(platform, p, world(p));
    documents, failure := RunAll(packages, test);
    forall i | 0 <= i < |documents|
      ensures Classify(world(packages[i]).solve) == StatusSuccess
      ensures TestPackage(platform, packages[i], world(packages[i])) == Success(documents[i])
    {
      assert test(packages[i]) == Success(documents[i]);
    }
    error := if failure.Some? then Some(TestFailed(failure.value.0, failure.value.1)) else None;
  }

  /** The loop of `main`: run `test` on each package in turn, stopping at the first that raises. */
  method RunAll<D, E>(packages: seq<string>, test: string -> Result<D, E>)
    returns (done: seq<D>, failure: Option<(string, E)>)
    ensures |done| <= |packages|
    ensures forall i :: 0 <= i < |done| ==> test(packages[i]) == Success(done[i])
    ensures failure.None? <==> |done| == |packages|
    ensures failure.Some? ==>
      var failed := packages[|done|];
      test(failed).Failure? && failure == Some((failed, test(failed).error))
  {
    done := [];
    var i := 0;
    while i < |packages|
      invariant 0 <= i <= |packages| && |done| == i
      invariant forall j :: 0 <= j < i ==> test(packages[j]) == Success(done[j])
    {
      var r := test(packages[i]);
      if r.Failure? {
        return done, Some((packages[i], r.error));
      }
      done := done + [r.value];
      i := i + 1;
    }
    return done, None;
  }
}
