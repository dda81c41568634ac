/**
 * `solve` in `test_packages.py`: a dry-run `create` of the package, whose
 * JSON report lists the packages it would fetch; exactly one FETCH entry
 * must be named after the package, and that entry is what gets tested.
 */
module Solver {
  import opened Wrappers
  import opened Process
  import Json

  /** What `loads(stdout)["actions"]["FETCH"]` finds in the output of a successful solve. */
  datatype SolveOutput =
    | Undecodable                      // `loads` raises
    | NoActions                        // `KeyError: 'actions'`
    | NoFetch                          // `KeyError: 'FETCH'`
    | Fetch(entries: seq<Json.Object>)

  datatype SolveError =
    | BadOutput(output: SolveOutput)   // the output of a successful solve is not a report
    | NamelessEntry(index: nat)        // `KeyError: 'name'` on a FETCH entry
    | NoMatch                          // `ValueError`: not enough values to unpack
    | ManyMatches                      // `ValueError`: too many values to unpack
    | UnboundFetchInfo                 // `UnboundLocalError` at the `return`

  /** What `solve` returns, with the command it ran and the log it wrote (relative to the output root). */
  datatype Solved = Solved(ran: Invocation, status: string, fetchInfo: Option<Json.Object>, log: Option<string>)

  function SolveCommand(package: string, timeout: int, condaImpl: string): Invocation {
    Invocation([condaImpl, "create", "--dry-run", "--name=solve", "--json", package], timeout)
  }

  /** `info["name"] == package`, for an entry that has a name. */
  predicate NamedAfter(entry: Json.Object, package: string) {
    "name" in entry && entry["name"] == Json.Str(package)
  }

  /** How many of the first `n` entries are named after the package. */
  function MatchCount(entries: seq<Json.Object>, package: string, n: nat): nat
    requires n <= |entries|
  {
    if n == 0 then 0
    else MatchCount(entries, package, n - 1) + if NamedAfter(entries[n - 1], package) then 1 else 0
  }

  /** The first `n` entries all have a name. */
  predicate AllNamed(entries: seq<Json.Object>, n: nat)
    requires n <= |entries|
  {
    forall i :: 0 <= i < n ==> "name" in entries[i]
  }

  lemma {:induction false} MatchCountGrows(entries: seq<Json.Object>, package: string, m: nat, n: nat)
    requires m <= n <= |entries|
    ensures MatchCount(entries, package, m) <= MatchCount(entries, package, n)
    decreases n - m
  {
    if m < n {
      MatchCountGrows(entries, package, m, n - 1);
    }
  }

  /** The scan the unpacking does: it stops at a nameless entry or at the second match. */
  function Scan(entries: seq<Json.Object>, package: string, i: nat, found: Option<Json.Object>): (r: Result<Json.Object, SolveError>)
    requires i <= |entries| && AllNamed(entries, i) && MatchCount(entries, package, i) <= 1
    requires found.Some? <==> MatchCount(entries, package, i) == 1
    requires found.Some? ==> found.value in entries && NamedAfter(found.value, package)
    ensures r.Success? ==> AllNamed(entries, |entries|) && MatchCount(entries, package, |entries|) == 1
    ensures r.Success? ==> r.value in entries && NamedAfter(r.value, package)
    ensures r == Failure(NoMatch) ==> AllNamed(entries, |entries|) && MatchCount(entries, package, |entries|) == 0
    ensures r == Failure(ManyMatches) ==>
      exists j :: i <= j < |entries| && AllNamed(entries, j + 1) && MatchCount(entries, package, j + 1) == 2 &&
        NamedAfter(entries[j], package)
    ensures r.Failure? && r.error.NamelessEntry? ==> var k := r.error.index;
      k < |entries| && AllNamed(entries, k) && "name" !in entries[k] && MatchCount(entries, package, k) <= 1
    ensures r.Success? || r == Failure(NoMatch) || r == Failure(ManyMatches) || (r.Failure? && r.error.NamelessEntry?)
    decreases |entries| - i
  {
    if i == |entries| then
      if found.Some? then Success(found.value) else Failure(NoMatch)
    else if "name" !in entries[i] then Failure(NamelessEntry(i))
    else if NamedAfter(entries[i], package) then
      if found.Some? then Failure(ManyMatches)
      else Scan(entries, package, i + 1, Some(entries[i]))
    else Scan(entries, package, i + 1, found)
  }

  /** `(package_fetch_info,) = (info for info in fetch_actions if info["name"] == package)`. */
  function SingleMatch(entries: seq<Json.Object>, package: string): (r: Result<Json.Object, SolveError>)
    ensures r.Success? ==> r.value in entries && NamedAfter(r.value, package)
  {
    Scan(entries, package, 0, None)
  }

  /**
   * The unpacking succeeds exactly when every entry has a name and exactly
   * one is named after the package; it finds no match when every entry has a
   * name and none matches; it finds too many exactly when a second match
   * comes before any nameless entry; and it stops at a nameless entry exactly
   * when fewer than two matches come before it.
   */
  lemma SingleMatchSpec(entries: seq<Json.Object>, package: string)
    ensures SingleMatch(entries, package).Success? <==>
      AllNamed(entries, |entries|) && MatchCount(entries, package, |entries|) == 1
    ensures SingleMatch(entries, package) == Failure(NoMatch) <==>
      AllNamed(entries, |entries|) && MatchCount(entries, package, |entries|) == 0
    ensures SingleMatch(entries, package) == Failure(ManyMatches) <==>
      exists j :: 0 <= j < |entries| && AllNamed(entries, j + 1) && MatchCount(entries, package, j + 1) == 2 &&
        NamedAfter(entries[j], package)
    ensures forall k: nat :: SingleMatch(entries, package) == Failure(NamelessEntry(k)) <==>
      k < |entries| && AllNamed(entries, k) && "name" !in entries[k] && MatchCount(entries, package, k) <= 1
  {
    var r := SingleMatch(entries, package);
    var n := |entries|;
    MatchCountMonotone(entries, package);
    if r == Failure(ManyMatches) {
      var j :| 0 <= j < n && AllNamed(entries, j + 1) && MatchCount(entries, package, j + 1) == 2 &&
        NamedAfter(entries[j], package);
      assert MatchCount(entries, package, j + 1) <= MatchCount(entries, package, n);
    }
  }

  lemma MatchCountMonotone(entries: seq<Json.Object>, package: string)
    ensures forall m, n :: 0 <= m <= n <= |entries| ==> MatchCount(entries, package, m) <= MatchCount(entries, package, n)
  {
    forall m, n | 0 <= m <= n <= |entries|
      ensures MatchCount(entries, package, m) <= MatchCount(entries, package, n)
    {
      MatchCountGrows(entries, package, m, n);
    }
  }

  /** The log `solve` writes for an unsuccessful solve. */
  function SolveLog(package: string, condaImpl: string, status: string): Option<string> {
    LogPath(package, condaImpl + "-create.log.json", status)
  }

  /** The FETCH entry of a successful solve, or the exception looking for it raises. */
  function FetchInfo(package: string, output: SolveOutput): (r: Result<Json.Object, SolveError>)
    ensures r.Success? <==> output.Fetch? && SingleMatch(output.entries, package).Success?
    ensures r.Success? ==> r == SingleMatch(output.entries, package)
  {
    match output
    case Fetch(entries) => SingleMatch(entries, package)
    case _ => Failure(BadOutput(output))
  }

  /**
   * `solve` with the fetch information starting out as `None` (the local the
   * code initialises is named `fetch_info`, not `package_fetch_info`): an
   * unsuccessful solve reports its status with no fetch information and a log.
   */
  function Solve(package: string, timeout: int, condaImpl: string, outcome: Outcome<SolveOutput>): (r: Result<Solved, SolveError>)
    ensures r.Success? ==> r.value.ran == SolveCommand(package, timeout, condaImpl)
    ensures r.Success? ==> r.value.status == Classify(outcome)
    ensures r.Success? ==> r.value.log == SolveLog(package, condaImpl, r.value.status)
    ensures r.Success? ==> (r.value.fetchInfo.Some? <==> r.value.status == StatusSuccess)
    ensures r.Failure? <==> outcome.Exited? && outcome.code == 0 && FetchInfo(package, outcome.output).Failure?
    ensures r.Success? && r.value.fetchInfo.Some? ==>
      outcome.Exited? && r.value.fetchInfo.value == FetchInfo(package, outcome.output).value
  {
    var ran := SolveCommand(package, timeout, condaImpl);
    var status := Classify(outcome);
    if status == StatusSuccess then
      var info :- FetchInfo(package, outcome.output);
      Success(Solved(ran, status, Some(info), None))
    else
      Success(Solved(ran, status, None, SolveLog(package, condaImpl, status)))
  }

  /**
   * `solve` as the code stands: after a timeout or a failed solve it writes
   * the log and then returns a local that was never bound.
   */
  function SolveAsWritten(package: string, timeout: int, condaImpl: string, outcome: Outcome<SolveOutput>): (r: Result<Solved, SolveError>)
  {
    var ran := SolveCommand(package, timeout, condaImpl);
    var status := Classify(outcome);
    if status == StatusSuccess then
      var info :- FetchInfo(package, outcome.output);
      Success(Solved(ran, status, Some(info), None))
    else
      Failure(UnboundFetchInfo)
  }

  /**
   * The two agree on every successful solve, but every timeout and every
   * failed solve raises in the code as written instead of being reported.
   */
  lemma SolveAsWrittenRaises(package: string, timeout: int, condaImpl: string, outcome: Outcome<SolveOutput>)
    ensures Classify(outcome) == StatusSuccess ==>
      SolveAsWritten(package, timeout, condaImpl, outcome) == Solve(package, timeout, condaImpl, outcome)
    ensures Classify(outcome) != StatusSuccess ==>
      && SolveAsWritten(package, timeout, condaImpl, outcome) == Failure(UnboundFetchInfo)
      && Solve(package, timeout, condaImpl, outcome).Success?
  {
  }

  /** A solve that runs out of time: the code as written raises where a timeout was meant to be reported. */
  lemma TimeoutRaises(package: string)
    ensures SolveAsWritten(package, TimeoutMambaCreate, "mamba", TimedOut) == Failure(UnboundFetchInfo)
    ensures Solve(package, TimeoutMambaCreate, "mamba", TimedOut) ==
      Success(Solved(SolveCommand(package, TimeoutMambaCreate, "mamba"), StatusTimeout, None, Some(package + "/mamba-create.log.json")))
  {
    assert package + "/" + ("mamba" + "-create.log.json") == package + "/mamba-create.log.json";
  }
}
