/**
 * `select_packages.py`: which packages to test next. Every package of the
 * download snapshot that is not being tested elsewhere is ranked by the time
 * it was last processed (oldest first) and then by downloads (most first); the
 * first `num_packages` of that ranking are selected.
 */
module Selection {
  import opened Wrappers
  import opened UtcTime
  import opened OrderedDict
  import Sorting
  import Json

  // ----- the download snapshot -----

  /**
   * A path matched by `channel_dir.glob("*.json")`: a statistics file naming a
   * package and the `total` of each entry of its `downloads_per_date`, or a
   * path that is not a regular file and is skipped.
   */
  datatype ChannelEntry = StatsFile(package: string, totals: seq<int>) | NotAFile

  datatype SelectError =
    | EmptySeries(package: string)                  // `IndexError` on `downloads_per_date[-1]`
    | MissingKey(dir: string, key: string)          // `KeyError` reading a status document
    | NotAString(dir: string, key: string)          // `TypeError`: `strptime` needs a string
    | BadTimestamp(dir: string, error: ParseError)  // `ValueError` from `parse_utc_time`

  /** Package name to latest total downloads, in the dict's insertion order. */
  type Downloads = seq<Entry<string, int>>

  /** `fetch_package_downloads`: the last reported total of every package, later files overwriting earlier ones. */
  function FetchPackageDownloads(entries: seq<ChannelEntry>): (r: Result<Downloads, SelectError>)
    ensures r.Success? ==> DistinctKeys(r.value)
    decreases |entries|
  {
    if |entries| == 0 then Success([])
    else
      var before :- FetchPackageDownloads(entries[..|entries| - 1]);
      match entries[|entries| - 1]
      case NotAFile => Success(before)
      case StatsFile(package, totals) =>
        if |totals| == 0 then Failure(EmptySeries(package))
        else Success(Put(before, package, totals[|totals| - 1]))
  }

  /** The packages that some statistics file names. */
  function FilePackages(entries: seq<ChannelEntry>): set<string> {
    set i | 0 <= i < |entries| && entries[i].StatsFile? :: entries[i].package
  }

  /** The last `total` of the last statistics file naming `package`. */
  function LastReported(entries: seq<ChannelEntry>, package: string): Option<int> {
    if |entries| == 0 then None
    else
      var e := entries[|entries| - 1];
      if e.StatsFile? && e.package == package && |e.totals| > 0
      then Some(e.totals[|e.totals| - 1])
      else LastReported(entries[..|entries| - 1], package)
  }

  predicate HasEmptySeries(entries: seq<ChannelEntry>) {
    exists i :: 0 <= i < |entries| && entries[i].StatsFile? && |entries[i].totals| == 0
  }

  /**
   * Loading the snapshot raises exactly when some statistics file has an empty
   * series; otherwise it holds every package some file names, each with the
   * last total of the last file naming it.
   */
  lemma {:induction false} FetchDownloadsSpec(entries: seq<ChannelEntry>)
    ensures FetchPackageDownloads(entries).Failure? <==> HasEmptySeries(entries)
    ensures FetchPackageDownloads(entries).Success? ==>
      && KeySet(FetchPackageDownloads(entries).value) == FilePackages(entries)
      && forall p :: p in FilePackages(entries) ==>
           Get(FetchPackageDownloads(entries).value, p) == LastReported(entries, p)
    decreases |entries|
  {
    if |entries| > 0 {
      var init := entries[..|entries| - 1];
      var e := entries[|entries| - 1];
      FetchDownloadsSpec(init);
      EmptySeriesStep(entries);
      FilePackagesStep(entries);
      var r := FetchPackageDownloads(entries);
      if r.Success? && e.StatsFile? {
        var before := FetchPackageDownloads(init).value;
        forall p | p in FilePackages(entries)
          ensures Get(r.value, p) == LastReported(entries, p)
        {
          if p != e.package {
            PutOthers(before, e.package, e.totals[|e.totals| - 1], p);
          }
        }
      }
    }
  }

  lemma EmptySeriesStep(entries: seq<ChannelEntry>)
    requires |entries| > 0
    ensures var e := entries[|entries| - 1];
      HasEmptySeries(entries) <==> HasEmptySeries(entries[..|entries| - 1]) || (e.StatsFile? && |e.totals| == 0)
  {
    var init := entries[..|entries| - 1];
    if HasEmptySeries(entries) {
      var i :| 0 <= i < |entries| && entries[i].StatsFile? && |entries[i].totals| == 0;
      if i < |init| {
        assert init[i] == entries[i];
      }
    }
    if HasEmptySeries(init) {
      var i :| 0 <= i < |init| && init[i].StatsFile? && |init[i].totals| == 0;
      assert entries[i] == init[i];
    }
  }

  lemma FilePackagesStep(entries: seq<ChannelEntry>)
    requires |entries| > 0
    ensures var e := entries[|entries| - 1];
      FilePackages(entries) == FilePackages(entries[..|entries| - 1]) + (if e.StatsFile? then {e.package} else {})
  {
    var init := entries[..|entries| - 1];
    var e := entries[|entries| - 1];
    forall p | p in FilePackages(entries) ensures p in FilePackages(init) + (if e.StatsFile? then {e.package} else {}) {
      var i :| 0 <= i < |entries| && entries[i].StatsFile? && entries[i].package == p;
      if i < |init| {
        assert init[i] == entries[i];
      }
    }
    forall p | p in FilePackages(init) ensures p in FilePackages(entries) {
      var i :| 0 <= i < |init| && init[i].StatsFile? && init[i].package == p;
      assert entries[i] == init[i];
    }
  }

  // ----- status documents and the staleness rule -----

  /**
   * A directory under `status`: its name and the decoded
   * `status.json` inside it, or `None` when there is no such file.
   */
  datatype StatusDir = StatusDir(name: string, statusFile: Option<Json.Object>)

  const Running := "running"

  /** `(now - started).days`: the whole days elapsed, rounded down as `timedelta` normalises them. */
  function AgeDays(now: DateTime, started: DateTime): int {
    ((now.seconds - started.seconds) * MicrosPerSecond + (now.micro - started.micro)) / (86400 * MicrosPerSecond)
  }

  /** The last-processed time `get_processed_packages` records for one status document. */
  function ProcessedTime(now: DateTime, state: Json.Value, started: DateTime): DateTime {
    if state == Json.Str(Running) then
      if AgeDays(now, started) > 1 then Epoch  // an interrupted job
      else now                                 // a job running elsewhere
    else started                               // a finished job
  }

  /**
   * The staleness rule in elapsed seconds, for a start time read from a status
   * document (so without microseconds): a `running` record at least two whole
   * days old counts as never processed, a younger one (or one dated in the
   * future) as processed `now`, and any other record as processed when it started.
   */
  lemma StalenessRule(now: DateTime, state: Json.Value, started: DateTime)
    requires Valid(now) && started.micro == 0
    ensures state == Json.Str(Running) && now.seconds - started.seconds >= 2 * 86400 ==>
      ProcessedTime(now, state, started) == Epoch
    ensures state == Json.Str(Running) && now.seconds - started.seconds < 2 * 86400 ==>
      ProcessedTime(now, state, started) == now
    ensures state != Json.Str(Running) ==> ProcessedTime(now, state, started) == started
  {
    var d := now.seconds - started.seconds;
    if d >= 2 * 86400 {
      assert d * MicrosPerSecond + now.micro >= 2 * 86400 * MicrosPerSecond;
    } else {
      assert d * MicrosPerSecond + now.micro < 2 * 86400 * MicrosPerSecond;
    }
  }

  /** A status document `get_processed_packages` can read without raising. */
  predicate WellFormed(doc: Json.Object) {
    && "state" in doc
    && "started_at" in doc
    && doc["started_at"].Str?
    && Parse(doc["started_at"].str).Success?
  }

  /** The time the status document of directory `name` records, or the exception reading it raises. */
  function ReadRecord(now: DateTime, name: string, doc: Json.Object): (r: Result<DateTime, SelectError>)
    ensures r.Success? <==> WellFormed(doc)
    ensures r.Success? ==> r.value == ProcessedTime(now, doc["state"], Parse(doc["started_at"].str).value)
  {
    if "state" !in doc then Failure(MissingKey(name, "state"))
    else if "started_at" !in doc then Failure(MissingKey(name, "started_at"))
    else
      match doc["started_at"]
      case Str(text) =>
        (match Parse(text)
         case Failure(e) => Failure(BadTimestamp(name, e))
         case Success(started) => Success(ProcessedTime(now, doc["state"], started)))
      case _ => Failure(NotAString(name, "started_at"))
  }

  /** `get_processed_packages`: the last-processed time of every package with a status document. */
  function GetProcessedPackages(now: DateTime, dirs: seq<StatusDir>): (r: Result<map<string, DateTime>, SelectError>)
    decreases |dirs|
  {
    if |dirs| == 0 then Success(map[])
    else
      var before :- GetProcessedPackages(now, dirs[..|dirs| - 1]);
      var dir := dirs[|dirs| - 1];
      match dir.statusFile
      case None => Success(before)
      case Some(doc) =>
        var time :- ReadRecord(now, dir.name, doc);
        Success(before[dir.name := time])
  }

  predicate Malformed(dirs: seq<StatusDir>, i: int)
    requires 0 <= i < |dirs|
  {
    dirs[i].statusFile.Some? && !WellFormed(dirs[i].statusFile.value)
  }

  /** The directories holding a status document. */
  function RecordedNames(dirs: seq<StatusDir>): set<string> {
    set i | 0 <= i < |dirs| && dirs[i].statusFile.Some? :: dirs[i].name
  }

  /** Directory names are unique, as the entries of one directory are. */
  predicate DistinctNames(dirs: seq<StatusDir>) {
    forall i, j :: 0 <= i < j < |dirs| ==> dirs[i].name != dirs[j].name
  }

  /**
   * Reading the status directory raises exactly when some status document is
   * malformed, and then with the exception of the first such document in
   * directory order.
   */
  lemma ProcessedErrors(now: DateTime, dirs: seq<StatusDir>)
    ensures GetProcessedPackages(now, dirs).Failure? <==> exists i :: 0 <= i < |dirs| && Malformed(dirs, i)
    ensures GetProcessedPackages(now, dirs).Failure? ==>
      exists i :: FirstMalformed(dirs, i) &&
        GetProcessedPackages(now, dirs).error == ReadRecord(now, dirs[i].name, dirs[i].statusFile.value).error
  {
    if GetProcessedPackages(now, dirs).Failure? {
      FailureHasCause(now, dirs);
    }
    forall i | 0 <= i < |dirs| && Malformed(dirs, i)
      ensures GetProcessedPackages(now, dirs).Failure?
    {
      MalformedFails(now, dirs, i);
    }
  }

  lemma {:induction false} FailureHasCause(now: DateTime, dirs: seq<StatusDir>)
    requires GetProcessedPackages(now, dirs).Failure?
    ensures exists i :: (FirstMalformed(dirs, i) &&
      GetProcessedPackages(now, dirs).error == ReadRecord(now, dirs[i].name, dirs[i].statusFile.value).error)
    decreases |dirs|
  {
    var n := |dirs| - 1;
    var before := GetProcessedPackages(now, dirs[..n]);
    var after := GetProcessedPackages(now, dirs);
    ProcessedStep(now, dirs);
    MalformedPrefix(dirs, n);
    if before.Failure? {
      FailureHasCause(now, dirs[..n]);
      var i :| FirstMalformed(dirs[..n], i) &&
        before.error == ReadRecord(now, dirs[..n][i].name, dirs[..n][i].statusFile.value).error;
      assert dirs[..n][i] == dirs[i];
      assert FirstMalformed(dirs, i);
      assert after.error == ReadRecord(now, dirs[i].name, dirs[i].statusFile.value).error;
    } else {
      NoneMalformed(now, dirs[..n]);
      assert FirstMalformed(dirs, n);
      assert after.error == ReadRecord(now, dirs[n].name, dirs[n].statusFile.value).error;
    }
  }

  lemma {:induction false} MalformedFails(now: DateTime, dirs: seq<StatusDir>, i: int)
    requires 0 <= i < |dirs| && Malformed(dirs, i)
    ensures GetProcessedPackages(now, dirs).Failure?
    decreases |dirs|
  {
    var n := |dirs| - 1;
    ProcessedStep(now, dirs);
    if i < n {
      MalformedPrefix(dirs, n);
      MalformedFails(now, dirs[..n], i);
    }
  }

  lemma NoneMalformed(now: DateTime, dirs: seq<StatusDir>)
    requires GetProcessedPackages(now, dirs).Success?
    ensures forall j :: 0 <= j < |dirs| ==> !Malformed(dirs, j)
  {
    forall j | 0 <= j < |dirs| && Malformed(dirs, j)
      ensures false
    {
      MalformedFails(now, dirs, j);
    }
  }

  /** `i` is the first directory, in directory order, whose document is malformed. */
  predicate FirstMalformed(dirs: seq<StatusDir>, i: int) {
    0 <= i < |dirs| && Malformed(dirs, i) && forall j :: 0 <= j < i ==> !Malformed(dirs, j)
  }

  /** One more directory: the walk fails when it failed before or the new document is malformed. */
  lemma ProcessedStep(now: DateTime, dirs: seq<StatusDir>)
    requires |dirs| > 0
    ensures var n := |dirs| - 1;
      var before := GetProcessedPackages(now, dirs[..n]);
      var after := GetProcessedPackages(now, dirs);
      && (after.Failure? <==> before.Failure? || Malformed(dirs, n))
      && (before.Failure? ==> after.error == before.error)
      && (before.Success? && Malformed(dirs, n) ==>
            after.error == ReadRecord(now, dirs[n].name, dirs[n].statusFile.value).error)
  {
  }

  /** Malformedness of a directory does not depend on the directories after it. */
  lemma MalformedPrefix(dirs: seq<StatusDir>, n: nat)
    requires n <= |dirs|
    ensures forall i :: 0 <= i < n ==> (Malformed(dirs, i) <==> Malformed(dirs[..n], i))
  {
    forall i | 0 <= i < n
      ensures Malformed(dirs, i) <==> Malformed(dirs[..n], i)
    {
      assert dirs[..n][i] == dirs[i];
    }
  }

  lemma RecordedNamesStep(dirs: seq<StatusDir>)
    requires |dirs| > 0
    ensures var n := |dirs| - 1;
      RecordedNames(dirs) == RecordedNames(dirs[..n]) + (if dirs[n].statusFile.Some? then {dirs[n].name} else {})
  {
    var n := |dirs| - 1;
    var init := dirs[..n];
    forall p | p in RecordedNames(dirs)
      ensures p in RecordedNames(init) + (if dirs[n].statusFile.Some? then {dirs[n].name} else {})
    {
      var i :| 0 <= i < |dirs| && dirs[i].statusFile.Some? && dirs[i].name == p;
      if i < n {
        assert init[i] == dirs[i];
      }
    }
    forall p | p in RecordedNames(init) ensures p in RecordedNames(dirs) {
      var i :| 0 <= i < n && init[i].statusFile.Some? && init[i].name == p;
      assert dirs[i] == init[i];
    }
  }

  /**
   * When it succeeds, the result holds exactly the directories with a status
   * document, each with the time its document records.
   */
  lemma {:induction false} ProcessedTimes(now: DateTime, dirs: seq<StatusDir>)
    requires DistinctNames(dirs)
    ensures GetProcessedPackages(now, dirs).Success? ==>
      && GetProcessedPackages(now, dirs).value.Keys == RecordedNames(dirs)
      && forall i :: 0 <= i < |dirs| && dirs[i].statusFile.Some? ==>
           ReadRecord(now, dirs[i].name, dirs[i].statusFile.value).Success? &&
           GetProcessedPackages(now, dirs).value[dirs[i].name] == ReadRecord(now, dirs[i].name, dirs[i].statusFile.value).value
    decreases |dirs|
  {
    if |dirs| > 0 && GetProcessedPackages(now, dirs).Success? {
      var init := dirs[..|dirs| - 1];
      var n := |dirs| - 1;
      ProcessedTimes(now, init);
      var r := GetProcessedPackages(now, dirs).value;
      var before := GetProcessedPackages(now, init).value;
      RecordedNamesStep(dirs);
      forall i | 0 <= i < |dirs| && dirs[i].statusFile.Some?
        ensures ReadRecord(now, dirs[i].name, dirs[i].statusFile.value).Success?
        ensures r[dirs[i].name] == ReadRecord(now, dirs[i].name, dirs[i].statusFile.value).value
      {
        if i < n {
          assert init[i] == dirs[i];
          assert dirs[i].name != dirs[n].name;
        }
      }
    }
  }

  // ----- ranking -----

  function Offset(z: Zone): int {
    if z.FixedOffset? then z.offsetSeconds else 0
  }

  /** The instant an aware time denotes, in microseconds since the epoch: what `==`, `!=` and `<` compare. */
  function Instant(t: DateTime): int {
    (t.seconds - Offset(t.zone)) * MicrosPerSecond + t.micro
  }

  /** `processed_packages.get(p, _time0)`. */
  function TimeOf(processed: map<string, DateTime>, p: string): DateTime {
    if p in processed then processed[p] else Epoch
  }

  /** A package of the snapshot with its sort key (time, downloads) and its position in the snapshot. */
  datatype Candidate = Candidate(name: string, time: DateTime, downloads: int, rank: nat)

  /** Python's `(a.time, -a.downloads) < (b.time, -b.downloads)`. */
  predicate KeyLess(a: Candidate, b: Candidate) {
    || Instant(a.time) < Instant(b.time)
    || (Instant(a.time) == Instant(b.time) && b.downloads < a.downloads)
  }

  predicate SameKey(a: Candidate, b: Candidate) {
    Instant(a.time) == Instant(b.time) && a.downloads == b.downloads
  }

  /** The order a stable sort by key leaves candidates in: smaller key first, equal keys in snapshot order. */
  predicate Precedes(a: Candidate, b: Candidate) {
    KeyLess(a, b) || (SameKey(a, b) && a.rank < b.rank)
  }

  lemma PrecedesTotal(cs: set<Candidate>)
    requires forall a, b :: a in cs && b in cs && a.rank == b.rank ==> a == b
    ensures Sorting.StrictTotalOn(Precedes, cs)
  {
  }

  /** The `i`-th package of the snapshot as a candidate. */
  function CandidateAt(d: Downloads, processed: map<string, DateTime>, i: nat): Candidate
    requires i < |d|
  {
    Candidate(d[i].key, TimeOf(processed, d[i].key), d[i].value, i)
  }

  /** `time != now`: the `i`-th package is not being tested by another job right now. */
  predicate Eligible(d: Downloads, processed: map<string, DateTime>, now: DateTime, i: nat)
    requires i < |d|
  {
    Instant(TimeOf(processed, d[i].key)) != Instant(now)
  }

  /** The dict `packages` of `get_selected_packages`, built from the first `n` packages of the snapshot. */
  function Candidates(d: Downloads, processed: map<string, DateTime>, now: DateTime, n: nat): (r: seq<Candidate>)
    requires n <= |d|
    ensures forall c :: c in r ==> c.rank < n && c == CandidateAt(d, processed, c.rank) && Eligible(d, processed, now, c.rank)
    ensures forall i :: 0 <= i < n && Eligible(d, processed, now, i) ==> CandidateAt(d, processed, i) in r
    ensures forall i, j :: 0 <= i < j < |r| ==> r[i].rank < r[j].rank
  {
    if n == 0 then []
    else
      var before := Candidates(d, processed, now, n - 1);
      if Eligible(d, processed, now, n - 1) then before + [CandidateAt(d, processed, n - 1)] else before
  }

  /** `sorted(packages.keys(), key=packages.__getitem__)`, with each package's key kept beside it. */
  function Ranking(d: Downloads, processed: map<string, DateTime>, now: DateTime): (r: seq<Candidate>)
    ensures Sorting.StrictlySorted(Precedes, r)
    ensures forall c :: c in r ==> c.rank < |d| && c == CandidateAt(d, processed, c.rank) && Eligible(d, processed, now, c.rank)
    ensures forall i :: 0 <= i < |d| && Eligible(d, processed, now, i) ==> CandidateAt(d, processed, i) in r
  {
    var cs := Candidates(d, processed, now, |d|);
    PrecedesTotal(Sorting.Elems(cs));
    var r := Sorting.Sort(Precedes, cs);
    assert forall c :: c in cs ==> c in Sorting.Elems(r);
    r
  }

  function Names(cs: seq<Candidate>): (r: seq<string>)
    ensures |r| == |cs| && forall i :: 0 <= i < |cs| ==> r[i] == cs[i].name
  {
    seq(|cs|, i requires 0 <= i < |cs| => cs[i].name)
  }

  /** `get_selected_packages` once the snapshot and the processed times are loaded. */
  function SelectPackages(now: DateTime, numPackages: int, d: Downloads, processed: map<string, DateTime>): (r: seq<string>)
  {
    var ranked := Names(Ranking(d, processed, now));
    if numPackages > 0 && numPackages < |ranked| then ranked[..numPackages] else ranked
  }

  /** The packages of the snapshot that are not being tested right now. */
  function EligibleNames(d: Downloads, processed: map<string, DateTime>, now: DateTime): (r: set<string>)
    ensures forall p :: p in r <==> p in KeySet(d) && Instant(TimeOf(processed, p)) != Instant(now)
  {
    set i | 0 <= i < |d| && Eligible(d, processed, now, i) :: d[i].key
  }

  /** The candidate a package of the snapshot is ranked as. */
  function CandidateFor(d: Downloads, processed: map<string, DateTime>, p: string): Candidate
    requires p in KeySet(d)
  {
    CandidateAt(d, processed, IndexOf(d, p).value)
  }

  lemma RankedCandidates(d: Downloads, processed: map<string, DateTime>, now: DateTime)
    requires DistinctKeys(d)
    ensures var ranked := Ranking(d, processed, now);
      forall i :: 0 <= i < |ranked| ==> ranked[i].name in KeySet(d) && CandidateFor(d, processed, ranked[i].name) == ranked[i]
  {
    var ranked := Ranking(d, processed, now);
    forall i | 0 <= i < |ranked|
      ensures ranked[i].name in KeySet(d) && CandidateFor(d, processed, ranked[i].name) == ranked[i]
    {
      assert ranked[i] in ranked;
      var k := ranked[i].rank;
      assert d[k].key in KeySet(d);
      var j := IndexOf(d, d[k].key).value;
      assert d[j].key == d[k].key;
    }
  }

  lemma RankedNamesDistinct(d: Downloads, processed: map<string, DateTime>, now: DateTime)
    requires DistinctKeys(d)
    ensures Sorting.Distinct(Names(Ranking(d, processed, now)))
  {
    var ranked := Ranking(d, processed, now);
    var names := Names(ranked);
    forall i, j | 0 <= i < j < |names| ensures names[i] != names[j] {
      assert ranked[i] in ranked && ranked[j] in ranked;
      assert Precedes(ranked[i], ranked[j]);
    }
  }

  lemma RankedNamesEligible(d: Downloads, processed: map<string, DateTime>, now: DateTime)
    ensures Sorting.Elems(Names(Ranking(d, processed, now))) == EligibleNames(d, processed, now)
  {
    var ranked := Ranking(d, processed, now);
    var names := Names(ranked);
    forall p | p in EligibleNames(d, processed, now) ensures p in Sorting.Elems(names) {
      var i :| 0 <= i < |d| && Eligible(d, processed, now, i) && d[i].key == p;
      var c := CandidateAt(d, processed, i);
      assert c in ranked;
      var k :| 0 <= k < |ranked| && ranked[k] == c;
      assert names[k] == p;
    }
    forall p | p in Sorting.Elems(names) ensures p in EligibleNames(d, processed, now) {
      var k :| 0 <= k < |names| && names[k] == p;
      assert ranked[k] in ranked;
    }
  }

  lemma RankingNames(d: Downloads, processed: map<string, DateTime>, now: DateTime)
    requires DistinctKeys(d)
    ensures var ranked := Ranking(d, processed, now);
      && (forall i :: 0 <= i < |ranked| ==> ranked[i].name in KeySet(d) && CandidateFor(d, processed, ranked[i].name) == ranked[i])
      && Sorting.Distinct(Names(ranked))
      && Sorting.Elems(Names(ranked)) == EligibleNames(d, processed, now)
      && |ranked| == |EligibleNames(d, processed, now)|
  {
    RankedCandidates(d, processed, now);
    RankedNamesDistinct(d, processed, now);
    RankedNamesEligible(d, processed, now);
    Sorting.DistinctCard(Names(Ranking(d, processed, now)));
  }

  /**
   * What `get_selected_packages` returns: distinct packages of the snapshot
   * that are not being tested right now, ranked by the time they were last
   * processed (never processed counting as the epoch) and then by downloads,
   * most first, with equal keys in snapshot order; and, when `num_packages`
   * is positive, only the first `num_packages` of them, every package left
   * out ranking after every package selected.
   */
  lemma SelectionSpec(now: DateTime, numPackages: int, d: Downloads, processed: map<string, DateTime>)
    requires DistinctKeys(d)
    ensures var r := SelectPackages(now, numPackages, d, processed);
      var eligible := EligibleNames(d, processed, now);
      && Sorting.Distinct(r)
      && (forall p :: p in r ==> p in eligible)
      && (forall i, j :: 0 <= i < j < |r| ==>
            Precedes(CandidateFor(d, processed, r[i]), CandidateFor(d, processed, r[j])))
      && (forall p, q :: p in r && q in eligible && q !in r ==>
            Precedes(CandidateFor(d, processed, p), CandidateFor(d, processed, q)))
      && |r| == (if 0 < numPackages < |eligible| then numPackages else |eligible|)
      && (numPackages <= 0 ==> Sorting.Elems(r) == eligible)
  {
    var ranked := Ranking(d, processed, now);
    RankingNames(d, processed, now);
    var k := if 0 < numPackages < |ranked| then numPackages else |ranked|;
    assert SelectPackages(now, numPackages, d, processed) == Names(ranked)[..k];
    RankedPrefix(d, processed, ranked, EligibleNames(d, processed, now), k);
  }

  /** A prefix of a ranking of the eligible packages is distinct, eligible, in order, and ahead of the rest. */
  lemma RankedPrefix(d: Downloads, processed: map<string, DateTime>, ranked: seq<Candidate>, eligible: set<string>, k: nat)
    requires k <= |ranked| && Sorting.StrictlySorted(Precedes, ranked)
    requires forall i :: 0 <= i < |ranked| ==> ranked[i].name in KeySet(d) && CandidateFor(d, processed, ranked[i].name) == ranked[i]
    requires Sorting.Distinct(Names(ranked)) && Sorting.Elems(Names(ranked)) == eligible
    ensures var r := Names(ranked)[..k];
      && Sorting.Distinct(r)
      && (forall p :: p in r ==> p in eligible)
      && (forall i, j :: 0 <= i < j < |r| ==>
            Precedes(CandidateFor(d, processed, r[i]), CandidateFor(d, processed, r[j])))
      && (forall p, q :: p in r && q in eligible && q !in r ==>
            Precedes(CandidateFor(d, processed, p), CandidateFor(d, processed, q)))
  {
    var names := Names(ranked);
    var r := names[..k];
    forall p | p in r ensures p in eligible {
      assert p in Sorting.Elems(names);
    }
    forall i, j | 0 <= i < j < |r|
      ensures Precedes(CandidateFor(d, processed, r[i]), CandidateFor(d, processed, r[j]))
    {
      assert names[i] == ranked[i].name && names[j] == ranked[j].name;
    }
    forall p, q | p in r && q in eligible && q !in r
      ensures Precedes(CandidateFor(d, processed, p), CandidateFor(d, processed, q))
    {
      var i :| 0 <= i < |r| && r[i] == p;
      var m :| 0 <= m < |names| && names[m] == q;
      assert names[i] == ranked[i].name && names[m] == ranked[m].name;
    }
  }

  /**
   * The ranking is the only arrangement of the eligible packages that the
   * order `Precedes` sorts, so any such arrangement is a reference for it.
   */
  lemma RankingUnique(d: Downloads, processed: map<string, DateTime>, now: DateTime, s: seq<Candidate>)
    requires Sorting.StrictlySorted(Precedes, s)
    requires Sorting.Elems(s) == Sorting.Elems(Candidates(d, processed, now, |d|))
    ensures Ranking(d, processed, now) == s
  {
    var cs := Candidates(d, processed, now, |d|);
    var ranked := Ranking(d, processed, now);
    PrecedesTotal(Sorting.Elems(cs));
    assert Sorting.Elems(ranked) == Sorting.Elems(cs);
    Sorting.SortedUnique(Precedes, ranked, s);
  }

  /** `get_selected_packages`: load the snapshot, then the status records, then rank. */
  function GetSelectedPackages(now: DateTime, numPackages: int, entries: seq<ChannelEntry>, dirs: seq<StatusDir>)
    : (r: Result<seq<string>, SelectError>)
    ensures r.Success? ==>
      && FetchPackageDownloads(entries).Success? && GetProcessedPackages(now, dirs).Success?
      && r.value == SelectPackages(now, numPackages, FetchPackageDownloads(entries).value, GetProcessedPackages(now, dirs).value)
  {
    var downloads :- FetchPackageDownloads(entries);
    var processed :- GetProcessedPackages(now, dirs);
    Success(SelectPackages(now, numPackages, downloads, processed))
  }

  /**
   * Selection fails exactly when a statistics file has an empty series or a
   * status document is malformed, and a bad statistics file is reported
   * before any status document is read.
   */
  lemma SelectedErrors(now: DateTime, numPackages: int, entries: seq<ChannelEntry>, dirs: seq<StatusDir>)
    ensures GetSelectedPackages(now, numPackages, entries, dirs).Failure? <==>
      HasEmptySeries(entries) || exists i :: 0 <= i < |dirs| && Malformed(dirs, i)
    ensures HasEmptySeries(entries) ==>
      && FetchPackageDownloads(entries).Failure?
      && GetSelectedPackages(now, numPackages, entries, dirs) == Failure(FetchPackageDownloads(entries).error)
  {
    FetchDownloadsSpec(entries);
    ProcessedErrors(now, dirs);
  }

  /**
   * A package whose status says it has been `running` for less than two whole
   * days (or is dated in the future) is being tested by another job and is
   * never selected.
   */
  lemma RunningElsewhereNotSelected(now: DateTime, numPackages: int, entries: seq<ChannelEntry>, dirs: seq<StatusDir>, i: nat)
    requires Valid(now) && DistinctNames(dirs) && i < |dirs|
    requires dirs[i].statusFile.Some? && WellFormed(dirs[i].statusFile.value)
    requires dirs[i].statusFile.value["state"] == Json.Str(Running)
    requires now.seconds - Parse(dirs[i].statusFile.value["started_at"].str).value.seconds < 2 * 86400
    requires GetSelectedPackages(now, numPackages, entries, dirs).Success?
    ensures dirs[i].name !in GetSelectedPackages(now, numPackages, entries, dirs).value
  {
    var doc := dirs[i].statusFile.value;
    var started := Parse(doc["started_at"].str).value;
    StalenessRule(now, doc["state"], started);
    ProcessedTimes(now, dirs);
    var d := FetchPackageDownloads(entries).value;
    SelectionSpec(now, numPackages, d, GetProcessedPackages(now, dirs).value);
  }

  /**
   * A package whose status has said `running` for two whole days or more was
   * interrupted: it ranks as if it had never been processed.
   */
  lemma InterruptedRanksAsNeverProcessed(now: DateTime, dirs: seq<StatusDir>, i: nat)
    requires Valid(now) && DistinctNames(dirs) && i < |dirs|
    requires dirs[i].statusFile.Some? && WellFormed(dirs[i].statusFile.value)
    requires dirs[i].statusFile.value["state"] == Json.Str(Running)
    requires now.seconds - Parse(dirs[i].statusFile.value["started_at"].str).value.seconds >= 2 * 86400
    requires GetProcessedPackages(now, dirs).Success?
    ensures TimeOf(GetProcessedPackages(now, dirs).value, dirs[i].name) == Epoch
  {
    var doc := dirs[i].statusFile.value;
    StalenessRule(now, doc["state"], Parse(doc["started_at"].str).value);
    ProcessedTimes(now, dirs);
  }

  /**
   * Of two never-processed packages, the one with more downloads is selected
   * first, whichever comes first in the snapshot.
   */
  lemma MostDownloadedFirst(now: DateTime, a: string, b: string, x: int, y: int)
    requires Instant(now) != 0 && a != b && y < x
    ensures SelectPackages(now, 1, [Entry(a, x), Entry(b, y)], map[]) == [a]
    ensures SelectPackages(now, 1, [Entry(b, y), Entry(a, x)], map[]) == [a]
  {
    LeaderFirst(now, a, b, x, y);
    LeaderSecond(now, a, b, x, y);
  }

  lemma LeaderFirst(now: DateTime, a: string, b: string, x: int, y: int)
    requires Instant(now) != 0 && a != b && y < x
    ensures SelectPackages(now, 1, [Entry(a, x), Entry(b, y)], map[]) == [a]
  {
    var d := [Entry(a, x), Entry(b, y)];
    var ca := CandidateAt(d, map[], 0);
    var cb := CandidateAt(d, map[], 1);
    assert Candidates(d, map[], now, |d|) == [ca, cb];
    RankingUnique(d, map[], now, [ca, cb]);
  }

  lemma LeaderSecond(now: DateTime, a: string, b: string, x: int, y: int)
    requires Instant(now) != 0 && a != b && y < x
    ensures SelectPackages(now, 1, [Entry(b, y), Entry(a, x)], map[]) == [a]
  {
    var d := [Entry(b, y), Entry(a, x)];
    var cb := CandidateAt(d, map[], 0);
    var ca := CandidateAt(d, map[], 1);
    assert Candidates(d, map[], now, |d|) == [cb, ca];
    RankingUnique(d, map[], now, [ca, cb]);
  }

  /**
   * A package processed two days ago ranks before one processed an hour ago,
   * whatever their downloads.
   */
  lemma OldestProcessedFirst(seconds: int, a: string, b: string, x: int, y: int)
    requires a != b
    ensures var now := DateTime(seconds, 0, Utc);
      var processed := map[a := DateTime(seconds - 2 * 86400, 0, Utc), b := DateTime(seconds - 3600, 0, Utc)];
      SelectPackages(now, 0, [Entry(a, x), Entry(b, y)], processed) == [a, b]
  {
    var now := DateTime(seconds, 0, Utc);
    var processed := map[a := DateTime(seconds - 2 * 86400, 0, Utc), b := DateTime(seconds - 3600, 0, Utc)];
    var d := [Entry(a, x), Entry(b, y)];
    var ca := CandidateAt(d, processed, 0);
    var cb := CandidateAt(d, processed, 1);
    assert Candidates(d, processed, now, |d|) == [ca, cb];
    RankingUnique(d, processed, now, [ca, cb]);
  }
}
