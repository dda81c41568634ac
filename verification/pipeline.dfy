/**
 * How the two stages meet: the list files `select_packages.py` writes are
 * what `test_packages.py` reads, and the status documents the tester writes
 * are not the ones the selector reads.
 */
module Pipeline {
  import opened Wrappers
  import UtcTime
  import Selection
  import SubdirLists
  import ListFiles
  import TestPackages
  import Ntp

  /** The files `select_packages.py` writes: `<subdir>.txt` for each subdirectory with a list. */
  function WrittenLists(selected: seq<string>, files: map<string, seq<string>>): (r: map<string, string>)
    ensures r.Keys == SubdirLists.GroupBySubdir(selected, files).Keys
  {
    var groups := SubdirLists.GroupBySubdir(selected, files);
    map s | s in groups :: ListFiles.WriteList(groups[s])
  }

  /** One subdirectory's file reads back as the selected packages listed under it, in selection order. */
  lemma ListReadBack(selected: seq<string>, files: map<string, seq<string>>, subdir: string)
    requires ListFiles.AllListable(selected)
    ensures ListFiles.GetLines(TestPackages.ListFile(WrittenLists(selected, files), subdir)) ==
      SubdirLists.ListedUnder(selected, files, subdir)
  {
    var groups := SubdirLists.GroupBySubdir(selected, files);
    SubdirLists.GroupSpec(selected, files);
    if subdir in groups {
      var listed := SubdirLists.ListedUnder(selected, files, subdir);
      assert ListFiles.AllListable(listed);
      ListFiles.ReadWritten(listed);
    } else {
      SubdirLists.UnlistedEmpty(selected, files, subdir);
    }
  }

  /**
   * The tester, given the subdirectories of its platform, tests exactly the
   * selected packages listed under one of them, provided no selected name
   * has whitespace at its ends or holds a line break.
   */
  lemma TesterTestsSelection(selected: seq<string>, files: map<string, seq<string>>, subdirs: seq<string>)
    requires ListFiles.AllListable(selected)
    ensures forall p :: p in TestPackages.PackagesToTest(subdirs, WrittenLists(selected, files)) <==>
      p in selected && exists s :: s in subdirs && s in SubdirLists.ListedSubdirs(files, p)
  {
    var lists := WrittenLists(selected, files);
    forall s | s in subdirs
      ensures ListFiles.GetLines(TestPackages.ListFile(lists, s)) == SubdirLists.ListedUnder(selected, files, s)
    {
      ListReadBack(selected, files, s);
    }
  }

  /**
   * Example: a document the tester writes has neither `state` nor `started_at`:
   * put where the selector looks for status documents, it makes the selector
   * raise. ReadRecord's contract states the general rule for a missing key.
   */
  lemma TesterDocumentUnreadable(now: UtcTime.DateTime, dirName: string, doc: TestPackages.StatusDocument)
    ensures Selection.ReadRecord(now, dirName, TestPackages.DocumentJson(doc)) == Failure(Selection.MissingKey(dirName, "state"))
  {
  }

  datatype SelectMainError = ClockFailed(clockError: Ntp.NtpError) | SelectionFailed(selectError: Selection.SelectError)

  /**
   * `main` of `select_packages.py`: the time comes from the NTP pool; the
   * packages are selected as of that time; each subdirectory's list is
   * written. Any exception on the way ends the run with nothing written.
   */
  method SelectMain(numPackages: int, ask: string -> Ntp.Reply, entries: seq<Selection.ChannelEntry>,
                    dirs: seq<Selection.StatusDir>, files: map<string, seq<string>>)
    returns (asked: seq<string>, clock: Result<UtcTime.DateTime, Ntp.NtpError>, r: Result<map<string, string>, SelectMainError>)
    ensures 1 <= |asked| <= |Ntp.Pool| && asked == Ntp.Pool[..|asked|]
    ensures ask(asked[|asked| - 1]).Answer? ==> clock == Ntp.FromTimestamp(ask(asked[|asked| - 1]).txMicros)
    ensures ask(asked[|asked| - 1]).Raised? ==> clock == Failure(Ntp.RequestRaised(ask(asked[|asked| - 1]).exception))
    ensures clock.Failure? ==> r == Failure(ClockFailed(clock.error))
    ensures clock.Success? ==>
      var selected := Selection.GetSelectedPackages(clock.value, numPackages, entries, dirs);
      && (selected.Success? ==> r == Success(WrittenLists(selected.value, files)))
      && (selected.Failure? ==> r == Failure(SelectionFailed(selected.error)))
  {
    asked, clock := Ntp.GetNtpTime(ask);
    if clock.Failure? {
      return asked, clock, Failure(ClockFailed(clock.error));
    }
    var selected := Selection.GetSelectedPackages(clock.value, numPackages, entries, dirs);
    if selected.Failure? {
      return asked, clock, Failure(SelectionFailed(selected.error));
    }
    r := Success(WrittenLists(selected.value, files));
  }
}
