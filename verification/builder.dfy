/**
 * `test_build` in `test_packages.py`: download the package file the solve
 * chose (from the channel, not from the repodata archive) and run the
 * package's own tests on it with `conda-mambabuild --test`.
 */
module Builder {
  import opened Wrappers
  import opened Process
  import Json
  import UrlRewrite

  datatype BuildError =
    | MissingKey(key: string)      // `KeyError` on the FETCH entry
    | NotAString(key: string)      // `TypeError`: `re.sub` and `Path` need strings
    | DownloadFailed(url: string)  // the HTTP request raises

  /** What `test_build` did: the URL it fetched, the file it tested (relative to its temporary directory), the command, the status and the log. */
  datatype Built = Built(downloadUrl: string, filePath: string, ran: Invocation, status: string, log: Option<string>)

  /** `info[key]` where the code needs a string. */
  function StringField(info: Json.Object, key: string): (r: Result<string, BuildError>)
    ensures r.Success? <==> key in info && info[key].Str?
    ensures r.Success? ==> info[key] == Json.Str(r.value)
    ensures r.Failure? ==> r.error == if key in info then NotAString(key) else MissingKey(key)
  {
    if key !in info then Failure(MissingKey(key))
    else if !info[key].Str? then Failure(NotAString(key))
    else Success(info[key].str)
  }

  /** `Path(temp_dir, subdir, file_name)`, below the temporary directory. */
  function FilePath(subdir: string, fileName: string): string {
    subdir + "/" + fileName
  }

  function BuildCommand(condaBuildImpl: string, filePath: string, timeout: int): Invocation {
    Invocation([condaBuildImpl, "--test", filePath], timeout)
  }

  /** The fields `test_build` reads, each present and a string. */
  predicate Usable(info: Json.Object) {
    && "url" in info && info["url"].Str?
    && "fn" in info && info["fn"].Str?
    && "subdir" in info && info["subdir"].Str?
  }

  /**
   * `test_build`, given whether the download went through and how the test
   * command ended. It raises on a missing or non-string `url`, `fn` or
   * `subdir` (in the order the code reads them) and on a failed download;
   * otherwise it fetches the rewritten URL, tests the file stored under its
   * subdirectory, and writes a log for any status but success.
   */
  function TestBuild(package: string, info: Json.Object, timeout: int, condaBuildImpl: string,
                     downloaded: bool, outcome: Outcome<()>): (r: Result<Built, BuildError>)
    ensures r.Success? <==> Usable(info) && downloaded
    ensures !Usable(info) ==>
      r.Failure? && r.error == (
        if "url" !in info then MissingKey("url")
        else if !info["url"].Str? then NotAString("url")
        else if "fn" !in info then MissingKey("fn")
        else if "subdir" !in info then MissingKey("subdir")
        else if !info["subdir"].Str? then NotAString("subdir")
        else NotAString("fn"))
    ensures Usable(info) && !downloaded ==> r == Failure(DownloadFailed(UrlRewrite.DownloadUrl(info["url"].str)))
    ensures r.Success? ==>
      && r.value.downloadUrl == UrlRewrite.DownloadUrl(info["url"].str)
      && r.value.filePath == FilePath(info["subdir"].str, info["fn"].str)
      && r.value.ran == BuildCommand(condaBuildImpl, r.value.filePath, timeout)
      && r.value.status == Classify(outcome)
      && (r.value.log.Some? <==> r.value.status != StatusSuccess)
      && (r.value.log.Some? ==> r.value.log.value == package + "/" + condaBuildImpl + "-create.log")
  {
    var archiveUrl :- StringField(info, "url");
    var downloadUrl := UrlRewrite.DownloadUrl(archiveUrl);
    if "fn" !in info then Failure(MissingKey("fn"))
    else if "subdir" !in info then Failure(MissingKey("subdir"))
    else
      var subdir :- StringField(info, "subdir");
      var fileName :- StringField(info, "fn");
      if !downloaded then Failure(DownloadFailed(downloadUrl))
      else
        var filePath := FilePath(subdir, fileName);
        var status := Classify(outcome);
        Success(Built(downloadUrl, filePath, BuildCommand(condaBuildImpl, filePath, timeout), status,
                      LogPath(package, condaBuildImpl + "-create.log", status)))
  }
}
