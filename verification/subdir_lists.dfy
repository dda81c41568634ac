/**
 * The last step of `select_packages.py`'s `main`: each selected package is
 * listed under every subdirectory (platform) it has download statistics for,
 * or under `noarch` alone when it has statistics for `noarch`; each list keeps
 * the selection's order.
 */
module SubdirLists {
  import Sorting

  const NoArch := "noarch"
  const JsonExtension := ".json"

  /** `path.name[:-len(".json")]`, Python slicing included (a name shorter than the extension gives ""). */
  function Stem(fileName: string): (r: string)
    ensures |fileName| >= |JsonExtension| ==> fileName == r + fileName[|fileName| - |JsonExtension|..]
    ensures |r| == if |fileName| >= |JsonExtension| then |fileName| - |JsonExtension| else 0
  {
    if |fileName| >= |JsonExtension| then fileName[..|fileName| - |JsonExtension|] else ""
  }

  /**
   * The subdirectories of a package: the stems of the statistics files found
   * in the version directories of the package (listed in `files`, absent meaning none).
   */
  function Subdirs(files: map<string, seq<string>>, package: string): set<string> {
    if package in files then (set f | f in files[package] :: Stem(f)) else {}
  }

  /** The subdirectories a package is listed under: `noarch` replaces all others. */
  function ListedSubdirs(files: map<string, seq<string>>, package: string): (r: set<string>)
    ensures r <= Subdirs(files, package)
    ensures NoArch in r ==> r == {NoArch}
    ensures NoArch !in Subdirs(files, package) ==> r == Subdirs(files, package)
  {
    var subdirs := Subdirs(files, package);
    if NoArch in subdirs then {NoArch} else subdirs
  }

  /** `subdir_lists` after the loop over `selected`: subdirectory to its packages. */
  function GroupBySubdir(selected: seq<string>, files: map<string, seq<string>>): (r: map<string, seq<string>>)
    ensures forall k :: k in r ==> |r[k]| > 0
    decreases |selected|
  {
    if |selected| == 0 then map[]
    else
      var before := GroupBySubdir(selected[..|selected| - 1], files);
      var package := selected[|selected| - 1];
      var subdirs := ListedSubdirs(files, package);
      map k | k in before.Keys + subdirs ::
        (if k in before then before[k] else []) + (if k in subdirs then [package] else [])
  }

  /** The reference list of one subdirectory: the selected packages listed under it, in selection order. */
  function ListedUnder(selected: seq<string>, files: map<string, seq<string>>, subdir: string): (r: seq<string>)
    ensures forall p :: p in r <==> p in selected && subdir in ListedSubdirs(files, p)
    ensures Sorting.Distinct(selected) ==> Sorting.Distinct(r)
    decreases |selected|
  {
    if |selected| == 0 then []
    else
      var init := selected[..|selected| - 1];
      var package := selected[|selected| - 1];
      var before := ListedUnder(init, files, subdir);
      assert forall p :: p in init ==> p in selected;
      if subdir in ListedSubdirs(files, package) then before + [package] else before
  }

  /** Any two entries of `r` appear in that order in `s`. */
  predicate InOrderOf(r: seq<string>, s: seq<string>) {
    forall i, j :: 0 <= i < j < |r| ==> exists a, b :: 0 <= a < b < |s| && s[a] == r[i] && s[b] == r[j]
  }

  /** Any two packages of a subdirectory's list appear in that order in the selection. */
  lemma {:induction false} ListedInOrder(selected: seq<string>, files: map<string, seq<string>>, subdir: string)
    ensures InOrderOf(ListedUnder(selected, files, subdir), selected)
    decreases |selected|
  {
    var r := ListedUnder(selected, files, subdir);
    if |selected| > 0 {
      var init := selected[..|selected| - 1];
      var before := ListedUnder(init, files, subdir);
      var package := selected[|selected| - 1];
      assert r == if subdir in ListedSubdirs(files, package) then before + [package] else before;
      ListedInOrder(init, files, subdir);
      forall i, j | 0 <= i < j < |r|
        ensures exists a, b :: 0 <= a < b < |selected| && selected[a] == r[i] && selected[b] == r[j]
      {
        if j < |before| {
          assert r[i] == before[i] && r[j] == before[j];
          var a, b :| 0 <= a < b < |init| && init[a] == before[i] && init[b] == before[j];
          assert selected[a] == r[i] && selected[b] == r[j];
        } else {
          assert r[i] in before;
          var a :| 0 <= a < |init| && init[a] == r[i];
          assert selected[a] == r[i] && selected[|init|] == r[j];
        }
      }
    }
  }

  /** A subdirectory gets a list exactly when some selected package is listed under it. */
  lemma {:induction false} GroupKeys(selected: seq<string>, files: map<string, seq<string>>)
    ensures forall k :: k in GroupBySubdir(selected, files) <==> exists p :: p in selected && k in ListedSubdirs(files, p)
    decreases |selected|
  {
    if |selected| > 0 {
      var init := selected[..|selected| - 1];
      var package := selected[|selected| - 1];
      assert selected == init + [package];
      GroupKeys(init, files);
      var before := GroupBySubdir(init, files);
      var r := GroupBySubdir(selected, files);
      assert r.Keys == before.Keys + ListedSubdirs(files, package);
      forall k ensures k in r <==> exists p :: p in selected && k in ListedSubdirs(files, p) {
        if k in before {
          var p :| p in init && k in ListedSubdirs(files, p);
          assert p in selected;
        }
        if exists p :: p in selected && k in ListedSubdirs(files, p) {
          var p :| p in selected && k in ListedSubdirs(files, p);
          if p != package {
            assert p in init;
          }
        }
      }
    }
  }

  /** Each list written is the reference list of its subdirectory. */
  lemma {:induction false} GroupLists(selected: seq<string>, files: map<string, seq<string>>)
    ensures forall k :: k in GroupBySubdir(selected, files) ==> GroupBySubdir(selected, files)[k] == ListedUnder(selected, files, k)
    decreases |selected|
  {
    if |selected| > 0 {
      var init := selected[..|selected| - 1];
      GroupLists(init, files);
      var before := GroupBySubdir(init, files);
      var r := GroupBySubdir(selected, files);
      forall k | k in r ensures r[k] == ListedUnder(selected, files, k) {
        if k !in before {
          UnlistedEmpty(init, files, k);
        }
      }
    }
  }

  lemma UnlistedEmpty(selected: seq<string>, files: map<string, seq<string>>, subdir: string)
    requires subdir !in GroupBySubdir(selected, files)
    ensures ListedUnder(selected, files, subdir) == []
  {
    GroupKeys(selected, files);
  }

  lemma GroupSpec(selected: seq<string>, files: map<string, seq<string>>)
    ensures forall k :: k in GroupBySubdir(selected, files) <==> exists p :: p in selected && k in ListedSubdirs(files, p)
    ensures forall k :: k in GroupBySubdir(selected, files) ==> GroupBySubdir(selected, files)[k] == ListedUnder(selected, files, k)
  {
    GroupKeys(selected, files);
    GroupLists(selected, files);
  }

  /** A package with statistics for `noarch` appears in the `noarch` list and in no other. */
  lemma NoArchOnly(selected: seq<string>, files: map<string, seq<string>>, package: string)
    requires package in selected && NoArch in Subdirs(files, package)
    ensures NoArch in GroupBySubdir(selected, files) && package in GroupBySubdir(selected, files)[NoArch]
    ensures forall k :: k in GroupBySubdir(selected, files) && k != NoArch ==> package !in GroupBySubdir(selected, files)[k]
  {
    GroupSpec(selected, files);
  }

  /** Every selected package with statistics for some subdirectory is listed somewhere. */
  lemma EverySelectedListed(selected: seq<string>, files: map<string, seq<string>>, package: string, subdir: string)
    requires package in selected && subdir in Subdirs(files, package)
    ensures exists k :: k in GroupBySubdir(selected, files) && package in GroupBySubdir(selected, files)[k]
  {
    GroupSpec(selected, files);
    var k := if NoArch in Subdirs(files, package) then NoArch else subdir;
    assert k in ListedSubdirs(files, package);
    assert k in GroupBySubdir(selected, files);
    assert package in ListedUnder(selected, files, k);
  }
}
