/**
 * `test_build`'s download URL: the FETCH entry of a solve points into the
 * repodata archive on GitHub, and `re.sub` rewrites that URL into the
 * channel's own. The pattern's dots are not escaped, so each matches any
 * character but a line break; `.*` is greedy, so a match runs to the last
 * occurrence of the suffix on the line; and every non-overlapping match,
 * leftmost first, is replaced.
 */
module UrlRewrite {
  import opened Wrappers

  const ArchivePrefix := "https://github.com/bioconda/bioconda-repodata-archive/raw/"
  const ArchiveSuffix := "/repodata/https=3A=2F/"
  const Replacement := "https://"

  /** One character of the pattern against one of the text: `.` is any character but `\n`. */
  predicate PatternChar(p: char, c: char) {
    if p == '.' then c != '\n' else c == p
  }

  /** The pattern's part before `.*` matches at `i`. */
  predicate PrefixAt(s: string, i: nat) {
    i + |ArchivePrefix| <= |s| && forall k :: 0 <= k < |ArchivePrefix| ==> PatternChar(ArchivePrefix[k], s[i + k])
  }

  /** The pattern's part after `.*` (which holds no dot) matches at `j`. */
  predicate SuffixAt(s: string, j: nat) {
    j + |ArchiveSuffix| <= |s| && s[j..j + |ArchiveSuffix|] == ArchiveSuffix
  }

  predicate NoLineBreak(s: string, a: nat, b: nat)
    requires a <= b <= |s|
  {
    forall k :: a <= k < b ==> s[k] != '\n'
  }

  /** The first `\n` at or after `from`, or the end of the text. */
  function LineEnd(s: string, from: nat): (r: nat)
    requires from <= |s|
    ensures from <= r <= |s| && NoLineBreak(s, from, r)
    ensures r < |s| ==> s[r] == '\n'
    decreases |s| - from
  {
    if from == |s| || s[from] == '\n' then from else LineEnd(s, from + 1)
  }

  /** The last position in `lo..hi` where the suffix matches: where greedy `.*` stops. */
  function LastSuffix(s: string, lo: nat, hi: int): (r: Option<nat>)
    ensures r.Some? ==> lo <= r.value <= hi && SuffixAt(s, r.value)
    ensures r.Some? ==> forall j :: r.value < j <= hi ==> !SuffixAt(s, j)
    ensures r.None? ==> forall j :: lo <= j <= hi ==> !SuffixAt(s, j)
    decreases if hi < lo then 0 else hi - lo + 1
  {
    if hi < lo then None
    else if SuffixAt(s, hi) then Some(hi)
    else LastSuffix(s, lo, hi - 1)
  }

  /** Where the match of the whole pattern starting at `i` ends, if one starts there. */
  function MatchAt(s: string, i: nat): (r: Option<nat>)
    requires i <= |s|
    ensures r.Some? ==> i < r.value <= |s|
    ensures r.Some? ==> exists j :: i <= j && SuffixAt(s, j)
  {
    if !PrefixAt(s, i) then None
    else
      var lo := i + |ArchivePrefix|;
      match LastSuffix(s, lo, LineEnd(s, lo))
      case None => None
      case Some(j) => Some(j + |ArchiveSuffix|)
  }

  /** `re.sub` from position `i` on: leftmost matches first, scanning on after each. */
  function RewriteFrom(s: string, i: nat): string
    requires i <= |s|
    decreases |s| - i
  {
    if i == |s| then ""
    else
      match MatchAt(s, i)
      case Some(e) => Replacement + RewriteFrom(s, e)
      case None => [s[i]] + RewriteFrom(s, i + 1)
  }

  /** The `download_url` of `test_build`. */
  function DownloadUrl(archiveUrl: string): string {
    RewriteFrom(archiveUrl, 0)
  }

  /** Text in which the suffix does not occur from `i` on is copied unchanged. */
  lemma {:induction false} NoSuffixUnchanged(s: string, i: nat)
    requires i <= |s|
    requires forall j :: i <= j ==> !SuffixAt(s, j)
    ensures RewriteFrom(s, i) == s[i..]
    decreases |s| - i
  {
    if i < |s| {
      assert MatchAt(s, i).None?;
      NoSuffixUnchanged(s, i + 1);
      assert s[i..] == [s[i]] + s[i + 1..];
    }
  }

  /** Text where no match of the pattern starts from `i` on is copied unchanged. */
  lemma {:induction false} NoMatchUnchanged(s: string, i: nat)
    requires i <= |s|
    requires forall j :: i <= j <= |s| ==> MatchAt(s, j).None?
    ensures RewriteFrom(s, i) == s[i..]
    decreases |s| - i
  {
    if i < |s| {
      NoMatchUnchanged(s, i + 1);
      assert s[i..] == [s[i]] + s[i + 1..];
    }
  }

  /**
   * A URL that the pattern matches nowhere comes back unchanged: one without
   * the archive prefix, or without the suffix after it on the same line.
   */
  lemma NotArchiveUnchanged(url: string)
    requires forall j :: 0 <= j <= |url| ==> MatchAt(url, j).None?
    ensures DownloadUrl(url) == url
  {
    NoMatchUnchanged(url, 0);
  }

  /** A URL that does not hold the archive prefix anywhere comes back unchanged, whatever else it holds. */
  lemma NoPrefixUnchanged(url: string)
    requires forall j :: 0 <= j <= |url| ==> !PrefixAt(url, j)
    ensures DownloadUrl(url) == url
  {
    NoMatchUnchanged(url, 0);
  }

  /**
   * An archive URL loses everything up to the last occurrence of the suffix
   * and gets `https://` in its place: the prefix (dots matching anything),
   * then any text on the same line, then the suffix with no later occurrence.
   */
  lemma ArchiveUrl(url: string, j: nat)
    requires PrefixAt(url, 0)
    requires |ArchivePrefix| <= j && SuffixAt(url, j)
    requires NoLineBreak(url, |ArchivePrefix|, j)
    requires forall k :: j < k ==> !SuffixAt(url, k)
    ensures DownloadUrl(url) == Replacement + url[j + |ArchiveSuffix|..]
  {
    var lo := |ArchivePrefix|;
    var end := LineEnd(url, lo);
    assert j <= end;
    assert LastSuffix(url, lo, end) == Some(j);
    var e := j + |ArchiveSuffix|;
    assert MatchAt(url, 0) == Some(e);
    NoSuffixUnchanged(url, e);
  }
}
