/**
 * The package list files that connect the two stages: `select_packages.py`
 * writes one package per line to `<subdir>.txt`, and `test_packages.py`'s
 * `get_lines` reads them back as text, stripping every line and dropping the
 * empty ones.
 */
module ListFiles {
  import opened Wrappers

  /** Python's `str.isspace` for one character. */
  predicate IsSpace(c: char) {
    || ('\U{0009}' <= c <= '\U{000D}')
    || ('\U{001C}' <= c <= '\U{0020}')
    || c == '\U{0085}' || c == '\U{00A0}' || c == '\U{1680}'
    || ('\U{2000}' <= c <= '\U{200A}')
    || c == '\U{2028}' || c == '\U{2029}' || c == '\U{202F}' || c == '\U{205F}' || c == '\U{3000}'
  }

  /** A string `strip` leaves alone, and which `filter(None, ...)` keeps. */
  predicate Stripped(s: string) {
    |s| > 0 && !IsSpace(s[0]) && !IsSpace(s[|s| - 1])
  }

  /** `str.lstrip()`: drops the leading whitespace. */
  function StripStart(s: string): (r: string)
    ensures |r| <= |s| && r == s[|s| - |r|..]
    ensures forall k :: 0 <= k < |s| - |r| ==> IsSpace(s[k])
    ensures |r| > 0 ==> !IsSpace(r[0])
  {
    if |s| > 0 && IsSpace(s[0]) then StripStart(s[1..]) else s
  }

  /** `str.rstrip()`: drops the trailing whitespace. */
  function StripEnd(s: string): (r: string)
    ensures |r| <= |s| && r == s[..|r|]
    ensures forall k :: |r| <= k < |s| ==> IsSpace(s[k])
    ensures |r| > 0 ==> !IsSpace(r[|r| - 1])
  {
    if |s| > 0 && IsSpace(s[|s| - 1]) then StripEnd(s[..|s| - 1]) else s
  }

  /** Removing whitespace from the start keeps every other character and adds none. */
  lemma StripStartKeeps(s: string)
    ensures forall c :: c in StripStart(s) ==> c in s
    ensures forall c :: c in s && !IsSpace(c) ==> c in StripStart(s)
  {
    var r := StripStart(s);
    var i := |s| - |r|;
    forall c | c in r ensures c in s {
      var k :| 0 <= k < |r| && r[k] == c;
      assert s[i + k] == c;
    }
    forall c | c in s && !IsSpace(c) ensures c in r {
      var k :| 0 <= k < |s| && s[k] == c;
      assert r[k - i] == c;
    }
  }

  /** Removing whitespace from the end keeps every other character and adds none. */
  lemma StripEndKeeps(s: string)
    ensures forall c :: c in StripEnd(s) ==> c in s
    ensures forall c :: c in s && !IsSpace(c) ==> c in StripEnd(s)
  {
    var r := StripEnd(s);
    forall c | c in r ensures c in s {
      var k :| 0 <= k < |r| && r[k] == c;
      assert s[k] == c;
    }
    forall c | c in s && !IsSpace(c) ensures c in r {
      var k :| 0 <= k < |s| && s[k] == c;
      assert r[k] == c;
    }
  }

  /**
   * `str.strip()`: removes whitespace only: every other character of `s` is
   * kept, no character is added, and a string without whitespace at its ends
   * is left alone.
   */
  function Strip(s: string): (r: string)
    ensures |r| > 0 ==> Stripped(r)
    ensures exists i, j :: SpaceOutside(s, i, j) && r == s[i..j]
    ensures forall c :: c in r ==> c in s
    ensures forall c :: c in s && !IsSpace(c) ==> c in r
    ensures Stripped(s) ==> r == s
  {
    StripStartKeeps(s);
    StripEndKeeps(StripStart(s));
    StripSlice(s);
    StripEnd(StripStart(s))
  }

  /** Where the stripped string lies in `s`. */
  lemma StripSlice(s: string)
    ensures exists i, j :: SpaceOutside(s, i, j) && StripEnd(StripStart(s)) == s[i..j]
  {
    var left := StripStart(s);
    var r := StripEnd(left);
    var i, j := |s| - |left|, |s| - |left| + |r|;
    assert r == s[i..j] by {
      assert left == s[i..];
      assert r == left[..|r|];
    }
    forall k | j <= k < |s| ensures IsSpace(s[k]) {
      assert s[k] == left[k - i];
    }
    assert SpaceOutside(s, i, j);
  }

  /** Everything of `s` before `i` and from `j` on is whitespace. */
  predicate SpaceOutside(s: string, i: int, j: int) {
    && 0 <= i <= j <= |s|
    && (forall k :: 0 <= k < i ==> IsSpace(s[k]))
    && (forall k :: j <= k < |s| ==> IsSpace(s[k]))
  }

  /** No string of `lines` holds `c`. */
  predicate FreeOf(lines: seq<string>, c: char) {
    forall line :: line in lines ==> c !in line
  }

  /** Text mode's universal newlines: `\r\n` and a lone `\r` both read as `\n`. */
  function UniversalNewlines(s: string): (r: string)
    ensures '\r' !in r
    decreases |s|
  {
    if |s| == 0 then ""
    else if s[0] == '\r' then
      "\n" + UniversalNewlines(if |s| > 1 && s[1] == '\n' then s[2..] else s[1..])
    else [s[0]] + UniversalNewlines(s[1..])
  }

  /** Reading `\r\n`, a lone `\r`, and any other character, one step at a time. */
  lemma NewlineSteps(c: char, s: string)
    ensures UniversalNewlines("\r\n" + s) == "\n" + UniversalNewlines(s)
    ensures (|s| == 0 || s[0] != '\n') ==> UniversalNewlines("\r" + s) == "\n" + UniversalNewlines(s)
    ensures c != '\r' ==> UniversalNewlines([c] + s) == [c] + UniversalNewlines(s)
  {
    assert ("\r\n" + s)[2..] == s;
    assert ("\r" + s)[1..] == s;
    assert ([c] + s)[1..] == s;
  }

  /** Text already using `\n` alone reads unchanged. */
  lemma {:induction false} NewlinesUnchanged(s: string)
    requires '\r' !in s
    ensures UniversalNewlines(s) == s
    decreases |s|
  {
    if |s| > 0 {
      NewlinesUnchanged(s[1..]);
      assert s == [s[0]] + s[1..];
    }
  }

  /** The pieces of `s` between `\n` characters: the lines iterating a text file gives, without their terminators. */
  function SplitLines(s: string): (r: seq<string>)
    ensures |r| >= 1
    ensures FreeOf(r, '\n')
    ensures forall c :: c !in s ==> FreeOf(r, c)
    decreases |s|
  {
    if |s| == 0 then [""]
    else
      var rest := SplitLines(s[1..]);
      assert forall c :: c !in s ==> c !in s[1..] by {
        forall c | c in s[1..] ensures c in s {
          var k :| 0 <= k < |s[1..]| && s[1..][k] == c;
          assert s[k + 1] == c;
        }
      }
      if s[0] == '\n' then [""] + rest
      else [[s[0]] + rest[0]] + rest[1..]
  }

  /** The lines of `s` as text mode reads them: pieces ended by `\r\n`, a lone `\r`, or `\n`. */
  function SplitUniversal(s: string): (r: seq<string>)
    ensures |r| >= 1
    decreases |s|
  {
    if |s| == 0 then [""]
    else if s[0] == '\r' && |s| > 1 && s[1] == '\n' then [""] + SplitUniversal(s[2..])
    else if s[0] == '\r' || s[0] == '\n' then [""] + SplitUniversal(s[1..])
    else
      var rest := SplitUniversal(s[1..]);
      [[s[0]] + rest[0]] + rest[1..]
  }

  /** Translating the line ends and splitting at `\n` gives the lines ended by any of the three terminators. */
  lemma {:induction false} UniversalLines(s: string)
    ensures SplitLines(UniversalNewlines(s)) == SplitUniversal(s)
    decreases |s|
  {
    if |s| > 0 {
      var tail := if s[0] == '\r' && |s| > 1 && s[1] == '\n' then s[2..] else s[1..];
      UniversalLines(tail);
      var u := UniversalNewlines(tail);
      if s[0] == '\r' || s[0] == '\n' {
        assert UniversalNewlines(s) == "\n" + u;
        assert ("\n" + u)[1..] == u;
      } else {
        assert tail == s[1..];
        assert UniversalNewlines(s) == [s[0]] + u;
        assert ([s[0]] + u)[1..] == u;
      }
    }
  }

  /** The lines joined back with `\n` between them. */
  function JoinLines(lines: seq<string>): string
    requires |lines| >= 1
    decreases |lines|
  {
    if |lines| == 1 then lines[0] else lines[0] + "\n" + JoinLines(lines[1..])
  }

  /** Splitting loses nothing: joining the pieces gives the text back. */
  lemma {:induction false} JoinSplit(s: string)
    ensures JoinLines(SplitLines(s)) == s
    decreases |s|
  {
    if |s| > 0 {
      JoinSplit(s[1..]);
      var rest := SplitLines(s[1..]);
      if s[0] != '\n' {
        if |rest| == 1 {
          assert JoinLines(rest) == rest[0];
        } else {
          assert JoinLines(rest) == rest[0] + "\n" + JoinLines(rest[1..]);
        }
      }
      assert s == [s[0]] + s[1..];
    }
  }

  /** Joining lines that hold no `\n` and splitting again gives the lines back. */
  lemma {:induction false} SplitJoin(lines: seq<string>)
    requires |lines| >= 1
    requires forall k :: 0 <= k < |lines| ==> '\n' !in lines[k]
    ensures SplitLines(JoinLines(lines)) == lines
    decreases |lines|, |lines[0]|
  {
    if |lines[0]| == 0 {
      if |lines| > 1 {
        SplitJoin(lines[1..]);
        assert JoinLines(lines) == "\n" + JoinLines(lines[1..]);
        assert ("\n" + JoinLines(lines[1..]))[1..] == JoinLines(lines[1..]);
        assert [""] + lines[1..] == lines;
      }
    } else {
      var first := lines[0];
      var tail := [first[1..]] + lines[1..];
      SplitJoin(tail);
      var joined := JoinLines(lines);
      assert first == [first[0]] + first[1..];
      assert joined == [first[0]] + JoinLines(tail) by {
        if |lines| > 1 {
          assert JoinLines(tail) == first[1..] + "\n" + JoinLines(lines[1..]);
        }
      }
      assert joined[0] == first[0] && joined[1..] == JoinLines(tail);
      assert first[0] in first;
      assert [[first[0]] + first[1..]] + lines[1..] == lines;
    }
  }

  /** `filter(None, map(str.strip, lines))`. */
  function StripAll(lines: seq<string>): (r: seq<string>)
    ensures forall k :: 0 <= k < |r| ==> Stripped(r[k])
    decreases |lines|
  {
    if |lines| == 0 then []
    else
      var rest := StripAll(lines[1..]);
      var line := Strip(lines[0]);
      if |line| == 0 then rest else [line] + rest
  }

  /** Stripping adds no character: one no line holds is in no line of the result. */
  lemma {:induction false} StripAllFree(lines: seq<string>, c: char)
    requires FreeOf(lines, c)
    ensures FreeOf(StripAll(lines), c)
    decreases |lines|
  {
    if |lines| > 0 {
      assert lines[0] in lines;
      assert FreeOf(lines[1..], c) by {
        forall x | x in lines[1..] ensures c !in x {
          assert x in lines;
        }
      }
      StripAllFree(lines[1..], c);
    }
  }

  /** Every line, stripped: `map(str.strip, lines)`. */
  function StripEach(lines: seq<string>): (t: seq<string>)
    ensures |t| == |lines| && forall k :: 0 <= k < |lines| ==> t[k] == Strip(lines[k])
  {
    seq(|lines|, k requires 0 <= k < |lines| => Strip(lines[k]))
  }

  /**
   * `r` holds the non-empty strings of `t` from position `from` on, each
   * once, in the order of `t`; `picked` holds their positions.
   */
  predicate NonEmptyInOrder(t: seq<string>, r: seq<string>, picked: seq<int>, from: nat) {
    && |picked| == |r|
    && (forall k :: 0 <= k < |picked| ==> from <= picked[k] < |t| && r[k] == t[picked[k]])
    && (forall k, l :: 0 <= k < l < |picked| ==> picked[k] < picked[l])
    && (forall j {:trigger NonEmptyAt(t, j)} :: from <= j < |t| && NonEmptyAt(t, j) ==> j in picked)
  }

  predicate NonEmptyAt(t: seq<string>, j: int) {
    0 <= j < |t| && |t[j]| > 0
  }

  /** `filter(None, t)` on strings: the non-empty ones, in order. */
  function FilterNonEmpty(t: seq<string>): seq<string>
    decreases |t|
  {
    if |t| == 0 then []
    else if |t[0]| == 0 then FilterNonEmpty(t[1..])
    else [t[0]] + FilterNonEmpty(t[1..])
  }

  /** Stripping and dropping empty lines is filtering the stripped lines. */
  lemma {:induction false} StripAllFilters(lines: seq<string>)
    ensures StripAll(lines) == FilterNonEmpty(StripEach(lines))
    decreases |lines|
  {
    if |lines| > 0 {
      StripAllFilters(lines[1..]);
      assert StripEach(lines)[1..] == StripEach(lines[1..]);
    }
  }

  /** `filter(None, t)` keeps every non-empty string of `t`, in order, and nothing else. */
  lemma {:induction false} FilterPicks(t: seq<string>)
    ensures exists picked :: NonEmptyInOrder(t, FilterNonEmpty(t), picked, 0)
    decreases |t|
  {
    if |t| == 0 {
      assert NonEmptyInOrder(t, FilterNonEmpty(t), [], 0);
    } else {
      FilterPicks(t[1..]);
      var rest := FilterNonEmpty(t[1..]);
      var p :| NonEmptyInOrder(t[1..], rest, p, 0);
      var shifted := PicksTail(t, rest, p);
      if |t[0]| == 0 {
        assert NonEmptyInOrder(t, FilterNonEmpty(t), shifted, 0);
      } else {
        PicksCons(t, rest, shifted);
        assert NonEmptyInOrder(t, FilterNonEmpty(t), [0] + shifted, 0);
      }
    }
  }

  /** The positions picked after the first string, counted from the first. */
  lemma PicksTail(t: seq<string>, rest: seq<string>, p: seq<int>) returns (shifted: seq<int>)
    requires |t| > 0 && NonEmptyInOrder(t[1..], rest, p, 0)
    ensures NonEmptyInOrder(t, rest, shifted, 1)
  {
    shifted := seq(|p|, k requires 0 <= k < |p| => p[k] + 1);
    forall k | 0 <= k < |shifted| ensures 1 <= shifted[k] < |t| && rest[k] == t[shifted[k]] {
      assert t[1..][p[k]] == t[shifted[k]];
    }
    forall j | 1 <= j < |t| && NonEmptyAt(t, j) ensures j in shifted {
      assert t[1..][j - 1] == t[j];
      assert NonEmptyAt(t[1..], j - 1);
      var k :| 0 <= k < |p| && p[k] == j - 1;
      assert shifted[k] == j;
    }
  }

  /** A non-empty first string goes in front. */
  lemma PicksCons(t: seq<string>, rest: seq<string>, shifted: seq<int>)
    requires |t| > 0 && |t[0]| > 0 && NonEmptyInOrder(t, rest, shifted, 1)
    ensures NonEmptyInOrder(t, [t[0]] + rest, [0] + shifted, 0)
  {
    var picked := [0] + shifted;
    forall j | 0 <= j < |t| && NonEmptyAt(t, j) ensures j in picked {
      if j > 0 {
        var k :| 0 <= k < |shifted| && shifted[k] == j;
        assert picked[k + 1] == j;
      }
    }
  }

  /**
   * `get_lines`: the lines of the file (ended by `\r\n`, `\r` or `\n`),
   * stripped, the empty ones dropped, in file order; nothing when there is no
   * such file. No line read holds a line break.
   */
  function GetLines(file: Option<string>): (r: seq<string>)
    ensures file.None? ==> r == []
    ensures file.Some? ==> exists picked :: NonEmptyInOrder(StripEach(SplitUniversal(file.value)), r, picked, 0)
    ensures forall k :: 0 <= k < |r| ==> Stripped(r[k])
    ensures FreeOf(r, '\n') && FreeOf(r, '\r')
  {
    match file
    case None => []
    case Some(text) =>
      var lines := SplitLines(UniversalNewlines(text));
      StripAllFree(lines, '\n');
      StripAllFree(lines, '\r');
      UniversalLines(text);
      StripAllFilters(lines);
      FilterPicks(StripEach(lines));
      StripAll(lines)
  }

  /** `print(package, file=list_file)` for each package in turn: one package per line. */
  function WriteList(packages: seq<string>): (r: string)
    ensures forall c :: c !in r ==> c == '\n' || FreeOf(packages, c)
    decreases |packages|
  {
    if |packages| == 0 then ""
    else
      var rest := WriteList(packages[1..]);
      assert forall c :: FreeOf(packages[1..], c) && c !in packages[0] ==> FreeOf(packages, c) by {
        forall c | FreeOf(packages[1..], c) && c !in packages[0] ensures FreeOf(packages, c) {
          forall x | x in packages ensures c !in x {
            if x != packages[0] {
              assert x in packages[1..];
            }
          }
        }
      }
      packages[0] + "\n" + rest
  }

  /** A package name that reads back as itself from a list file. */
  predicate Listable(package: string) {
    Stripped(package) && '\n' !in package && '\r' !in package
  }

  predicate AllListable(packages: seq<string>) {
    forall p :: p in packages ==> Listable(p)
  }

  /** The written list is the packages joined by line breaks, with a final empty line. */
  lemma {:induction false} WriteListJoined(packages: seq<string>)
    ensures WriteList(packages) == JoinLines(packages + [""])
    decreases |packages|
  {
    if |packages| > 0 {
      WriteListJoined(packages[1..]);
      assert (packages + [""])[1..] == packages[1..] + [""];
    }
  }

  lemma {:induction false} WriteListNoReturn(packages: seq<string>)
    requires AllListable(packages)
    ensures '\r' !in WriteList(packages)
    decreases |packages|
  {
    if |packages| > 0 {
      assert packages[0] in packages;
      assert forall p :: p in packages[1..] ==> p in packages;
      WriteListNoReturn(packages[1..]);
    }
  }

  lemma {:induction false} StripAllListable(packages: seq<string>)
    requires AllListable(packages)
    ensures StripAll(packages + [""]) == packages
    decreases |packages|
  {
    if |packages| == 0 {
      assert StripAll([""]) == StripAll([]);
    } else {
      ListableParts(packages);
      StripAllListable(packages[1..]);
      ConsAppend(packages, "");
      StripAllKeeps(packages[0], packages[1..] + [""]);
    }
  }

  lemma ListableParts(packages: seq<string>)
    requires AllListable(packages) && |packages| > 0
    ensures Listable(packages[0]) && AllListable(packages[1..])
  {
    assert packages[0] in packages;
    forall p | p in packages[1..] ensures Listable(p) {
      assert p in packages;
    }
  }

  lemma ConsAppend<T>(s: seq<T>, x: T)
    requires |s| > 0
    ensures s == [s[0]] + s[1..]
    ensures s + [x] == [s[0]] + (s[1..] + [x])
  {
  }

  lemma StripAllKeeps(first: string, rest: seq<string>)
    requires Stripped(first)
    ensures StripAll([first] + rest) == [first] + StripAll(rest)
  {
    assert ([first] + rest)[1..] == rest;
  }

  /**
   * Reading back a list file gives exactly the packages written to it, in
   * order, when no name has whitespace at its ends or holds a line break.
   */
  lemma ReadWritten(packages: seq<string>)
    requires AllListable(packages)
    ensures GetLines(Some(WriteList(packages))) == packages
  {
    var text := WriteList(packages);
    WriteListNoReturn(packages);
    NewlinesUnchanged(text);
    WriteListJoined(packages);
    assert forall k :: 0 <= k < |packages + [""]| ==> '\n' !in (packages + [""])[k] by {
      forall k | 0 <= k < |packages + [""]| ensures '\n' !in (packages + [""])[k] {
        if k < |packages| {
          assert packages[k] in packages;
        }
      }
    }
    SplitJoin(packages + [""]);
    StripAllListable(packages);
  }
}
