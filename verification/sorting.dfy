/**
 * Sorting by a strict total order, the shape of every `sorted(...)` call of the
 * pipeline. A stable sort by a key is a sort by the strict order "smaller key,
 * or equal key and earlier position", so both uses share this module.
 */
module Sorting {

  function Elems<T>(s: seq<T>): set<T> {
    set x | x in s
  }

  /** `less` is irreflexive, transitive and connected on `xs`. */
  ghost predicate StrictTotalOn<T>(less: (T, T) -> bool, xs: set<T>) {
    && (forall a :: a in xs ==> !less(a, a))
    && (forall a, b, c :: a in xs && b in xs && c in xs && less(a, b) && less(b, c) ==> less(a, c))
    && (forall a, b :: a in xs && b in xs && a != b ==> less(a, b) || less(b, a))
  }

  predicate StrictlySorted<T>(less: (T, T) -> bool, s: seq<T>) {
    forall i, j :: 0 <= i < j < |s| ==> less(s[i], s[j])
  }

  predicate Distinct<T(==)>(s: seq<T>) {
    forall i, j :: 0 <= i < j < |s| ==> s[i] != s[j]
  }

  /** Puts `x` into the sorted `s` at its place, unless `s` already holds it. */
  function Insert<T(==)>(less: (T, T) -> bool, x: T, s: seq<T>): (r: seq<T>)
    requires StrictlySorted(less, s) && StrictTotalOn(less, Elems(s) + {x})
    ensures StrictlySorted(less, r)
    ensures Elems(r) == Elems(s) + {x}
  {
    if |s| == 0 then [x]
    else if x == s[0] then s
    else if less(x, s[0]) then
      InsertBelow(less, x, s);
      ConsSorted(less, x, s);
      [x] + s
    else
      assert Elems(s) == {s[0]} + Elems(s[1..]);
      var rest := Insert(less, x, s[1..]);
      InsertAbove(less, x, s, rest);
      ConsSorted(less, s[0], rest);
      [s[0]] + rest
  }

  /** Putting in front an element below every element keeps the order. */
  lemma ConsSorted<T>(less: (T, T) -> bool, y: T, rest: seq<T>)
    requires StrictlySorted(less, rest)
    requires forall k :: 0 <= k < |rest| ==> less(y, rest[k])
    ensures StrictlySorted(less, [y] + rest)
    ensures Elems([y] + rest) == {y} + Elems(rest)
  {
    var r := [y] + rest;
    forall i, j | 0 <= i < j < |r|
      ensures less(r[i], r[j])
    {
      assert r[j] == rest[j - 1];
      if i > 0 {
        assert r[i] == rest[i - 1];
      }
    }
  }

  lemma InsertBelow<T>(less: (T, T) -> bool, x: T, s: seq<T>)
    requires |s| > 0 && StrictlySorted(less, s) && StrictTotalOn(less, Elems(s) + {x})
    requires less(x, s[0])
    ensures forall k :: 0 <= k < |s| ==> less(x, s[k])
  {
    forall k | 0 < k < |s|
      ensures less(x, s[k])
    {
      assert s[0] in Elems(s) && s[k] in Elems(s);
    }
  }

  lemma InsertAbove<T>(less: (T, T) -> bool, x: T, s: seq<T>, rest: seq<T>)
    requires |s| > 0 && StrictlySorted(less, s) && StrictTotalOn(less, Elems(s) + {x})
    requires x != s[0] && !less(x, s[0])
    requires Elems(rest) == Elems(s[1..]) + {x}
    ensures forall k :: 0 <= k < |rest| ==> less(s[0], rest[k])
  {
    assert s[0] in Elems(s);
    forall k | 0 <= k < |rest|
      ensures less(s[0], rest[k])
    {
      assert rest[k] in Elems(rest);
      if rest[k] != x {
        var j :| 0 <= j < |s[1..]| && s[1..][j] == rest[k];
        assert s[j + 1] == rest[k];
      }
    }
  }

  /** The elements of `s`, without repeats, in increasing order. */
  function Sort<T(==)>(less: (T, T) -> bool, s: seq<T>): (r: seq<T>)
    requires StrictTotalOn(less, Elems(s))
    ensures StrictlySorted(less, r)
    ensures Elems(r) == Elems(s)
  {
    if |s| == 0 then []
    else
      assert Elems(s) == Elems(s[..|s| - 1]) + {s[|s| - 1]};
      Insert(less, s[|s| - 1], Sort(less, s[..|s| - 1]))
  }

  lemma SortedDistinct<T>(less: (T, T) -> bool, s: seq<T>)
    requires StrictTotalOn(less, Elems(s)) && StrictlySorted(less, s)
    ensures Distinct(s)
  {
    forall i, j | 0 <= i < j < |s|
      ensures s[i] != s[j]
    {
      assert s[i] in Elems(s);
    }
  }

  /** A sequence without repeats has as many elements as its set. */
  lemma {:induction false} DistinctCard<T>(s: seq<T>)
    requires Distinct(s)
    ensures |Elems(s)| == |s|
  {
    if |s| > 0 {
      assert Elems(s) == Elems(s[..|s| - 1]) + {s[|s| - 1]};
      assert s[|s| - 1] !in Elems(s[..|s| - 1]);
      DistinctCard(s[..|s| - 1]);
    }
  }

  lemma EmptyElems<T>(s: seq<T>)
    ensures Elems(s) == {} <==> |s| == 0
  {
    if |s| > 0 {
      assert s[0] in Elems(s);
    }
  }

  /**
   * There is one strictly sorted arrangement of a set: two strictly sorted
   * sequences with the same elements are equal.
   */
  lemma {:induction false} SortedUnique<T>(less: (T, T) -> bool, a: seq<T>, b: seq<T>)
    requires StrictTotalOn(less, Elems(a))
    requires StrictlySorted(less, a) && StrictlySorted(less, b) && Elems(a) == Elems(b)
    ensures a == b
    decreases |a|
  {
    if |a| == 0 {
      EmptyElems(b);
    } else {
      assert a[0] in Elems(b);
      assert b[0] in Elems(a);
      assert a[0] == b[0];
      SortedDistinct(less, a);
      SortedDistinct(less, b);
      assert Elems(a[1..]) == Elems(a) - {a[0]} by {
        assert Elems(a) == {a[0]} + Elems(a[1..]);
        assert a[0] !in Elems(a[1..]);
      }
      assert Elems(b[1..]) == Elems(b) - {b[0]} by {
        assert Elems(b) == {b[0]} + Elems(b[1..]);
        assert b[0] !in Elems(b[1..]);
      }
      SortedUnique(less, a[1..], b[1..]);
    }
  }
}
