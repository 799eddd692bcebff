/** Sorted lists of distinct strings, as `sorted(column.dropna().unique())`
    produces them (app_corrigido.py, lines 140, 145 and 151).

    Python orders strings lexicographically by code point; `Less` is that
    order. `SortedDistinct` is the sorted list of the distinct elements of a
    sequence; `StrictlySortedUnique` shows that there is only one such list,
    so it does not matter how it is computed or in which order the values came.
 */
module Ordering {

  /** Python's `a < b` on strings; no string is smaller than itself. */
  predicate Less(a: string, b: string): (lt: bool)
    ensures lt ==> a != b
  {
    if a == [] then b != []
    else if b == [] then false
    else if a[0] != b[0] then a[0] < b[0]
    else Less(a[1..], b[1..])
  }

  lemma {:induction false} LessTransitive(a: string, b: string, c: string)
    requires Less(a, b) && Less(b, c)
    ensures Less(a, c)
  {
    if a != [] && b != [] && c != [] && a[0] == b[0] && b[0] == c[0] {
      LessTransitive(a[1..], b[1..], c[1..]);
    }
  }

  lemma {:induction false} LessTotal(a: string, b: string)
    requires a != b
    ensures Less(a, b) || Less(b, a)
  {
    if a != [] && b != [] && a[0] == b[0] {
      assert a == [a[0]] + a[1..] && b == [b[0]] + b[1..];
      LessTotal(a[1..], b[1..]);
    }
  }

  /** Every element is smaller than every later one: sorted, without repeats. */
  ghost predicate StrictlySorted(s: seq<string>)
  {
    forall i, j :: 0 <= i < j < |s| ==> Less(s[i], s[j])
  }

  /** Adds `x` to a sorted list at its place, unless it is already there. */
  function Insert(s: seq<string>, x: string): seq<string>
  {
    if s == [] then [x]
    else if x == s[0] then s
    else if Less(x, s[0]) then [x] + s
    else [s[0]] + Insert(s[1..], x)
  }

  lemma {:induction false} InsertSorted(s: seq<string>, x: string)
    requires StrictlySorted(s)
    ensures StrictlySorted(Insert(s, x))
    ensures forall y :: y in Insert(s, x) <==> y in s || y == x
  {
    if s == [] {
    } else if x == s[0] {
    } else if Less(x, s[0]) {
      var r := [x] + s;
      forall i, j | 0 <= i < j < |r|
        ensures Less(r[i], r[j])
      {
        if i == 0 && j > 1 {
          LessTransitive(x, s[0], s[j - 1]);
        }
      }
    } else {
      LessTotal(x, s[0]);
      var tail := s[1..];
      assert StrictlySorted(tail) by {
        forall i, j | 0 <= i < j < |tail|
          ensures Less(tail[i], tail[j])
        {
          assert tail[i] == s[i + 1] && tail[j] == s[j + 1];
        }
      }
      InsertSorted(tail, x);
      var rest := Insert(tail, x);
      var r := [s[0]] + rest;
      forall k | 0 <= k < |rest|
        ensures Less(s[0], rest[k])
      {
        assert rest[k] in rest;
        if rest[k] != x {
          var m :| 0 <= m < |tail| && tail[m] == rest[k];
          assert s[m + 1] == rest[k];
        }
      }
      forall i, j | 0 <= i < j < |r|
        ensures Less(r[i], r[j])
      {
        if i == 0 {
          assert r[j] == rest[j - 1];
        } else {
          assert r[i] == rest[i - 1] && r[j] == rest[j - 1];
        }
      }
    }
  }

  /** The distinct elements of `s`, sorted. */
  function SortedDistinct(s: seq<string>): (r: seq<string>)
    ensures StrictlySorted(r)
    ensures forall y :: y in r <==> y in s
  {
    if s == [] then []
    else
      var prefix := SortedDistinct(s[..|s| - 1]);
      InsertSorted(prefix, s[|s| - 1]);
      assert s == s[..|s| - 1] + [s[|s| - 1]];
      Insert(prefix, s[|s| - 1])
  }

  /** A strictly sorted list is determined by its set of elements. */
  lemma {:induction false} StrictlySortedUnique(a: seq<string>, b: seq<string>)
    requires StrictlySorted(a) && StrictlySorted(b)
    requires forall y :: y in a <==> y in b
    ensures a == b
  {
    assert a == [] <==> b == [] by {
      if a != [] { assert a[0] in a; }
      if b != [] { assert b[0] in b; }
    }
    if a != [] && b != [] {
      // The first element of each is the least element of both.
      if a[0] != b[0] {
        assert a[0] in a && b[0] in b;
        var i :| 0 <= i < |b| && b[i] == a[0];
        var j :| 0 <= j < |a| && a[j] == b[0];
        assert i > 0 && j > 0;
        assert Less(b[0], a[0]) && Less(a[0], b[0]);
        LessTransitive(a[0], b[0], a[0]);
      }
      var ta, tb := a[1..], b[1..];
      assert StrictlySorted(ta) by {
        forall i, j | 0 <= i < j < |ta| ensures Less(ta[i], ta[j]) {
          assert ta[i] == a[i + 1] && ta[j] == a[j + 1];
        }
      }
      assert StrictlySorted(tb) by {
        forall i, j | 0 <= i < j < |tb| ensures Less(tb[i], tb[j]) {
          assert tb[i] == b[i + 1] && tb[j] == b[j + 1];
        }
      }
      forall y ensures y in ta <==> y in tb {
        if y in ta {
          var k :| 0 <= k < |ta| && ta[k] == y;
          assert Less(a[0], y);
          assert a[k + 1] == y && a[k + 1] in a;
          var m :| 0 <= m < |b| && b[m] == y;
          assert tb[m - 1] == y;
        }
        if y in tb {
          var k :| 0 <= k < |tb| && tb[k] == y;
          assert Less(b[0], y);
          assert b[k + 1] == y && b[k + 1] in b;
          var m :| 0 <= m < |a| && a[m] == y;
          assert ta[m - 1] == y;
        }
      }
      StrictlySortedUnique(ta, tb);
    }
  }

  /** A strictly sorted list has no repeats: its length is the number of its
      distinct elements. */
  lemma {:induction false} StrictlySortedCard(s: seq<string>)
    requires StrictlySorted(s)
    ensures |set y | y in s| == |s|
  {
    if s != [] {
      var tail := s[1..];
      assert StrictlySorted(tail) by {
        forall i, j | 0 <= i < j < |tail| ensures Less(tail[i], tail[j]) {
          assert tail[i] == s[i + 1] && tail[j] == s[j + 1];
        }
      }
      StrictlySortedCard(tail);
      assert s[0] !in tail by {
        forall k | 0 <= k < |tail| ensures tail[k] != s[0] {
          assert Less(s[0], s[k + 1]);
        }
      }
      assert (set y | y in s) == {s[0]} + (set y | y in tail) by {
        assert s == [s[0]] + tail;
      }
    }
  }
}
