/** Sequence helpers shared by the user store and the address filter.

    Every selection the application performs (a pandas boolean mask, a list
    comprehension with an `if`) keeps some elements of a sequence and drops the
    others without reordering them. That one concept is `Filter`; the lemmas
    below are what the rest of the model relies on about it.
 */
module Seqs {

  /** The elements of `s` that satisfy `keep`, in their original order. */
  function Filter<T(==,!new)>(s: seq<T>, keep: T -> bool): (r: seq<T>)
    ensures |r| <= |s|
    ensures forall x :: x in r <==> x in s && keep(x)
  {
    if s == [] then []
    else
      var rest := Filter(s[1..], keep);
      if keep(s[0]) then [s[0]] + rest else rest
  }

  /** Filtering a concatenation filters each part: the kept elements keep
      their relative order. */
  lemma {:induction false} FilterConcat<T(!new)>(a: seq<T>, b: seq<T>, keep: T -> bool)
    ensures Filter(a + b, keep) == Filter(a, keep) + Filter(b, keep)
  {
    if a == [] {
      assert a + b == b;
    } else {
      assert (a + b)[0] == a[0];
      assert (a + b)[1..] == a[1..] + b;
      FilterConcat(a[1..], b, keep);
    }
  }

  /** Each element occurs in the result exactly as often as in the input when
      it is kept, and not at all otherwise. */
  lemma {:induction false} FilterCount<T(!new)>(s: seq<T>, keep: T -> bool, x: T)
    ensures multiset(Filter(s, keep))[x] == if keep(x) then multiset(s)[x] else 0
  {
    if s != [] {
      assert s == [s[0]] + s[1..];
      FilterCount(s[1..], keep, x);
    }
  }

  /** When every element is kept, filtering changes nothing. */
  lemma {:induction false} FilterKeepsAll<T(!new)>(s: seq<T>, keep: T -> bool)
    requires forall x :: x in s ==> keep(x)
    ensures Filter(s, keep) == s
  {
    if s != [] {
      assert forall x :: x in s[1..] ==> x in s;
      FilterKeepsAll(s[1..], keep);
    }
  }

  /** `f` embeds `a` into `b`: it picks, in increasing order, the positions of
      `b` at which the elements of `a` stand. */
  ghost predicate Embeds<T>(a: seq<T>, b: seq<T>, f: seq<nat>)
  {
    && |f| == |a|
    && (forall i :: 0 <= i < |f| ==> f[i] < |b| && a[i] == b[f[i]])
    && (forall i, j :: 0 <= i < j < |f| ==> f[i] < f[j])
  }

  /** `a` is obtained from `b` by deleting elements, without reordering. */
  ghost predicate IsSubsequence<T>(a: seq<T>, b: seq<T>)
  {
    exists f :: Embeds(a, b, f)
  }

  function Shift(f: seq<nat>): (g: seq<nat>)
    ensures |g| == |f| && forall i :: 0 <= i < |f| ==> g[i] == f[i] + 1
  {
    seq(|f|, i requires 0 <= i < |f| => f[i] + 1)
  }

  /** What `Filter` returns is a subsequence of its input. */
  lemma {:induction false} FilterIsSubsequence<T(!new)>(s: seq<T>, keep: T -> bool)
    ensures IsSubsequence(Filter(s, keep), s)
  {
    if s == [] {
      assert Embeds(Filter(s, keep), s, []);
    } else {
      FilterIsSubsequence(s[1..], keep);
      var rest := Filter(s[1..], keep);
      var f :| Embeds(rest, s[1..], f);
      var g := Shift(f);
      if keep(s[0]) {
        assert Embeds([s[0]] + rest, s, [0] + g);
      } else {
        assert Embeds(rest, s, g);
      }
    }
  }

  /** Deleting in two rounds is deleting once. */
  lemma SubsequenceTransitive<T>(a: seq<T>, b: seq<T>, c: seq<T>)
    requires IsSubsequence(a, b) && IsSubsequence(b, c)
    ensures IsSubsequence(a, c)
  {
    var f :| Embeds(a, b, f);
    var g :| Embeds(b, c, g);
    var h := seq(|f|, i requires 0 <= i < |f| => g[f[i]]);
    assert Embeds(a, c, h);
  }

  /** A subsequence holds nothing its sequence does not. */
  lemma SubsequenceMembers<T>(a: seq<T>, b: seq<T>)
    requires IsSubsequence(a, b)
    ensures forall x :: x in a ==> x in b
  {
  }
}
