/**
 * A stable insertion sort on sequences, ordered by a total preorder `le`
 * (`le(a, b)`: `a` may stand before `b`). Python's `sorted` and `list.sort`
 * are stable, so ties keep their input order.
 */
module Sorting {

  ghost predicate Total<T(!new)>(le: (T, T) -> bool) {
    forall a, b :: le(a, b) || le(b, a)
  }

  ghost predicate Transitive<T(!new)>(le: (T, T) -> bool) {
    forall a, b, c :: le(a, b) && le(b, c) ==> le(a, c)
  }

  ghost predicate SortedBy<T>(s: seq<T>, le: (T, T) -> bool) {
    forall i, j :: 0 <= i < j < |s| ==> le(s[i], s[j])
  }

  /** Puts `x` after every element of the sorted `s` that may stand before it. */
  function Insert<T>(x: T, s: seq<T>, le: (T, T) -> bool): (r: seq<T>)
    ensures multiset(r) == multiset(s) + multiset{x}
    ensures |r| == |s| + 1
  {
    if s == [] then [x]
    else if le(s[0], x) then
      assert s == [s[0]] + s[1..];
      [s[0]] + Insert(x, s[1..], le)
    else [x] + s
  }

  lemma {:induction false} InsertSorted<T(!new)>(x: T, s: seq<T>, le: (T, T) -> bool)
    requires Total(le) && Transitive(le)
    requires SortedBy(s, le)
    ensures SortedBy(Insert(x, s, le), le)
  {
    if s != [] {
      if le(s[0], x) {
        InsertSorted(x, s[1..], le);
        var r := Insert(x, s[1..], le);
        forall j | 0 <= j < |r|
          ensures le(s[0], r[j])
        {
          assert r[j] in multiset(r);
          assert r[j] == x || r[j] in multiset(s[1..]);
          if r[j] != x {
            var k :| 0 <= k < |s[1..]| && s[1..][k] == r[j];
            assert s[k + 1] == r[j];
          }
        }
      } else {
        assert le(x, s[0]);
        forall j | 0 <= j < |s|
          ensures le(x, s[j])
        {
          if j > 0 {
            assert le(s[0], s[j]);
          }
        }
      }
    }
  }

  /** Python's stable `sorted(s, key=...)` for the order `le`. */
  function Sort<T>(s: seq<T>, le: (T, T) -> bool): (r: seq<T>)
    ensures multiset(r) == multiset(s)
    ensures |r| == |s|
  {
    if s == [] then []
    else
      assert s == s[..|s| - 1] + [s[|s| - 1]];
      Insert(s[|s| - 1], Sort(s[..|s| - 1], le), le)
  }

  /** The sort returns its input rearranged into `le` order. */
  lemma {:induction false} SortSorted<T(!new)>(s: seq<T>, le: (T, T) -> bool)
    requires Total(le) && Transitive(le)
    ensures SortedBy(Sort(s, le), le)
    ensures multiset(Sort(s, le)) == multiset(s)
  {
    if s != [] {
      SortSorted(s[..|s| - 1], le);
      InsertSorted(s[|s| - 1], Sort(s[..|s| - 1], le), le);
    }
  }

  predicate Distinct<T(==)>(s: seq<T>) {
    forall i, j :: 0 <= i < j < |s| ==> s[i] != s[j]
  }

  /** A sequence without repeats holds each value at most once. */
  lemma {:induction false} DistinctMultiplicity<T>(s: seq<T>)
    requires Distinct(s)
    ensures forall x :: multiset(s)[x] <= 1
  {
    if s != [] {
      var init := s[..|s| - 1];
      assert s == init + [s[|s| - 1]];
      DistinctMultiplicity(init);
      assert s[|s| - 1] !in init;
    }
  }

  /** A sequence that holds each value at most once has no repeats. */
  lemma {:induction false} MultiplicityDistinct<T>(s: seq<T>)
    requires forall x :: multiset(s)[x] <= 1
    ensures Distinct(s)
  {
    forall i, j | 0 <= i < j < |s|
      ensures s[i] != s[j]
    {
      assert s == s[..j] + s[j..];
      assert multiset(s)[s[j]] == multiset(s[..j])[s[j]] + multiset(s[j..])[s[j]];
      assert s[j] in s[j..];
      assert s[..j][i] == s[i];
    }
  }
}
