/** Python's `sorted`: a stable sort by a key comparison. */
module Sorting {

  ghost predicate TotalPreorder<T(!new)>(le: (T, T) -> bool) {
    && (forall x, y :: le(x, y) || le(y, x))
    && (forall x, y, z :: le(x, y) && le(y, z) ==> le(x, z))
  }

  ghost predicate Sorted<T>(s: seq<T>, le: (T, T) -> bool) {
    forall i, j :: 0 <= i < j < |s| ==> le(s[i], s[j])
  }

  /** `x` goes in front of the first element it may precede: it came before all of them. */
  function Insert<T>(x: T, s: seq<T>, le: (T, T) -> bool): seq<T> {
    if |s| == 0 || le(x, s[0]) then [x] + s else [s[0]] + Insert(x, s[1..], le)
  }

  function StableSort<T>(s: seq<T>, le: (T, T) -> bool): seq<T> {
    if |s| == 0 then [] else Insert(s[0], StableSort(s[1..], le), le)
  }

  lemma {:induction false} InsertSorts<T(!new)>(x: T, s: seq<T>, le: (T, T) -> bool)
    requires TotalPreorder(le) && Sorted(s, le)
    ensures Sorted(Insert(x, s, le), le)
    ensures multiset(Insert(x, s, le)) == multiset{x} + multiset(s)
    ensures |Insert(x, s, le)| == |s| + 1
  {
    if |s| == 0 || le(x, s[0]) {
      assert forall i :: 0 <= i < |s| ==> le(x, s[i]) by {
        forall i | 0 <= i < |s|
          ensures le(x, s[i])
        {
          assert i > 0 ==> le(s[0], s[i]);
        }
      }
    } else {
      InsertSorts(x, s[1..], le);
      var r := Insert(x, s[1..], le);
      assert s == [s[0]] + s[1..];
      forall i | 0 <= i < |r|
        ensures le(s[0], r[i])
      {
        assert r[i] in multiset(r);
        assert r[i] == x || r[i] in s[1..];
      }
    }
  }

  /** The result is sorted and is a rearrangement. */
  lemma {:induction false} SortSorts<T(!new)>(s: seq<T>, le: (T, T) -> bool)
    requires TotalPreorder(le)
    ensures Sorted(StableSort(s, le), le)
    ensures multiset(StableSort(s, le)) == multiset(s)
    ensures |StableSort(s, le)| == |s|
  {
    if |s| > 0 {
      SortSorts(s[1..], le);
      InsertSorts(s[0], StableSort(s[1..], le), le);
      assert s == [s[0]] + s[1..];
    }
  }

  /** `fine` refines `le` by an order of arrival in which `s` is already sorted among equals. */
  ghost predicate Refines<T(!new)>(fine: (T, T) -> bool, le: (T, T) -> bool) {
    && TotalPreorder(fine)
    && (forall x, y :: fine(x, y) ==> le(x, y))
    && (forall x, y :: le(x, y) && !le(y, x) ==> fine(x, y))
  }

  lemma {:induction false} InsertKeepsOrder<T(!new)>(x: T, s: seq<T>, le: (T, T) -> bool, fine: (T, T) -> bool)
    requires TotalPreorder(le) && Refines(fine, le)
    requires Sorted(s, fine)
    requires forall i :: 0 <= i < |s| && le(x, s[i]) ==> fine(x, s[i])
    ensures Sorted(Insert(x, s, le), fine)
    ensures multiset(Insert(x, s, le)) == multiset{x} + multiset(s)
  {
    if |s| == 0 || le(x, s[0]) {
      forall i | 0 <= i < |s|
        ensures fine(x, s[i])
      {
        assert i > 0 ==> fine(s[0], s[i]);
      }
    } else {
      InsertKeepsOrder(x, s[1..], le, fine);
      var r := Insert(x, s[1..], le);
      assert s == [s[0]] + s[1..];
      forall i | 0 <= i < |r|
        ensures fine(s[0], r[i])
      {
        assert r[i] in multiset(r);
        assert r[i] == x || r[i] in s[1..];
        assert fine(s[0], x);
      }
    }
  }

  /** Stability: elements that compare equal keep their order of arrival. */
  lemma {:induction false} SortIsStable<T(!new)>(s: seq<T>, le: (T, T) -> bool, fine: (T, T) -> bool)
    requires TotalPreorder(le) && Refines(fine, le)
    requires forall i, j :: 0 <= i < j < |s| && le(s[i], s[j]) ==> fine(s[i], s[j])
    ensures Sorted(StableSort(s, le), fine)
    ensures multiset(StableSort(s, le)) == multiset(s)
  {
    if |s| > 0 {
      SortIsStable(s[1..], le, fine);
      var r := StableSort(s[1..], le);
      forall i | 0 <= i < |r| && le(s[0], r[i])
        ensures fine(s[0], r[i])
      {
        assert r[i] in multiset(r);
        assert r[i] in s[1..];
      }
      InsertKeepsOrder(s[0], r, le, fine);
      assert s == [s[0]] + s[1..];
    }
  }

  lemma LeastComesFirst<T(!new)>(a: seq<T>, b: seq<T>, le: (T, T) -> bool)
    requires TotalPreorder(le) && Sorted(a, le) && Sorted(b, le) && |a| > 0
    requires multiset(a) == multiset(b)
    ensures |b| > 0 && le(a[0], b[0]) && b[0] in a
  {
    assert a[0] in multiset(b);
    assert b[0] in multiset(a);
    var j :| 0 <= j < |a| && a[j] == b[0];
    assert j > 0 ==> le(a[0], a[j]);
  }

  lemma DropHead<T>(a: seq<T>)
    requires |a| > 0
    ensures multiset(a[1..]) == multiset(a) - multiset{a[0]}
    ensures forall x :: x in a[1..] ==> x in a
  {
    assert a == [a[0]] + a[1..];
  }

  /** There is only one sorted arrangement when no two different elements compare equal both ways. */
  lemma {:induction false} SortedIsUnique<T(!new)>(a: seq<T>, b: seq<T>, le: (T, T) -> bool)
    requires TotalPreorder(le) && Sorted(a, le) && Sorted(b, le)
    requires multiset(a) == multiset(b)
    requires forall x, y :: x in a && y in a && le(x, y) && le(y, x) ==> x == y
    ensures a == b
  {
    if |a| > 0 {
      LeastComesFirst(a, b, le);
      LeastComesFirst(b, a, le);
      DropHead(a);
      DropHead(b);
      SortedIsUnique(a[1..], b[1..], le);
    } else {
      assert |multiset(b)| == |b|;
    }
  }
}
