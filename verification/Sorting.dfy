/** The stable sort that the route table and the external routes use, each with its own comparison. */
module Sorting {

  /** A comparison that any two elements can be put in order by. */
  ghost predicate Comparison<T(!new)>(leq: (T, T) -> bool) {
    && (forall x, y :: leq(x, y) || leq(y, x))
    && (forall x, y, z :: leq(x, y) && leq(y, z) ==> leq(x, z))
  }

  ghost predicate SortedBy<T(!new)>(s: seq<T>, leq: (T, T) -> bool) {
    forall i, j :: 0 <= i < j < |s| ==> leq(s[i], s[j])
  }

  /** `x` behind every element that is not greater. */
  function Insert<T>(s: seq<T>, x: T, leq: (T, T) -> bool): (r: seq<T>)
    ensures |r| == |s| + 1
  {
    if |s| == 0 || leq(s[|s| - 1], x) then s + [x]
    else Insert(s[..|s| - 1], x, leq) + [s[|s| - 1]]
  }

  function SortBy<T>(s: seq<T>, leq: (T, T) -> bool): (r: seq<T>)
    ensures |r| == |s|
  {
    if |s| == 0 then [] else Insert(SortBy(s[..|s| - 1], leq), s[|s| - 1], leq)
  }

  /** The elements that compare equal to `x`, in order. */
  function Alike<T>(s: seq<T>, leq: (T, T) -> bool, x: T): seq<T> {
    if |s| == 0 then []
    else
      var last := s[|s| - 1];
      Alike(s[..|s| - 1], leq, x) + if leq(x, last) && leq(last, x) then [last] else []
  }

  lemma {:induction false} InsertIsOrdered<T(!new)>(s: seq<T>, x: T, leq: (T, T) -> bool)
    requires Comparison(leq) && SortedBy(s, leq)
    ensures SortedBy(Insert(s, x, leq), leq)
  {
    if |s| != 0 {
      var rest, last := s[..|s| - 1], s[|s| - 1];
      if leq(last, x) {
        forall i | 0 <= i < |s| ensures leq(s[i], x) {
          assert i < |s| - 1 ==> leq(s[i], last);
        }
      } else {
        InsertIsOrdered(rest, x, leq);
        InsertElements(rest, x, leq);
        var r := Insert(rest, x, leq);
        forall i | 0 <= i < |r| ensures leq(r[i], last) {
          assert r[i] in r;
        }
      }
    }
  }

  lemma {:induction false} InsertKeepsCounts<T>(s: seq<T>, x: T, leq: (T, T) -> bool)
    ensures multiset(Insert(s, x, leq)) == multiset(s) + multiset{x}
  {
    if |s| != 0 && !leq(s[|s| - 1], x) {
      InsertKeepsCounts(s[..|s| - 1], x, leq);
      assert s == s[..|s| - 1] + [s[|s| - 1]];
    }
  }

  lemma {:induction false} InsertElements<T(!new)>(s: seq<T>, x: T, leq: (T, T) -> bool)
    ensures forall y :: y in Insert(s, x, leq) <==> y == x || y in s
  {
    if |s| != 0 && !leq(s[|s| - 1], x) {
      InsertElements(s[..|s| - 1], x, leq);
      assert s == s[..|s| - 1] + [s[|s| - 1]];
    }
  }

  lemma {:induction false} InsertIsStable<T(!new)>(s: seq<T>, x: T, leq: (T, T) -> bool, y: T)
    requires Comparison(leq)
    ensures Alike(Insert(s, x, leq), leq, y) == Alike(s, leq, y) + if leq(y, x) && leq(x, y) then [x] else []
  {
    if |s| == 0 || leq(s[|s| - 1], x) {
      assert (s + [x])[..|s|] == s;
    } else {
      var rest, last := s[..|s| - 1], s[|s| - 1];
      InsertIsStable(rest, x, leq, y);
      var r := Insert(rest, x, leq) + [last];
      assert r[..|r| - 1] == Insert(rest, x, leq);
      // what goes in front of the last element does not compare equal to it
      assert !(leq(y, x) && leq(x, y)) || !(leq(y, last) && leq(last, y)) by {
        assert leq(last, y) && leq(y, x) ==> leq(last, x);
      }
    }
  }

  /** The sort orders, keeps every element, and keeps equal elements in their order. */
  lemma {:induction false} SortByIsStableSort<T(!new)>(s: seq<T>, leq: (T, T) -> bool)
    requires Comparison(leq)
    ensures SortedBy(SortBy(s, leq), leq)
    ensures multiset(SortBy(s, leq)) == multiset(s)
    ensures forall x :: Alike(SortBy(s, leq), leq, x) == Alike(s, leq, x)
  {
    if |s| != 0 {
      var rest, last := s[..|s| - 1], s[|s| - 1];
      SortByIsStableSort(rest, leq);
      InsertIsOrdered(SortBy(rest, leq), last, leq);
      InsertKeepsCounts(SortBy(rest, leq), last, leq);
      assert s == rest + [last];
      forall x ensures Alike(SortBy(s, leq), leq, x) == Alike(s, leq, x) {
        InsertIsStable(SortBy(rest, leq), last, leq, x);
      }
    }
  }

  /** Nothing moves in a list that is in order. */
  lemma {:induction false} SortByOfSorted<T(!new)>(s: seq<T>, leq: (T, T) -> bool)
    requires SortedBy(s, leq)
    ensures SortBy(s, leq) == s
  {
    if |s| != 0 {
      SortByOfSorted(s[..|s| - 1], leq);
      assert |s| > 1 ==> leq(s[|s| - 2], s[|s| - 1]);
    }
  }

  lemma {:induction false} SortByKeepsElements<T(!new)>(s: seq<T>, leq: (T, T) -> bool)
    ensures forall x :: x in SortBy(s, leq) <==> x in s
  {
    if |s| != 0 {
      SortByKeepsElements(s[..|s| - 1], leq);
      InsertElements(SortBy(s[..|s| - 1], leq), s[|s| - 1], leq);
      assert s == s[..|s| - 1] + [s[|s| - 1]];
    }
  }

  ghost predicate DistinctBy<T(!new), K(!new)>(s: seq<T>, id: T -> K) {
    forall i, j :: 0 <= i < j < |s| ==> id(s[i]) != id(s[j])
  }

  lemma {:induction false} InsertKeepsDistinct<T(!new), K(!new)>(s: seq<T>, x: T, leq: (T, T) -> bool, id: T -> K)
    requires DistinctBy(s + [x], id)
    ensures DistinctBy(Insert(s, x, leq), id)
  {
    if |s| != 0 && !leq(s[|s| - 1], x) {
      var rest, last := s[..|s| - 1], s[|s| - 1];
      forall i, j | 0 <= i < j < |rest + [x]| ensures id((rest + [x])[i]) != id((rest + [x])[j]) {
        assert (rest + [x])[i] == (s + [x])[i];
        assert (rest + [x])[j] == (s + [x])[if j < |rest| then j else |s|];
      }
      InsertKeepsDistinct(rest, x, leq, id);
      var r := Insert(rest, x, leq);
      InsertElements(rest, x, leq);
      forall i | 0 <= i < |r| ensures id(r[i]) != id(last) {
        if r[i] == x {
          assert (s + [x])[|s|] == x && (s + [x])[|s| - 1] == last;
        } else {
          assert r[i] in Insert(rest, x, leq);
          var j :| 0 <= j < |rest| && rest[j] == r[i];
          assert (s + [x])[j] == r[i] && (s + [x])[|s| - 1] == last;
        }
      }
    }
  }

  lemma {:induction false} SortByKeepsDistinct<T(!new), K(!new)>(s: seq<T>, leq: (T, T) -> bool, id: T -> K)
    requires DistinctBy(s, id)
    ensures DistinctBy(SortBy(s, leq), id)
  {
    if |s| != 0 {
      var rest, last := s[..|s| - 1], s[|s| - 1];
      SortByKeepsDistinct(rest, leq, id);
      SortByKeepsElements(rest, leq);
      var r := SortBy(rest, leq);
      forall i | 0 <= i < |r| ensures id(r[i]) != id(last) {
        assert r[i] in rest;
        var j :| 0 <= j < |rest| && rest[j] == r[i];
        assert s[j] == r[i] && s[|s| - 1] == last;
      }
      InsertKeepsDistinct(r, last, leq, id);
    }
  }

  /** `Vec::retain`. */
  function Retain<T>(s: seq<T>, keep: T -> bool): (r: seq<T>)
    ensures |r| <= |s|
  {
    if |s| == 0 then []
    else Retain(s[..|s| - 1], keep) + if keep(s[|s| - 1]) then [s[|s| - 1]] else []
  }

  /** What is retained is exactly what passes, and order and distinctness stay. */
  lemma {:induction false} RetainKeepsOrder<T(!new), K(!new)>(s: seq<T>, keep: T -> bool, leq: (T, T) -> bool, id: T -> K)
    ensures forall x :: x in Retain(s, keep) <==> x in s && keep(x)
    ensures SortedBy(s, leq) ==> SortedBy(Retain(s, keep), leq)
    ensures DistinctBy(s, id) ==> DistinctBy(Retain(s, keep), id)
  {
    RetainElements(s, keep);
    if |s| != 0 {
      var rest, last := s[..|s| - 1], s[|s| - 1];
      RetainKeepsOrder(rest, keep, leq, id);
      var r := Retain(rest, keep);
      forall i | 0 <= i < |r|
        ensures SortedBy(s, leq) ==> leq(r[i], last)
        ensures DistinctBy(s, id) ==> id(r[i]) != id(last)
      {
        assert r[i] in rest;
        var j :| 0 <= j < |rest| && rest[j] == r[i];
        assert s[j] == r[i] && s[|s| - 1] == last;
      }
    }
  }

  lemma {:induction false} RetainElements<T(!new)>(s: seq<T>, keep: T -> bool)
    ensures forall x :: x in Retain(s, keep) <==> x in s && keep(x)
  {
    if |s| != 0 {
      RetainElements(s[..|s| - 1], keep);
      assert s == s[..|s| - 1] + [s[|s| - 1]];
    }
  }

  /** Retaining everything but one element of a list without repetitions drops exactly that one. */
  lemma {:induction false} RetainDropsOne<T(!new), K(!new)>(s: seq<T>, keep: T -> bool, id: T -> K, at: nat)
    requires DistinctBy(s, id) && at < |s|
    requires forall x :: keep(x) <==> id(x) != id(s[at])
    ensures Retain(s, keep) == s[..at] + s[at + 1..]
  {
    var rest, last := s[..|s| - 1], s[|s| - 1];
    if at == |s| - 1 {
      RetainAll(rest, keep);
      assert s[..at] + s[at + 1..] == rest;
    } else {
      RetainDropsOne(rest, keep, id, at);
      assert id(last) != id(s[at]) && keep(last);
      assert s[..at] + s[at + 1..] == rest[..at] + rest[at + 1..] + [last];
    }
  }

  lemma {:induction false} RetainAll<T(!new)>(s: seq<T>, keep: T -> bool)
    requires forall x :: x in s ==> keep(x)
    ensures Retain(s, keep) == s
  {
    if |s| != 0 {
      RetainAll(s[..|s| - 1], keep);
    }
  }
}
