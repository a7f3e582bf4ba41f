// Insertion sort by a comparator. It stands for Array.prototype.sort and for ORDER BY: under
// a strict order no other arrangement of the same elements is sorted (OrderedIsUnique).

module Sorting {
  function InsertBy<T>(before: (T, T) -> bool, x: T, s: seq<T>): seq<T> {
    if s == [] || before(x, s[0]) then [x] + s else [s[0]] + InsertBy(before, x, s[1..])
  }

  function SortBy<T>(before: (T, T) -> bool, s: seq<T>): seq<T> {
    if s == [] then [] else InsertBy(before, s[0], SortBy(before, s[1..]))
  }

  ghost predicate OrderedBy<T>(before: (T, T) -> bool, s: seq<T>) {
    forall i, j :: 0 <= i < j < |s| ==> before(s[i], s[j])
  }

  ghost predicate Transitive<T(!new)>(before: (T, T) -> bool) {
    forall a, b, c :: before(a, b) && before(b, c) ==> before(a, c)
  }

  ghost predicate Strict<T(!new)>(before: (T, T) -> bool) {
    forall a, b :: before(a, b) ==> !before(b, a)
  }

  lemma {:induction false} InsertMembers<T>(before: (T, T) -> bool, x: T, s: seq<T>, y: T)
    ensures y in InsertBy(before, x, s) <==> y == x || y in s
  {
    if s != [] && !before(x, s[0]) {
      InsertMembers(before, x, s[1..], y);
      assert s == [s[0]] + s[1..];
    }
  }

  lemma HeadFirst<T>(before: (T, T) -> bool, x: T, s: seq<T>)
    requires OrderedBy(before, s) && forall y :: y in s ==> before(x, y)
    ensures OrderedBy(before, [x] + s)
  {}

  lemma {:induction false} InsertOrdered<T(!new)>(before: (T, T) -> bool, x: T, s: seq<T>)
    requires Transitive(before) && OrderedBy(before, s)
    requires forall y :: y in s ==> before(x, y) || before(y, x)
    ensures OrderedBy(before, InsertBy(before, x, s))
  {
    if s != [] {
      assert s == [s[0]] + s[1..];
      if before(x, s[0]) {
        HeadFirst(before, x, s);
      } else {
        InsertOrdered(before, x, s[1..]);
        forall y | y in InsertBy(before, x, s[1..])
          ensures before(s[0], y)
        {
          InsertMembers(before, x, s[1..], y);
        }
        HeadFirst(before, s[0], InsertBy(before, x, s[1..]));
      }
    }
  }

  lemma {:induction false} SortMembers<T>(before: (T, T) -> bool, s: seq<T>, y: T)
    ensures y in SortBy(before, s) <==> y in s
  {
    if s != [] {
      SortMembers(before, s[1..], y);
      InsertMembers(before, s[0], SortBy(before, s[1..]), y);
      assert s == [s[0]] + s[1..];
    }
  }

  /** Any two elements of the list are ordered one way or the other. */
  ghost predicate Comparable<T>(before: (T, T) -> bool, s: seq<T>) {
    forall i, j :: 0 <= i < j < |s| ==> before(s[i], s[j]) || before(s[j], s[i])
  }

  lemma {:induction false} SortOrdered<T(!new)>(before: (T, T) -> bool, s: seq<T>)
    requires Transitive(before) && Comparable(before, s)
    ensures OrderedBy(before, SortBy(before, s))
  {
    if s != [] {
      SortOrdered(before, s[1..]);
      forall y | y in SortBy(before, s[1..])
        ensures before(s[0], y) || before(y, s[0])
      {
        SortMembers(before, s[1..], y);
      }
      InsertOrdered(before, s[0], SortBy(before, s[1..]));
    }
  }

  lemma NotHead<T(!new)>(before: (T, T) -> bool, s: seq<T>, y: T)
    requires Strict(before) && OrderedBy(before, s) && s != []
    ensures y in s[1..] <==> y in s && y != s[0]
  {
    var tail := s[1..];
    assert s == [s[0]] + tail;
    forall j | 0 <= j < |tail| ensures tail[j] != s[0] {
      assert before(s[0], s[j + 1]);
    }
  }

  /** Two ordered lists of the same elements are the same list. */
  lemma {:induction false} OrderedIsUnique<T(!new)>(before: (T, T) -> bool, a: seq<T>, b: seq<T>)
    requires Strict(before) && OrderedBy(before, a) && OrderedBy(before, b)
    requires forall y :: y in a <==> y in b
    ensures a == b
  {
    assert a != [] ==> a[0] in b;
    assert b != [] ==> b[0] in a;
    if a != [] && b != [] {
      SameHead(before, a, b);
      forall y ensures y in a[1..] <==> y in b[1..] {
        NotHead(before, a, y);
        NotHead(before, b, y);
      }
      OrderedIsUnique(before, a[1..], b[1..]);
      assert a == [a[0]] + a[1..] && b == [b[0]] + b[1..];
    }
  }

  lemma SameHead<T(!new)>(before: (T, T) -> bool, a: seq<T>, b: seq<T>)
    requires Strict(before) && OrderedBy(before, a) && OrderedBy(before, b)
    requires a != [] && b != [] && a[0] in b && b[0] in a
    ensures a[0] == b[0]
  {
    var i :| 0 <= i < |a| && a[i] == b[0];
    var j :| 0 <= j < |b| && b[j] == a[0];
  }

  /** Comparators that agree on the elements sort alike. */
  lemma {:induction false} InsertAgrees<T>(p: (T, T) -> bool, q: (T, T) -> bool, x: T, s: seq<T>)
    requires forall y :: y in s ==> p(x, y) == q(x, y)
    ensures InsertBy(p, x, s) == InsertBy(q, x, s)
  {
    if s != [] {
      assert s[0] in s;
      if !p(x, s[0]) {
        InsertAgrees(p, q, x, s[1..]);
      }
    }
  }

  lemma {:induction false} SortAgrees<T>(p: (T, T) -> bool, q: (T, T) -> bool, s: seq<T>)
    requires forall x, y :: x in s && y in s ==> p(x, y) == q(x, y)
    ensures SortBy(p, s) == SortBy(q, s)
  {
    if s != [] {
      SortAgrees(p, q, s[1..]);
      assert s[0] in s;
      forall y | y in SortBy(q, s[1..]) ensures p(s[0], y) == q(s[0], y) {
        SortMembers(q, s[1..], y);
      }
      InsertAgrees(p, q, s[0], SortBy(q, s[1..]));
    }
  }
}
