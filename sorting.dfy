/** `Array.prototype.sort(compare)`: a stable sort by a comparator that returns a negative
    number, zero or a positive number. The model is insertion sort; what is proved about it
    (a permutation, ordered by the comparator, stable) is what the sort promises. */
module Sorting {
  import opened Seqs

  /** The sign of a comparator answer: -1, 0 or 1. */
  function Sign(n: int): int {
    if n < 0 then -1 else if n > 0 then 1 else 0
  }

  /** A consistent comparator: swapping the arguments flips the sign, and "not after" is
      transitive. These are the conditions under which the sort order is defined. */
  ghost predicate IsComparator<T(!new)>(cmp: (T, T) -> int) {
    && (forall a, b :: Sign(cmp(a, b)) == -Sign(cmp(b, a)))
    && (forall a, b, c :: cmp(a, b) <= 0 && cmp(b, c) <= 0 ==> cmp(a, c) <= 0)
  }

  /** No element is placed before one the comparator puts ahead of it. */
  ghost predicate SortedBy<T>(cmp: (T, T) -> int, s: seq<T>) {
    forall i, j :: 0 <= i < j < |s| ==> cmp(s[i], s[j]) <= 0
  }

  /** Places `x` in front of the first element it is not after. */
  function Insert<T>(cmp: (T, T) -> int, x: T, s: seq<T>): (r: seq<T>)
    ensures multiset(r) == multiset(s) + multiset{x}
  {
    if s == [] then [x]
    else if cmp(x, s[0]) <= 0 then [x] + s
    else
      assert s == [s[0]] + s[1..];
      [s[0]] + Insert(cmp, x, s[1..])
  }

  /** `s.sort(cmp)` on a copy of `s`: a permutation of `s`. */
  function Sort<T>(cmp: (T, T) -> int, s: seq<T>): (r: seq<T>)
    ensures multiset(r) == multiset(s)
  {
    if s == [] then []
    else
      assert s == [s[0]] + s[1..];
      Insert(cmp, s[0], Sort(cmp, s[1..]))
  }

  /** Every element of `s` may follow `b`. */
  ghost predicate NoneBefore<T>(cmp: (T, T) -> int, b: T, s: seq<T>) {
    forall i :: 0 <= i < |s| ==> cmp(b, s[i]) <= 0
  }

  /** A sorted list stays sorted with an element in front that may precede all of it. */
  lemma ConsSorted<T>(cmp: (T, T) -> int, b: T, s: seq<T>)
    requires NoneBefore(cmp, b, s) && SortedBy(cmp, s)
    ensures SortedBy(cmp, [b] + s)
  {
    var r := [b] + s;
    forall i, j | 0 <= i < j < |r| ensures cmp(r[i], r[j]) <= 0 {
      if i > 0 {
        assert r[i] == s[i - 1] && r[j] == s[j - 1];
      } else {
        assert r[j] == s[j - 1];
      }
    }
  }

  /** An element that may precede every element of `s` and `x` may precede all of
      `Insert(cmp, x, s)`. */
  lemma {:induction false} InsertNoneBefore<T>(cmp: (T, T) -> int, b: T, x: T, s: seq<T>)
    requires NoneBefore(cmp, b, s) && cmp(b, x) <= 0
    ensures NoneBefore(cmp, b, Insert(cmp, x, s))
  {
    if s != [] && cmp(x, s[0]) > 0 {
      InsertNoneBefore(cmp, b, x, s[1..]);
      var rest := Insert(cmp, x, s[1..]);
      forall i | 0 <= i < |[s[0]] + rest| ensures cmp(b, ([s[0]] + rest)[i]) <= 0 {
        if i > 0 {
          assert ([s[0]] + rest)[i] == rest[i - 1];
        }
      }
    }
  }

  /** Inserting into a sorted list under a consistent comparator keeps it sorted. */
  lemma {:induction false} InsertSorted<T(!new)>(cmp: (T, T) -> int, x: T, s: seq<T>)
    requires IsComparator(cmp) && SortedBy(cmp, s)
    ensures SortedBy(cmp, Insert(cmp, x, s))
  {
    if s == [] {
    } else if cmp(x, s[0]) <= 0 {
      forall i | 0 <= i < |s| ensures cmp(x, s[i]) <= 0 {
        if i > 0 {
          assert cmp(s[0], s[i]) <= 0;
        }
      }
      ConsSorted(cmp, x, s);
    } else {
      assert Sign(cmp(s[0], x)) == -1;
      InsertSorted(cmp, x, s[1..]);
      forall i | 0 <= i < |s[1..]| ensures cmp(s[0], s[1..][i]) <= 0 {
        assert s[1..][i] == s[i + 1];
      }
      InsertNoneBefore(cmp, s[0], x, s[1..]);
      ConsSorted(cmp, s[0], Insert(cmp, x, s[1..]));
    }
  }

  /** The result of sorting by a consistent comparator is ordered by it. */
  lemma {:induction false} SortSorted<T(!new)>(cmp: (T, T) -> int, s: seq<T>)
    requires IsComparator(cmp)
    ensures SortedBy(cmp, Sort(cmp, s))
  {
    if s != [] {
      SortSorted(cmp, s[1..]);
      InsertSorted(cmp, s[0], Sort(cmp, s[1..]));
    }
  }

  /** Two elements equivalent to a third are equivalent to each other. */
  lemma Equivalent<T(!new)>(cmp: (T, T) -> int, a: T, b: T, y: T)
    requires IsComparator(cmp)
    ensures cmp(a, y) == 0 && cmp(b, y) == 0 ==> cmp(a, b) == 0
  {
    assert Sign(cmp(y, a)) == -Sign(cmp(a, y));
    assert Sign(cmp(y, b)) == -Sign(cmp(b, y));
    assert Sign(cmp(b, a)) == -Sign(cmp(a, b));
  }

  /** Two pieces of which one is empty can be put in either order before a third. */
  lemma SwapEmpty<T>(a: seq<T>, b: seq<T>, c: seq<T>)
    requires a == [] || b == []
    ensures a + (b + c) == b + (a + c)
  {
    if a == [] {
      assert a + (b + c) == b + c;
    } else {
      assert b + (a + c) == a + c;
    }
  }

  /** Inserting does not move `x` past any element equivalent to it. */
  lemma {:induction false} InsertStable<T>(cmp: (T, T) -> int, x: T, s: seq<T>, p: T -> bool)
    requires forall a, b :: p(a) && p(b) ==> cmp(a, b) == 0
    ensures Filter(Insert(cmp, x, s), p) == Filter([x] + s, p)
  {
    if s != [] && cmp(x, s[0]) > 0 {
      var s0, tail := s[0], s[1..];
      var rest := Insert(cmp, x, tail);
      InsertStable(cmp, x, tail, p);
      assert Insert(cmp, x, s) == [s0] + rest;
      assert s == [s0] + tail;
      var h0: seq<T> := if p(s0) then [s0] else [];
      var hx: seq<T> := if p(x) then [x] else [];
      assert h0 == [] || hx == [];
      calc {
        Filter([s0] + rest, p);
        { FilterCons(p, s0, rest); }
        h0 + Filter(rest, p);
        { FilterCons(p, x, tail); }
        h0 + (hx + Filter(tail, p));
        { SwapEmpty(h0, hx, Filter(tail, p)); }
        hx + (h0 + Filter(tail, p));
        { FilterCons(p, s0, tail); }
        hx + Filter(s, p);
        { FilterCons(p, x, s); }
        Filter([x] + s, p);
      }
    }
  }

  /** Stability: among the elements equivalent to `y`, sorting keeps the input order. */
  lemma {:induction false} SortStable<T(!new)>(cmp: (T, T) -> int, s: seq<T>, y: T, p: T -> bool)
    requires IsComparator(cmp)
    requires forall e :: p(e) == (cmp(e, y) == 0)
    ensures Filter(Sort(cmp, s), p) == Filter(s, p)
  {
    forall a, b | p(a) && p(b) ensures cmp(a, b) == 0 {
      Equivalent(cmp, a, b, y);
    }
    if s != [] {
      SortStable(cmp, s[1..], y, p);
      InsertStable(cmp, s[0], Sort(cmp, s[1..]), p);
      FilterCons(p, s[0], Sort(cmp, s[1..]));
      assert s == [s[0]] + s[1..];
      FilterCons(p, s[0], s[1..]);
    }
  }

  /** A one-element list sorts to itself. */
  lemma SortSingle<T>(cmp: (T, T) -> int, x: T)
    ensures Sort(cmp, [x]) == [x]
  {
    assert [x][1..] == [];
  }

  /** A comparator that finds every pair equal leaves the order as it is. */
  lemma {:induction false} SortAllTies<T>(cmp: (T, T) -> int, s: seq<T>)
    requires forall a, b :: cmp(a, b) == 0
    ensures Sort(cmp, s) == s
  {
    if s != [] {
      SortAllTies(cmp, s[1..]);
      assert s == [s[0]] + s[1..];
    }
  }
}
