/**
 * The order Collections.sort puts a row's cells in: String.compareTo, the
 * lexicographic order on characters, or its reverse (Collections.reverseOrder()).
 */
module Lexicographic {

  /** a.compareTo(b) <= 0: `a` is a prefix of `b`, or is smaller at the first place they differ. */
  predicate Le(a: string, b: string)
  {
    if a == [] then true
    else if b == [] then false
    else if a[0] != b[0] then a[0] < b[0]
    else Le(a[1..], b[1..])
  }

  lemma {:induction false} LeReflexive(a: string)
    ensures Le(a, a)
  {
    if a != [] {
      LeReflexive(a[1..]);
    }
  }

  lemma {:induction false} LeTotal(a: string, b: string)
    ensures Le(a, b) || Le(b, a)
  {
    if a != [] && b != [] && a[0] == b[0] {
      LeTotal(a[1..], b[1..]);
    }
  }

  lemma {:induction false} LeAntisymmetric(a: string, b: string)
    requires Le(a, b) && Le(b, a)
    ensures a == b
  {
    if a != [] && b != [] {
      LeAntisymmetric(a[1..], b[1..]);
      assert a == [a[0]] + a[1..] && b == [b[0]] + b[1..];
    }
  }

  lemma {:induction false} LeTransitive(a: string, b: string, c: string)
    requires Le(a, b) && Le(b, c)
    ensures Le(a, c)
  {
    if a != [] && b != [] && c != [] && a[0] == b[0] && b[0] == c[0] {
      LeTransitive(a[1..], b[1..], c[1..]);
    }
  }

  /** The two orders sortRow accepts: "asc" (natural order) and "desc" (reverse order). */
  datatype SortOrder = Ascending | Descending

  predicate InOrder(a: string, b: string, order: SortOrder)
  {
    if order.Ascending? then Le(a, b) else Le(b, a)
  }

  lemma {:induction false} InOrderTotal(a: string, b: string, order: SortOrder)
    ensures InOrder(a, b, order) || InOrder(b, a, order)
  {
    LeTotal(a, b);
  }

  lemma {:induction false} InOrderTransitive(a: string, b: string, c: string, order: SortOrder)
    requires InOrder(a, b, order) && InOrder(b, c, order)
    ensures InOrder(a, c, order)
  {
    if order.Ascending? { LeTransitive(a, b, c); } else { LeTransitive(c, b, a); }
  }

  lemma {:induction false} InOrderAntisymmetric(a: string, b: string, order: SortOrder)
    requires InOrder(a, b, order) && InOrder(b, a, order)
    ensures a == b
  {
    LeAntisymmetric(a, b);
  }

  /** Every earlier element comes before every later one in `order`. */
  predicate Sorted(s: seq<string>, order: SortOrder)
  {
    forall i, j :: 0 <= i < j < |s| ==> InOrder(s[i], s[j], order)
  }

  /** An element in order before every element of a sorted sequence extends it at the front. */
  lemma {:induction false} SortedCons(y: string, t: seq<string>, order: SortOrder)
    requires Sorted(t, order)
    requires forall j :: 0 <= j < |t| ==> InOrder(y, t[j], order)
    ensures Sorted([y] + t, order)
  {
    var r := [y] + t;
    forall i, j | 0 <= i < j < |r| ensures InOrder(r[i], r[j], order) {
      assert r[j] == t[j - 1];
      if i > 0 {
        assert r[i] == t[i - 1];
      }
    }
  }

  /** What is in order before the head of a sorted sequence is in order before all of it. */
  lemma {:induction false} BeforeHead(x: string, s: seq<string>, order: SortOrder)
    requires Sorted(s, order) && s != [] && InOrder(x, s[0], order)
    ensures forall j :: 0 <= j < |s| ==> InOrder(x, s[j], order)
  {
    forall j | 0 < j < |s| ensures InOrder(x, s[j], order) {
      InOrderTransitive(x, s[0], s[j], order);
    }
  }

  /**
   * The head of a sorted sequence is in order before every element of a
   * permutation of its tail plus an element that follows the head.
   */
  lemma {:induction false} HeadBeforeTail(s: seq<string>, x: string, tail: seq<string>, order: SortOrder)
    requires Sorted(s, order) && s != [] && InOrder(s[0], x, order)
    requires multiset(tail) == multiset(s[1..]) + multiset{x}
    ensures forall j :: 0 <= j < |tail| ==> InOrder(s[0], tail[j], order)
  {
    forall j | 0 <= j < |tail| ensures InOrder(s[0], tail[j], order) {
      assert tail[j] in multiset(tail);
      if tail[j] != x {
        assert tail[j] in multiset(s[1..]);
        var k :| 0 <= k < |s[1..]| && s[1..][k] == tail[j];
        assert s[k + 1] == tail[j];
      }
    }
  }

  /** Insert `x` into a sorted sequence. */
  function Insert(x: string, s: seq<string>, order: SortOrder): (r: seq<string>)
    requires Sorted(s, order)
    ensures Sorted(r, order)
    ensures multiset(r) == multiset(s) + multiset{x}
  {
    if s == [] then [x]
    else if InOrder(x, s[0], order) then
      BeforeHead(x, s, order);
      SortedCons(x, s, order);
      [x] + s
    else
      InOrderTotal(x, s[0], order);
      var tail := Insert(x, s[1..], order);
      HeadBeforeTail(s, x, tail, order);
      SortedCons(s[0], tail, order);
      assert s == [s[0]] + s[1..];
      [s[0]] + tail
  }

  /** The model of Collections.sort on a row: an insertion sort in `order`. */
  function Sort(s: seq<string>, order: SortOrder): (r: seq<string>)
    ensures Sorted(r, order)
    ensures multiset(r) == multiset(s)
  {
    if s == [] then []
    else
      assert s == [s[0]] + s[1..];
      Insert(s[0], Sort(s[1..], order), order)
  }

  /** The first element of a sorted sequence comes before every element of it. */
  lemma {:induction false} HeadFirst(s: seq<string>, x: string, order: SortOrder)
    requires Sorted(s, order) && x in multiset(s)
    ensures InOrder(s[0], x, order)
  {
    var k :| 0 <= k < |s| && s[k] == x;
    if k == 0 { LeReflexive(x); }
  }

  /** Two sorted permutations of each other start with the same element. */
  lemma {:induction false} SameHead(a: seq<string>, b: seq<string>, order: SortOrder)
    requires Sorted(a, order) && Sorted(b, order)
    requires multiset(a) == multiset(b) && a != []
    ensures b != [] && a[0] == b[0]
  {
    assert a[0] in multiset(a);
    assert b[0] in multiset(b);
    HeadFirst(a, b[0], order);
    HeadFirst(b, a[0], order);
    InOrderAntisymmetric(a[0], b[0], order);
  }

  lemma {:induction false} TailMultiset(s: seq<string>)
    requires s != []
    ensures multiset(s[1..]) == multiset(s) - multiset{s[0]}
  {
    assert s == [s[0]] + s[1..];
  }

  /**
   * A sorted permutation is unique: whatever algorithm Collections.sort uses
   * (stable or not), it produces the same row as Sort.
   */
  lemma {:induction false} SortedUnique(a: seq<string>, b: seq<string>, order: SortOrder)
    requires Sorted(a, order) && Sorted(b, order)
    requires multiset(a) == multiset(b)
    ensures a == b
  {
    if a == [] {
      assert |multiset(b)| == 0;
    } else {
      SameHead(a, b, order);
      TailMultiset(a);
      TailMultiset(b);
      assert Sorted(a[1..], order) && Sorted(b[1..], order);
      SortedUnique(a[1..], b[1..], order);
      assert a == [a[0]] + a[1..] && b == [b[0]] + b[1..];
    }
  }

  /** Sorting is the only sorted permutation: Sort agrees with any correct sort. */
  lemma {:induction false} SortIsTheSortedPermutation(s: seq<string>, r: seq<string>, order: SortOrder)
    requires Sorted(r, order) && multiset(r) == multiset(s)
    ensures Sort(s, order) == r
  {
    SortedUnique(Sort(s, order), r, order);
  }

  /** Read backwards, an ascending sequence is descending. */
  lemma {:induction false} ReverseSorted(asc: seq<string>)
    requires Sorted(asc, Ascending)
    ensures Sorted(Reverse(asc), Descending)
  {
    var rev := Reverse(asc);
    forall i, j | 0 <= i < j < |rev| ensures InOrder(rev[i], rev[j], Descending) {
      assert rev[i] == asc[|asc| - 1 - i] && rev[j] == asc[|asc| - 1 - j];
    }
  }

  /** A descending sort is the ascending sort read backwards. */
  lemma {:induction false} DescendingIsReversedAscending(s: seq<string>)
    ensures Sort(s, Descending) == Reverse(Sort(s, Ascending))
  {
    var asc := Sort(s, Ascending);
    ReverseMultiset(asc);
    ReverseSorted(asc);
    SortIsTheSortedPermutation(s, Reverse(asc), Descending);
  }

  function Reverse(s: seq<string>): (r: seq<string>)
    ensures |r| == |s| && forall i :: 0 <= i < |s| ==> r[i] == s[|s| - 1 - i]
  {
    if s == [] then [] else Reverse(s[1..]) + [s[0]]
  }

  lemma {:induction false} ReverseMultiset(s: seq<string>)
    ensures multiset(Reverse(s)) == multiset(s)
  {
    if s != [] {
      ReverseMultiset(s[1..]);
      assert s == [s[0]] + s[1..];
    }
  }
}
