/** A stable sort by a comparison function that returns a sign, as
    `Array.prototype.sort(comparefn)` does it: ECMA-262 (2023 edition),
    section 23.1.3.30, requires the sort to be stable, and section 23.1.3.30.2
    asks that `comparefn` be a consistent comparator.

    The sort is modelled by insertion sort. The lemma `SortedTiesUnique`
    shows that a sorted sequence which keeps every group of ties in input
    order is unique, so any stable sort (whatever algorithm an engine uses)
    produces exactly `InsertionSort(s, c)`. */
module StableSort {
  import opened Seqs

  /** A consistent comparator: it compares every value equal to itself,
      its sign flips when the arguments are swapped, and "at most" is
      transitive. `-0` and `+0` are the same integer here, as both are ties
      for the sort. */
  ghost predicate Consistent<T(!new)>(c: (T, T) -> int)
  {
    && (forall a :: c(a, a) == 0)
    && (forall a, b :: c(a, b) < 0 <==> c(b, a) > 0)
    && (forall a, b, d :: c(a, b) <= 0 && c(b, d) <= 0 ==> c(a, d) <= 0)
  }

  /** Every element compares at most equal to every later one. */
  ghost predicate Sorted<T>(s: seq<T>, c: (T, T) -> int)
  {
    forall i, j :: 0 <= i < j < |s| ==> c(s[i], s[j]) <= 0
  }

  /** The test "ties with `k`". */
  function TiesWith<T>(c: (T, T) -> int, k: T): T -> bool
  {
    x => c(x, k) == 0
  }

  /** The elements of `s` that tie with `k`, in their order in `s`. */
  function Ties<T>(s: seq<T>, c: (T, T) -> int, k: T): seq<T>
  {
    Filter(s, TiesWith(c, k))
  }

  /** Inserts `x` into `t` after every element that compares at most equal
      to it, scanning from the back, as one round of insertion sort does. */
  function Insert<T>(t: seq<T>, x: T, c: (T, T) -> int): (r: seq<T>)
    ensures |r| == |t| + 1
  {
    if t == [] || c(t[|t| - 1], x) <= 0 then t + [x]
    else Insert(t[..|t| - 1], x, c) + [t[|t| - 1]]
  }

  function InsertionSort<T>(s: seq<T>, c: (T, T) -> int): (r: seq<T>)
    ensures |r| == |s|
  {
    if s == [] then []
    else Insert(InsertionSort(s[..|s| - 1], c), s[|s| - 1], c)
  }

  lemma {:induction false} InsertCount<T>(t: seq<T>, x: T, c: (T, T) -> int)
    ensures multiset(Insert(t, x, c)) == multiset(t) + multiset{x}
  {
    if !(t == [] || c(t[|t| - 1], x) <= 0) {
      InsertCount(t[..|t| - 1], x, c);
      assert t == t[..|t| - 1] + [t[|t| - 1]];
    }
  }

  /** Sorting neither drops nor duplicates an element. */
  lemma {:induction false} SortPermutes<T>(s: seq<T>, c: (T, T) -> int)
    ensures multiset(InsertionSort(s, c)) == multiset(s)
  {
    if s != [] {
      SortPermutes(s[..|s| - 1], c);
      InsertCount(InsertionSort(s[..|s| - 1], c), s[|s| - 1], c);
      assert s == s[..|s| - 1] + [s[|s| - 1]];
    }
  }

  /** Appending an element that no element of `t` sorts after. */
  lemma AppendSorted<T>(t: seq<T>, x: T, c: (T, T) -> int)
    requires Sorted(t, c)
    requires forall e :: e in t ==> c(e, x) <= 0
    ensures Sorted(t + [x], c)
  {
    var r := t + [x];
    forall i, j | 0 <= i < j < |r| ensures c(r[i], r[j]) <= 0 {
      if j == |t| {
        assert r[i] in t;
      } else {
        assert r[i] == t[i] && r[j] == t[j];
      }
    }
  }

  lemma {:induction false} InsertSorted<T(!new)>(t: seq<T>, x: T, c: (T, T) -> int)
    requires Consistent(c) && Sorted(t, c)
    ensures Sorted(Insert(t, x, c), c)
  {
    if t == [] || c(t[|t| - 1], x) <= 0 {
      forall e | e in t ensures c(e, x) <= 0 {
        var i :| 0 <= i < |t| && t[i] == e;
        if i < |t| - 1 { assert c(t[i], t[|t| - 1]) <= 0; }
      }
      AppendSorted(t, x, c);
    } else {
      var front, last := t[..|t| - 1], t[|t| - 1];
      assert Sorted(front, c) by {
        forall i, j | 0 <= i < j < |front| ensures c(front[i], front[j]) <= 0 {
          assert front[i] == t[i] && front[j] == t[j];
        }
      }
      InsertSorted(front, x, c);
      var ins := Insert(front, x, c);
      InsertCount(front, x, c);
      forall e | e in ins ensures c(e, last) <= 0 {
        assert e in multiset(ins);
        if e != x {
          assert e in front;
          var i :| 0 <= i < |front| && front[i] == e;
          assert c(t[i], t[|t| - 1]) <= 0;
        }
      }
      AppendSorted(ins, last, c);
    }
  }

  /** Every element of the result compares at most equal to every later
      one (`Sorted` is stated over all pairs). */
  lemma {:induction false} SortSorts<T(!new)>(s: seq<T>, c: (T, T) -> int)
    requires Consistent(c)
    ensures Sorted(InsertionSort(s, c), c)
  {
    if s != [] {
      SortSorts(s[..|s| - 1], c);
      InsertSorted(InsertionSort(s[..|s| - 1], c), s[|s| - 1], c);
    }
  }

  /** `x` sorts strictly before `last`, so the two do not both tie with `k`. */
  lemma NotBothTie<T(!new)>(x: T, last: T, c: (T, T) -> int, k: T)
    requires Consistent(c) && c(last, x) > 0
    ensures !(TiesWith(c, k)(x) && TiesWith(c, k)(last))
  {
  }

  /** Swapping two adjacent elements that do not both pass a filter does
      not change its result. */
  lemma FilterSwap<T>(front: seq<T>, a: T, b: T, p: T -> bool)
    requires !(p(a) && p(b))
    ensures Filter(front + [a] + [b], p) == Filter(front + [b] + [a], p)
  {
    FilterConcat(front + [a], [b], p);
    FilterConcat(front, [a], p);
    FilterConcat(front + [b], [a], p);
    FilterConcat(front, [b], p);
  }

  lemma {:induction false} InsertTies<T(!new)>(t: seq<T>, x: T, c: (T, T) -> int, k: T)
    requires Consistent(c)
    ensures Ties(Insert(t, x, c), c, k) == Ties(t + [x], c, k)
  {
    var p := TiesWith(c, k);
    if !(t == [] || c(t[|t| - 1], x) <= 0) {
      var front, last := t[..|t| - 1], t[|t| - 1];
      InsertTies(front, x, c, k);
      calc {
        Ties(Insert(t, x, c), c, k);
        Filter(Insert(front, x, c) + [last], p);
        { FilterConcat(Insert(front, x, c), [last], p); }
        Filter(Insert(front, x, c), p) + Filter([last], p);
        Filter(front + [x], p) + Filter([last], p);
        { FilterConcat(front + [x], [last], p); }
        Filter(front + [x] + [last], p);
        { NotBothTie(x, last, c, k); FilterSwap(front, x, last, p); }
        Filter(front + [last] + [x], p);
        { assert front + [last] == t; }
        Ties(t + [x], c, k);
      }
    }
  }

  /** Elements that tie keep their relative order: stability. */
  lemma {:induction false} SortStable<T(!new)>(s: seq<T>, c: (T, T) -> int, k: T)
    requires Consistent(c)
    ensures Ties(InsertionSort(s, c), c, k) == Ties(s, c, k)
  {
    if s != [] {
      var front, last := s[..|s| - 1], s[|s| - 1];
      var p := TiesWith(c, k);
      calc {
        Ties(InsertionSort(s, c), c, k);
        Ties(Insert(InsertionSort(front, c), last, c), c, k);
        { InsertTies(InsertionSort(front, c), last, c, k); }
        Filter(InsertionSort(front, c) + [last], p);
        { FilterConcat(InsertionSort(front, c), [last], p); }
        Filter(InsertionSort(front, c), p) + Filter([last], p);
        { SortStable(front, c, k); }
        Filter(front, p) + Filter([last], p);
        { FilterConcat(front, [last], p); assert s == front + [last]; }
        Ties(s, c, k);
      }
    }
  }

  lemma TiesCons<T>(s: seq<T>, c: (T, T) -> int, k: T)
    requires s != []
    ensures Ties(s, c, k) == (if c(s[0], k) == 0 then [s[0]] else []) + Ties(s[1..], c, k)
  {
  }

  /** The head of a sorted sequence sorts no later than any element of it. */
  lemma HeadFirst<T>(r: seq<T>, c: (T, T) -> int, e: T)
    requires Sorted(r, c) && r != [] && e in r && c(r[0], r[0]) == 0
    ensures c(r[0], e) <= 0
  {
    var j :| 0 <= j < |r| && r[j] == e;
    if j > 0 { assert c(r[0], r[j]) <= 0; }
  }

  /** Two non-empty sorted sequences with the same groups of ties start
      with the same element. */
  lemma SameHead<T(!new)>(r1: seq<T>, r2: seq<T>, c: (T, T) -> int)
    requires Consistent(c) && Sorted(r1, c) && Sorted(r2, c)
    requires r1 != [] && r2 != []
    requires Ties(r1, c, r1[0]) == Ties(r2, c, r1[0])
    requires Ties(r1, c, r2[0]) == Ties(r2, c, r2[0])
    ensures r1[0] == r2[0]
  {
    var x, y := r1[0], r2[0];
    TiesCons(r1, c, x);
    TiesCons(r2, c, x);
    TiesCons(r1, c, y);
    TiesCons(r2, c, y);
    assert x in Ties(r2, c, x);
    assert y in Ties(r1, c, y);
    HeadFirst(r2, c, x);
    HeadFirst(r1, c, y);
    assert Ties(r1, c, x)[0] == x;
    assert Ties(r2, c, x)[0] == y;
  }

  /** Removing one equal head from both keeps the groups of ties equal. */
  lemma SameTailTies<T>(r1: seq<T>, r2: seq<T>, c: (T, T) -> int, k: T)
    requires r1 != [] && r2 != [] && r1[0] == r2[0]
    requires Ties(r1, c, k) == Ties(r2, c, k)
    ensures Ties(r1[1..], c, k) == Ties(r2[1..], c, k)
  {
    TiesCons(r1, c, k);
    TiesCons(r2, c, k);
    var pre := if c(r1[0], k) == 0 then [r1[0]] else [];
    assert Ties(r1[1..], c, k) == (pre + Ties(r1[1..], c, k))[|pre|..];
    assert Ties(r2[1..], c, k) == (pre + Ties(r2[1..], c, k))[|pre|..];
  }

  lemma SortedTail<T>(r: seq<T>, c: (T, T) -> int)
    requires Sorted(r, c) && r != []
    ensures Sorted(r[1..], c)
  {
    forall i, j | 0 <= i < j < |r| - 1 ensures c(r[1..][i], r[1..][j]) <= 0 {
      assert c(r[i + 1], r[j + 1]) <= 0;
    }
  }

  /** Two sorted sequences with the same groups of ties are equal. */
  lemma {:induction false} SortedTiesUnique<T(!new)>(r1: seq<T>, r2: seq<T>, c: (T, T) -> int)
    requires Consistent(c) && Sorted(r1, c) && Sorted(r2, c)
    requires forall k :: Ties(r1, c, k) == Ties(r2, c, k)
    ensures r1 == r2
  {
    if r1 != [] && r2 != [] {
      SameHead(r1, r2, c);
      forall k ensures Ties(r1[1..], c, k) == Ties(r2[1..], c, k) {
        SameTailTies(r1, r2, c, k);
      }
      SortedTail(r1, c);
      SortedTail(r2, c);
      SortedTiesUnique(r1[1..], r2[1..], c);
      assert r1 == [r1[0]] + r1[1..];
      assert r2 == [r2[0]] + r2[1..];
    } else if r1 != [] {
      TiesCons(r1, c, r1[0]);
    } else if r2 != [] {
      TiesCons(r2, c, r2[0]);
    }
  }

  /** `InsertionSort` is THE stable sort: any sorted rearrangement of `s`
      that keeps each group of ties in input order is equal to it. */
  lemma StableSortIsInsertionSort<T(!new)>(s: seq<T>, r: seq<T>, c: (T, T) -> int)
    requires Consistent(c) && Sorted(r, c)
    requires forall k :: Ties(r, c, k) == Ties(s, c, k)
    ensures r == InsertionSort(s, c)
  {
    SortSorts(s, c);
    forall k ensures Ties(r, c, k) == Ties(InsertionSort(s, c), c, k) {
      SortStable(s, c, k);
    }
    SortedTiesUnique(r, InsertionSort(s, c), c);
  }

  /** Where the inner loop stops: `x` goes right after `t[..j]` when
      `t[j - 1]` does not sort after it and every element of `t[j..]` does. */
  lemma {:induction false} InsertAt<T>(t: seq<T>, j: int, x: T, c: (T, T) -> int)
    requires 0 <= j <= |t|
    requires j == 0 || c(t[j - 1], x) <= 0
    requires forall k :: j <= k < |t| ==> c(t[k], x) > 0
    ensures Insert(t, x, c) == t[..j] + [x] + t[j..]
    decreases |t|
  {
    if |t| == j {
      assert t[..j] == t && t[j..] == [];
    } else {
      var init := t[..|t| - 1];
      assert c(t[|t| - 1], x) > 0;
      InsertAt(init, j, x, c);
      assert init[..j] == t[..j];
      assert t[j..] == init[j..] + [t[|t| - 1]];
    }
  }

  lemma SortSnoc<T>(s: seq<T>, i: int, c: (T, T) -> int)
    requires 0 <= i < |s|
    ensures InsertionSort(s[..i + 1], c) == Insert(InsertionSort(s[..i], c), s[i], c)
  {
    assert s[..i + 1][..i] == s[..i];
  }

  /** Writing `x` into the gap at `j` that the inner loop left. */
  lemma FillGap<T>(s: seq<T>, done: seq<T>, j: int, x: T)
    requires 0 <= j <= |done| < |s|
    requires forall k :: 0 <= k < j ==> s[k] == done[k]
    requires forall k :: j < k <= |done| ==> s[k] == done[k - 1]
    ensures s[j := x][..|done| + 1] == done[..j] + [x] + done[j..]
  {
    var r := s[j := x][..|done| + 1];
    forall k | 0 <= k <= |done| ensures r[k] == (done[..j] + [x] + done[j..])[k] {
      if k > j { assert s[k] == done[k - 1]; }
    }
  }

  /** One round of insertion sort: moves `a[i]` back into the sorted
      prefix `a[..i]`, past every element that sorts strictly after it. */
  method InsertInPlace<T>(a: array<T>, i: int, c: (T, T) -> int)
    requires 0 <= i < a.Length
    modifies a
    ensures a[..i + 1] == Insert(old(a[..i]), old(a[i]), c)
    ensures a[i + 1..] == old(a[i + 1..])
  {
    var x := a[i];
    ghost var done := a[..i];
    var j := i;
    while j > 0 && c(a[j - 1], x) > 0
      invariant 0 <= j <= i
      invariant forall k :: 0 <= k < j ==> a[k] == done[k]
      invariant forall k :: j < k <= i ==> a[k] == done[k - 1]
      invariant forall k :: i < k < a.Length ==> a[k] == old(a[k])
      invariant forall k :: j <= k < i ==> c(done[k], x) > 0
    {
      a[j] := a[j - 1];
      j := j - 1;
    }
    InsertAt(done, j, x, c);
    FillGap(a[..], done, j, x);
    a[j] := x;
  }

  /** Sorts `a` in place by `c`, keeping ties in order. */
  method SortInPlace<T>(a: array<T>, c: (T, T) -> int)
    modifies a
    ensures a[..] == InsertionSort(old(a[..]), c)
  {
    ghost var input := a[..];
    var i := 0;
    while i < a.Length
      invariant 0 <= i <= a.Length
      invariant a[..i] == InsertionSort(input[..i], c)
      invariant a[i..] == input[i..]
    {
      assert a[i] == input[i];
      InsertInPlace(a, i, c);
      SortSnoc(input, i, c);
      assert a[i + 1..] == input[i + 1..];
      i := i + 1;
    }
    assert a[..] == a[..a.Length];
    assert input[..a.Length] == input;
  }
}
