/** Sequence helpers shared by the model: `Array.prototype.filter` and
    `String.prototype.includes`, stated over Dafny sequences. */
module Seqs {

  /** `s.filter(p)`: the elements of `s` that satisfy `p`, in their order. */
  function Filter<T>(s: seq<T>, p: T -> bool): (r: seq<T>)
    ensures |r| <= |s|
    ensures forall x :: x in r ==> x in s && p(x)
  {
    if s == [] then []
    else (if p(s[0]) then [s[0]] else []) + Filter(s[1..], p)
  }

  /** `sub` can be obtained from `s` by deleting elements (order is kept). */
  predicate IsSubsequence<T(==)>(sub: seq<T>, s: seq<T>)
  {
    if sub == [] then true
    else if s == [] then false
    else if sub[0] == s[0] then IsSubsequence(sub[1..], s[1..])
    else IsSubsequence(sub, s[1..])
  }

  lemma {:induction false} FilterConcat<T>(a: seq<T>, b: seq<T>, p: T -> bool)
    ensures Filter(a + b, p) == Filter(a, p) + Filter(b, p)
  {
    if a == [] {
      assert a + b == b;
    } else {
      assert (a + b)[1..] == a[1..] + b;
      FilterConcat(a[1..], b, p);
    }
  }

  /** Every occurrence of an element that passes the filter is kept, none
      of an element that fails it: multiplicities are exact. */
  lemma {:induction false} FilterCount<T>(s: seq<T>, p: T -> bool, x: T)
    ensures multiset(Filter(s, p))[x] == if p(x) then multiset(s)[x] else 0
  {
    if s != [] {
      FilterCount(s[1..], p, x);
      assert s == [s[0]] + s[1..];
      assert multiset(s) == multiset{s[0]} + multiset(s[1..]);
    }
  }

  lemma FilterMembership<T>(s: seq<T>, p: T -> bool, x: T)
    ensures x in Filter(s, p) <==> x in s && p(x)
  {
    FilterCount(s, p, x);
    assert x in Filter(s, p) <==> multiset(Filter(s, p))[x] > 0;
  }

  lemma {:induction false} FilterIsSubsequence<T>(s: seq<T>, p: T -> bool)
    ensures IsSubsequence(Filter(s, p), s)
  {
    if s != [] {
      FilterIsSubsequence(s[1..], p);
      if p(s[0]) {
        assert Filter(s, p) == [s[0]] + Filter(s[1..], p);
        assert Filter(s, p)[1..] == Filter(s[1..], p);
      } else {
        assert Filter(s, p) == Filter(s[1..], p);
        SkipHead(Filter(s[1..], p), s);
      }
    }
  }

  /** A subsequence of the tail is a subsequence of the whole. */
  lemma {:induction false} SkipHead<T>(sub: seq<T>, s: seq<T>)
    requires s != [] && IsSubsequence(sub, s[1..])
    ensures IsSubsequence(sub, s)
  {
    if sub != [] && sub[0] == s[0] {
      // sub[1..] is a subsequence of sub, hence of s[1..].
      DropHead(sub, s[1..]);
    }
  }

  lemma {:induction false} DropHead<T>(sub: seq<T>, s: seq<T>)
    requires sub != [] && IsSubsequence(sub, s)
    ensures IsSubsequence(sub[1..], s)
  {
    if s != [] {
      if sub[0] == s[0] {
        if sub[1..] != [] {
          DropHead(sub[1..], s[1..]);
          SkipHead(sub[1..], s);
        }
      } else {
        DropHead(sub, s[1..]);
        SkipHead(sub[1..], s);
      }
    }
  }

  /** A filter whose predicate holds of every element returns the input. */
  lemma {:induction false} FilterAll<T>(s: seq<T>, p: T -> bool)
    requires forall x :: x in s ==> p(x)
    ensures Filter(s, p) == s
  {
    if s != [] {
      FilterAll(s[1..], p);
      assert [s[0]] + s[1..] == s;
    }
  }

  /** Two predicates that agree on the elements of `s` filter it alike. */
  lemma {:induction false} FilterExtensional<T>(s: seq<T>, p: T -> bool, q: T -> bool)
    requires forall x :: x in s ==> p(x) == q(x)
    ensures Filter(s, p) == Filter(s, q)
  {
    if s != [] {
      FilterExtensional(s[1..], p, q);
    }
  }

  /** `s.includes(t)`: `t` occurs in `s` as a contiguous block. */
  predicate Includes<T(==)>(s: seq<T>, t: seq<T>)
    ensures Includes(s, t) ==> |t| <= |s|
  {
    t <= s || (s != [] && Includes(s[1..], t))
  }

  /** `t` occurs in `s` starting at offset `i`. */
  predicate OccursAt<T(==)>(s: seq<T>, t: seq<T>, i: int)
  {
    0 <= i <= |s| - |t| && s[i..i + |t|] == t
  }

  /** An occurrence found by `Includes` has an offset. */
  lemma {:induction false} IncludesHasOffset<T>(s: seq<T>, t: seq<T>) returns (i: int)
    requires Includes(s, t)
    ensures OccursAt(s, t, i)
  {
    if t <= s {
      i := 0;
    } else {
      var j := IncludesHasOffset(s[1..], t);
      assert s[1..][j..j + |t|] == s[j + 1..j + 1 + |t|];
      i := j + 1;
    }
  }

  /** An occurrence at any offset is found by `Includes`. */
  lemma {:induction false} OffsetIncluded<T>(s: seq<T>, t: seq<T>, i: int)
    requires OccursAt(s, t, i)
    ensures Includes(s, t)
    decreases i
  {
    if i > 0 {
      assert s[1..][i - 1..i - 1 + |t|] == s[i..i + |t|];
      OffsetIncluded(s[1..], t, i - 1);
    }
  }

  /** The recursive `Includes` agrees with the usual definition by an
      offset at which `t` starts inside `s`. */
  lemma IncludesAtOffset<T>(s: seq<T>, t: seq<T>)
    ensures Includes(s, t) <==> exists i :: OccursAt(s, t, i)
  {
    if Includes(s, t) {
      var i := IncludesHasOffset(s, t);
    }
    forall i | OccursAt(s, t, i) ensures Includes(s, t) {
      OffsetIncluded(s, t, i);
    }
  }

  /** The empty string is included in every string. */
  lemma IncludesEmpty<T>(s: seq<T>)
    ensures Includes(s, [])
  {
  }

  /** A prefix is included. */
  lemma IncludesPrefix<T>(a: seq<T>, b: seq<T>)
    ensures Includes(a + b, a)
  {
    assert (a + b)[..|a|] == a;
  }
}
