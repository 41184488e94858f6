/**
 The list operations the admin table is built from: JavaScript's
 `Array.prototype.filter`, `map` and `slice`, stated over Dafny sequences,
 together with the facts the table relies on (membership, multiplicity,
 order, absence of duplicates).
 */
module Seqs {

  /** `a` is obtained from `b` by dropping elements: everything in `a` occurs in `b`, in the same order. */
  predicate IsSubseq<T(==)>(a: seq<T>, b: seq<T>)
    decreases |b|
  {
    a == [] || (|b| > 0 && ((a[0] == b[0] && IsSubseq(a[1..], b[1..])) || IsSubseq(a, b[1..])))
  }

  /** No value occurs twice. */
  predicate NoDup<T(==)>(s: seq<T>) {
    forall i, j :: 0 <= i < j < |s| ==> s[i] != s[j]
  }

  /** The set of values occurring in `s`. */
  function Elems<T>(s: seq<T>): set<T> {
    set x | x in s
  }

  /** `Array.prototype.filter`: the elements satisfying `p`, in their original order. */
  function Filter<T(==,!new)>(p: T -> bool, s: seq<T>): (r: seq<T>)
    ensures |r| <= |s|
    ensures forall x :: x in r <==> x in s && p(x)
    ensures IsSubseq(r, s)
  {
    if s == [] then []
    else if p(s[0]) then [s[0]] + Filter(p, s[1..])
    else Filter(p, s[1..])
  }

  /** `Array.prototype.map`. */
  function Map<T, U>(f: T -> U, s: seq<T>): (r: seq<U>)
    ensures |r| == |s|
    ensures forall i :: 0 <= i < |s| ==> r[i] == f(s[i])
  {
    seq(|s|, i requires 0 <= i < |s| => f(s[i]))
  }

  function Min(a: int, b: int): int {
    if a < b then a else b
  }

  /** How `slice` normalises an index into a list of length `n`: a negative index counts from the end. */
  function ClampIndex(i: int, n: nat): (k: nat)
    ensures k <= n
    ensures 0 <= i ==> k == Min(i, n)
    ensures i < 0 && -i <= n ==> k == n + i
    ensures i < 0 && -i > n ==> k == 0
  {
    if i < 0 then (if n + i < 0 then 0 else n + i)
    else if i < n then i else n
  }

  /** `Array.prototype.slice(start, end)`, including its treatment of negative and out-of-range indices. */
  function Slice<T>(s: seq<T>, start: int, end: int): (r: seq<T>)
    ensures start <= end ==> |r| <= end - start
    ensures 0 <= start <= end ==> r == s[Min(start, |s|)..Min(end, |s|)]
    ensures ClampIndex(start, |s|) >= ClampIndex(end, |s|) ==> r == []
    ensures ClampIndex(start, |s|) < ClampIndex(end, |s|) ==> r == s[ClampIndex(start, |s|)..ClampIndex(end, |s|)]
  {
    var lo := ClampIndex(start, |s|);
    var hi := ClampIndex(end, |s|);
    if lo < hi then s[lo..hi] else []
  }

  /** Filtering distributes over concatenation: the kept elements of `a` all come before those of `b`. */
  lemma {:induction false} FilterAppend<T(!new)>(p: T -> bool, a: seq<T>, b: seq<T>)
    ensures Filter(p, a + b) == Filter(p, a) + Filter(p, b)
  {
    if a == [] {
      assert a + b == b;
    } else {
      assert (a + b)[0] == a[0];
      assert (a + b)[1..] == a[1..] + b;
      FilterAppend(p, a[1..], b);
    }
  }

  /** Each kept value keeps its exact number of occurrences; each dropped value occurs zero times. */
  lemma {:induction false} FilterCount<T(!new)>(p: T -> bool, s: seq<T>, x: T)
    ensures multiset(Filter(p, s))[x] == if p(x) then multiset(s)[x] else 0
  {
    if s != [] {
      assert s == [s[0]] + s[1..];
      FilterCount(p, s[1..], x);
    }
  }

  /** FilterCount for every value at once. */
  lemma FilterCounts<T(!new)>(p: T -> bool, s: seq<T>)
    ensures forall x :: multiset(Filter(p, s))[x] == if p(x) then multiset(s)[x] else 0
  {
    forall x {
      FilterCount(p, s, x);
    }
  }

  /** When every element passes, filtering returns the list unchanged. */
  lemma {:induction false} FilterKeepsAll<T(!new)>(p: T -> bool, s: seq<T>)
    requires forall x :: x in s ==> p(x)
    ensures Filter(p, s) == s
  {
    if s != [] {
      assert s[0] in s;
      FilterKeepsAll(p, s[1..]);
      assert [s[0]] + s[1..] == s;
    }
  }

  /** Filters that agree on the list's elements produce the same result. */
  lemma {:induction false} FilterSameTest<T(!new)>(p: T -> bool, q: T -> bool, s: seq<T>)
    requires forall x :: x in s ==> p(x) == q(x)
    ensures Filter(p, s) == Filter(q, s)
  {
    if s != [] {
      assert s[0] in s;
      FilterSameTest(p, q, s[1..]);
    }
  }

  lemma {:induction false} SubseqElems<T>(a: seq<T>, b: seq<T>)
    requires IsSubseq(a, b)
    ensures forall x :: x in a ==> x in b
    decreases |b|
  {
    if a != [] {
      if a[0] == b[0] && IsSubseq(a[1..], b[1..]) {
        SubseqElems(a[1..], b[1..]);
        assert forall x :: x in a ==> x == a[0] || x in a[1..];
      } else {
        SubseqElems(a, b[1..]);
      }
    }
  }

  /** A subsequence of a duplicate-free list is duplicate-free. */
  lemma {:induction false} SubseqNoDup<T>(a: seq<T>, b: seq<T>)
    requires IsSubseq(a, b) && NoDup(b)
    ensures NoDup(a)
    decreases |b|
  {
    if a != [] {
      assert NoDup(b[1..]);
      if a[0] == b[0] && IsSubseq(a[1..], b[1..]) {
        SubseqNoDup(a[1..], b[1..]);
        SubseqElems(a[1..], b[1..]);
        assert b[0] !in b[1..];
        forall i, j | 0 <= i < j < |a|
          ensures a[i] != a[j]
        {
          if i == 0 {
            assert a[j] == a[1..][j - 1];
          } else {
            assert a[i] == a[1..][i - 1] && a[j] == a[1..][j - 1];
          }
        }
      } else {
        SubseqNoDup(a, b[1..]);
      }
    }
  }

  /** Filtering never introduces a duplicate. */
  lemma FilterNoDup<T(!new)>(p: T -> bool, s: seq<T>)
    ensures NoDup(s) ==> NoDup(Filter(p, s))
  {
  }

  /** Mapping preserves the subsequence relation. */
  lemma {:induction false} SubseqMap<T, U>(f: T -> U, a: seq<T>, b: seq<T>)
    requires IsSubseq(a, b)
    ensures IsSubseq(Map(f, a), Map(f, b))
    decreases |b|
  {
    if a != [] {
      assert Map(f, b)[1..] == Map(f, b[1..]);
      if a[0] == b[0] && IsSubseq(a[1..], b[1..]) {
        SubseqMap(f, a[1..], b[1..]);
        assert Map(f, a)[1..] == Map(f, a[1..]);
      } else {
        SubseqMap(f, a, b[1..]);
      }
    }
  }

  /** A duplicate-free list has as many distinct values as elements. */
  lemma {:induction false} NoDupCard<T>(s: seq<T>)
    requires NoDup(s)
    ensures |Elems(s)| == |s|
  {
    if s != [] {
      var rest := s[1..];
      assert NoDup(rest);
      NoDupCard(rest);
      var e := Elems(rest);
      assert forall j :: 0 <= j < |rest| ==> rest[j] == s[j + 1];
      assert s[0] !in e;
      assert Elems(s) == e + {s[0]} by {
        forall x | x in Elems(s)
          ensures x in e + {s[0]}
        {
          var i :| 0 <= i < |s| && s[i] == x;
          if i > 0 {
            assert rest[i - 1] == x;
          }
        }
        forall x | x in e
          ensures x in Elems(s)
        {
          var i :| 0 <= i < |rest| && rest[i] == x;
          assert s[i + 1] == x;
        }
      }
      assert |e + {s[0]}| == |e| + 1;
    }
  }

  /** A subset with the same number of elements is the whole set. */
  lemma SubsetSameCard<T>(a: set<T>, b: set<T>)
    requires a <= b && |a| == |b|
    ensures a == b
  {
    assert b == a + (b - a);
    assert |b - a| == 0;
  }
}
