/** Sequence vocabulary used across the model: a filtering map written as a
    left fold (so that a loop over a prefix extends it one element at a
    time), and the stable sort that `java.util.Arrays.sort` performs with a
    comparator. */
module Sequences {
  import opened Lang

  /** The elements of `s` that `keep` selects, each transformed by `f`, in order. */
  function FilterMap<A, B>(s: seq<A>, keep: A -> bool, f: A -> B): (r: seq<B>)
    ensures |r| <= |s|
  {
    if s == [] then []
    else FilterMap(s[..|s| - 1], keep, f) + (if keep(s[|s| - 1]) then [f(s[|s| - 1])] else [])
  }

  lemma FilterMapSnoc<A, B>(s: seq<A>, x: A, keep: A -> bool, f: A -> B)
    ensures FilterMap(s + [x], keep, f) == FilterMap(s, keep, f) + (if keep(x) then [f(x)] else [])
  {
    assert (s + [x])[..|s|] == s;
  }

  /** An element is produced exactly when some selected element of `s` maps to it. */
  lemma {:induction false} FilterMapMember<A, B>(s: seq<A>, keep: A -> bool, f: A -> B, y: B)
    ensures y in FilterMap(s, keep, f) <==> exists k :: 0 <= k < |s| && keep(s[k]) && y == f(s[k])
  {
    if s != [] {
      var p := s[..|s| - 1];
      FilterMapMember(p, keep, f, y);
      if y in FilterMap(s, keep, f) && y !in FilterMap(p, keep, f) {
        assert keep(s[|s| - 1]) && y == f(s[|s| - 1]);
      }
      if exists k :: 0 <= k < |s| && keep(s[k]) && y == f(s[k]) {
        var k :| 0 <= k < |s| && keep(s[k]) && y == f(s[k]);
        if k < |s| - 1 {
          assert p[k] == s[k];
        }
      }
    }
  }

  /** Every element of `s` is selected: nothing is dropped. */
  lemma {:induction false} FilterMapAll<A, B>(s: seq<A>, keep: A -> bool, f: A -> B)
    requires forall k :: 0 <= k < |s| ==> keep(s[k])
    ensures |FilterMap(s, keep, f)| == |s|
    ensures forall k :: 0 <= k < |s| ==> FilterMap(s, keep, f)[k] == f(s[k])
  {
    if s != [] {
      var p := s[..|s| - 1];
      FilterMapAll(p, keep, f);
    }
  }

  /** One step forward through `s`: the element at `n`, what follows it,
      and the prefix that now includes it. */
  lemma Advance<T>(s: seq<T>, n: nat)
    requires n < |s|
    ensures s[n..][0] == s[n] && s[n..][1..] == s[n + 1..] && s[..n + 1] == s[..n] + [s[n]]
  {
  }

  /** The position of the first occurrence of `x` in `s`, if any. */
  function FirstIndex<T(==)>(s: seq<T>, x: T): (r: Option<nat>)
    ensures r.None? <==> x !in s
    ensures r.Some? ==> r.value < |s| && s[r.value] == x && x !in s[..r.value]
  {
    if s == [] then None
    else if s[0] == x then Some(0)
    else match FirstIndex(s[1..], x)
      case None => None
      case Some(k) => assert s[1..][..k] == s[1..k + 1]; Some(k + 1)
  }

  /** `below(a, b)`: `a` may come before `b` (the comparator says `a <= b`);
      on the values in `xs` it is total and transitive. */
  ghost predicate TotalPreorderOn<T>(xs: set<T>, below: (T, T) -> bool)
  {
    && (forall a, b :: a in xs && b in xs ==> below(a, b) || below(b, a))
    && (forall a, b, c :: a in xs && b in xs && c in xs && below(a, b) && below(b, c) ==> below(a, c))
  }

  ghost predicate Sorted<T>(s: seq<T>, below: (T, T) -> bool)
  {
    forall i, j :: 0 <= i < j < |s| ==> below(s[i], s[j])
  }

  /** Inserts `x` in front of the first element it may precede. */
  function Insert<T>(x: T, s: seq<T>, below: (T, T) -> bool): (r: seq<T>)
    ensures multiset(r) == multiset(s) + multiset{x}
  {
    if s == [] then [x]
    else if below(x, s[0]) then [x] + s
    else
      assert s == [s[0]] + s[1..];
      [s[0]] + Insert(x, s[1..], below)
  }

  /** Insertion sort; stable, since an element is placed in front of the
      equal elements that follow it. */
  function SortBy<T>(s: seq<T>, below: (T, T) -> bool): (r: seq<T>)
    ensures multiset(r) == multiset(s)
  {
    if s == [] then []
    else
      assert s == [s[0]] + s[1..];
      Insert(s[0], SortBy(s[1..], below), below)
  }

  lemma {:induction false} InsertSorted<T>(x: T, s: seq<T>, below: (T, T) -> bool, xs: set<T>)
    requires TotalPreorderOn(xs, below) && x in xs && (forall k :: 0 <= k < |s| ==> s[k] in xs)
    requires Sorted(s, below)
    ensures Sorted(Insert(x, s, below), below)
  {
    if s != [] && !below(x, s[0]) {
      InsertSorted(x, s[1..], below, xs);
      var r := Insert(x, s[1..], below);
      assert multiset(r) == multiset(s[1..]) + multiset{x};
      forall j | 0 <= j < |r|
        ensures below(s[0], r[j])
      {
        assert r[j] in multiset(r);
        if r[j] == x {
        } else {
          assert r[j] in multiset(s[1..]);
          var k :| 0 <= k < |s[1..]| && s[1..][k] == r[j];
          assert s[k + 1] == r[j];
        }
      }
    }
  }

  /** The result is ordered by `below` whenever `below` is a total preorder
      on the values sorted. */
  lemma {:induction false} SortBySorted<T>(s: seq<T>, below: (T, T) -> bool, xs: set<T>)
    requires TotalPreorderOn(xs, below) && (forall k :: 0 <= k < |s| ==> s[k] in xs)
    ensures Sorted(SortBy(s, below), below)
  {
    if s != [] {
      SortBySorted(s[1..], below, xs);
      var r := SortBy(s[1..], below);
      forall k | 0 <= k < |r|
        ensures r[k] in xs
      {
        assert r[k] in multiset(s[1..]);
      }
      InsertSorted(s[0], r, below, xs);
    }
  }

  /** Concatenation is associative. */
  lemma Associate3<T>(a: seq<T>, b: seq<T>, c: seq<T>)
    ensures (a + b) + c == a + (b + c)
  {
  }
}
