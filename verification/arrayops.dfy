/** The `Array.prototype` built-ins the script uses (`filter`, `findIndex`,
    `find`, `some`, `splice(i, 1)`) and the `[...new Set(xs)]` idiom, over
    immutable sequences. */
module ArrayOps {
  import opened Common

  /** `a` is obtained from `b` by deleting elements, keeping the order of the rest. */
  ghost predicate IsSubsequence<T>(a: seq<T>, b: seq<T>)
    decreases |b|
  {
    if |a| == 0 then true
    else if |b| == 0 then false
    else (a[0] == b[0] && IsSubsequence(a[1..], b[1..])) || IsSubsequence(a, b[1..])
  }

  lemma {:induction false} SubsequenceMultiset<T>(a: seq<T>, b: seq<T>)
    requires IsSubsequence(a, b)
    ensures multiset(a) <= multiset(b)
    decreases |b|
  {
    if |a| == 0 {
    } else {
      assert b == [b[0]] + b[1..];
      if a[0] == b[0] && IsSubsequence(a[1..], b[1..]) {
        SubsequenceMultiset(a[1..], b[1..]);
        assert a == [a[0]] + a[1..];
      } else {
        SubsequenceMultiset(a, b[1..]);
      }
    }
  }

  lemma {:induction false} SubsequenceReflexive<T>(s: seq<T>)
    ensures IsSubsequence(s, s)
    decreases |s|
  {
    if |s| > 0 {
      SubsequenceReflexive(s[1..]);
    }
  }

  /** `Array.prototype.filter`. */
  function Filter<T(!new)>(s: seq<T>, p: T -> bool): (r: seq<T>)
    ensures |r| <= |s|
    ensures forall x :: x in r <==> x in s && p(x)
    ensures forall x :: multiset(r)[x] == if p(x) then multiset(s)[x] else 0
    ensures IsSubsequence(r, s)
  {
    if |s| == 0 then []
    else
      assert s == [s[0]] + s[1..];
      var rest := Filter(s[1..], p);
      if p(s[0]) then
        assert ([s[0]] + rest)[1..] == rest;
        [s[0]] + rest
      else rest
  }

  /** The result of `Filter` is the only subsequence of `s` that keeps every
      element satisfying `p`, as often as it occurs, and nothing else. */
  lemma {:induction false} FilterUnique<T(!new)>(s: seq<T>, p: T -> bool, r: seq<T>)
    requires IsSubsequence(r, s)
    requires forall x :: multiset(r)[x] == if p(x) then multiset(s)[x] else 0
    ensures r == Filter(s, p)
    decreases |s|
  {
    if |s| == 0 {
    } else {
      var h, t := s[0], s[1..];
      assert s == [h] + t;
      if p(h) {
        assert !IsSubsequence(r, t) by {
          if IsSubsequence(r, t) { SubsequenceMultiset(r, t); }
        }
        assert r == [h] + r[1..];
        FilterUnique(t, p, r[1..]);
      } else {
        assert |r| > 0 ==> r[0] in multiset(r);
        FilterUnique(t, p, r);
      }
    }
  }

  /** A filter whose predicate holds everywhere returns its input unchanged. */
  lemma FilterKeepsAll<T(!new)>(s: seq<T>, p: T -> bool)
    requires forall x :: x in s ==> p(x)
    ensures Filter(s, p) == s
  {
    SubsequenceReflexive(s);
    FilterUnique(s, p, s);
  }

  /** Filters whose predicates agree on the elements of `s` return the same sequence. */
  lemma FilterCongruent<T(!new)>(s: seq<T>, p: T -> bool, q: T -> bool)
    requires forall x :: x in s ==> p(x) == q(x)
    ensures Filter(s, p) == Filter(s, q)
  {
    var r := Filter(s, q);
    forall x ensures multiset(r)[x] == if p(x) then multiset(s)[x] else 0 {
      if x !in s { assert multiset(s)[x] == 0; }
    }
    FilterUnique(s, p, r);
  }

  /** `Array.prototype.findIndex`: the first index whose element satisfies `p`, or -1. */
  function FindIndex<T>(s: seq<T>, p: T -> bool): (r: int)
    ensures -1 <= r < |s|
    ensures r >= 0 ==> p(s[r]) && forall j :: 0 <= j < r ==> !p(s[j])
    ensures r == -1 <==> forall j :: 0 <= j < |s| ==> !p(s[j])
  {
    if |s| == 0 then -1
    else if p(s[0]) then 0
    else
      var i := FindIndex(s[1..], p);
      assert forall j :: 1 <= j < |s| ==> s[j] == s[1..][j - 1];
      if i == -1 then -1 else i + 1
  }

  /** `Array.prototype.find`: the first element satisfying `p`, or `undefined`. */
  function Find<T>(s: seq<T>, p: T -> bool): (r: Option<T>)
    ensures r.None? <==> forall j :: 0 <= j < |s| ==> !p(s[j])
    ensures r.Some? ==> exists i :: 0 <= i < |s| && s[i] == r.value && p(s[i]) && forall j :: 0 <= j < i ==> !p(s[j])
  {
    var i := FindIndex(s, p);
    if i == -1 then None else Some(s[i])
  }

  /** `Array.prototype.some`. */
  function Any<T>(s: seq<T>, p: T -> bool): (r: bool)
    ensures r <==> exists j :: 0 <= j < |s| && p(s[j])
  {
    FindIndex(s, p) != -1
  }

  /** `splice(i, 1)`: delete the element at index `i`; the others keep their order. */
  function RemoveAt<T>(s: seq<T>, i: int): (r: seq<T>)
    requires 0 <= i < |s|
    ensures |r| == |s| - 1
    ensures forall j :: 0 <= j < i ==> r[j] == s[j]
    ensures forall j :: i <= j < |r| ==> r[j] == s[j + 1]
    ensures multiset(r) == multiset(s) - multiset{s[i]}
  {
    assert s == s[..i] + [s[i]] + s[i + 1..];
    s[..i] + s[i + 1..]
  }

  predicate NoDuplicates<T(==)>(s: seq<T>) {
    forall i, j :: 0 <= i < j < |s| ==> s[i] != s[j]
  }

  /** The elements of `s` not in `seen`, each kept at its first occurrence. */
  function DistinctFrom<T(==,!new)>(s: seq<T>, seen: set<T>): (r: seq<T>)
    ensures NoDuplicates(r)
    ensures forall x :: x in r <==> x in s && x !in seen
    ensures IsSubsequence(r, s)
    decreases |s|
  {
    if |s| == 0 then []
    else
      assert forall x :: x in s <==> x == s[0] || x in s[1..] by { assert s == [s[0]] + s[1..]; }
      if s[0] in seen then DistinctFrom(s[1..], seen)
      else
        var rest := DistinctFrom(s[1..], seen + {s[0]});
        assert ([s[0]] + rest)[1..] == rest;
        [s[0]] + rest
  }

  /** The index of the first occurrence of `x` in `s`. */
  function FirstIndexOf<T(==)>(s: seq<T>, x: T): (r: nat)
    requires x in s
    ensures r < |s| && s[r] == x && x !in s[..r]
  {
    if s[0] == x then 0
    else
      assert x in s[1..] by { assert s == [s[0]] + s[1..]; }
      var r := FirstIndexOf(s[1..], x);
      assert s[..r + 1] == [s[0]] + s[1..][..r];
      r + 1
  }

  /** `DistinctFrom` lists its elements in the order they first occur in `s`. */
  lemma {:induction false} DistinctFromOrder<T(!new)>(s: seq<T>, seen: set<T>)
    ensures forall i, j :: 0 <= i < j < |DistinctFrom(s, seen)| ==>
              FirstIndexOf(s, DistinctFrom(s, seen)[i]) < FirstIndexOf(s, DistinctFrom(s, seen)[j])
    decreases |s|
  {
    if |s| > 0 {
      var r := DistinctFrom(s, seen);
      var seen' := if s[0] in seen then seen else seen + {s[0]};
      var rest := DistinctFrom(s[1..], seen');
      DistinctFromOrder(s[1..], seen');
      forall x | x in rest ensures FirstIndexOf(s, x) == FirstIndexOf(s[1..], x) + 1 {
        assert x != s[0];
        FirstIndexAfterHead(s, x);
      }
      if s[0] !in seen {
        assert r == [s[0]] + rest;
        forall i, j | 0 <= i < j < |r| ensures FirstIndexOf(s, r[i]) < FirstIndexOf(s, r[j]) {
          assert r[j] == rest[j - 1];
          if i > 0 { assert r[i] == rest[i - 1]; }
        }
      } else {
        assert r == rest;
      }
    }
  }

  lemma FirstIndexAfterHead<T>(s: seq<T>, x: T)
    requires x in s && x != s[0]
    ensures x in s[1..] && FirstIndexOf(s, x) == FirstIndexOf(s[1..], x) + 1
  {
  }

  /** `[...new Set(s)]`: the distinct elements of `s`, in order of first occurrence. */
  function Distinct<T(==,!new)>(s: seq<T>): (r: seq<T>)
    ensures NoDuplicates(r)
    ensures forall x :: x in r <==> x in s
    ensures IsSubsequence(r, s)
    ensures forall i, j :: 0 <= i < j < |r| ==> FirstIndexOf(s, r[i]) < FirstIndexOf(s, r[j])
  {
    DistinctFromOrder(s, {});
    DistinctFrom(s, {})
  }

  /** A duplicate-free sequence has as many elements as the set of its elements. */
  lemma {:induction false} DistinctCardinality<T>(s: seq<T>)
    requires NoDuplicates(s)
    ensures |s| == |set x | x in s|
    decreases |s|
  {
    if |s| > 0 {
      DistinctCardinality(s[1..]);
      var tail := set x | x in s[1..];
      assert (set x | x in s) == {s[0]} + tail by { assert s == [s[0]] + s[1..]; }
      assert s[0] !in tail;
    }
  }
}
