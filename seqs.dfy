/** Sequence operations of JavaScript arrays: `filter`, `filter(Boolean)`
    after a `map` whose callback may fail, and `slice`. */
module Seqs {
  import opened Wrappers

  /** `a` is `b` with some elements removed, the rest in their order. */
  predicate SubsequenceOf<T(==)>(a: seq<T>, b: seq<T>)
    decreases |b|
  {
    if a == [] then true
    else if b == [] then false
    else (a[0] == b[0] && SubsequenceOf(a[1..], b[1..])) || SubsequenceOf(a, b[1..])
  }

  lemma {:induction false} SubsequenceReflexive<T>(a: seq<T>)
    ensures SubsequenceOf(a, a)
  {
    if a != [] {
      SubsequenceReflexive(a[1..]);
    }
  }

  lemma {:induction false} SubsequenceTransitive<T>(a: seq<T>, b: seq<T>, c: seq<T>)
    requires SubsequenceOf(a, b) && SubsequenceOf(b, c)
    ensures SubsequenceOf(a, c)
    decreases |c|
  {
    if a != [] && c != [] {
      assert b != [];
      if b[0] == c[0] && SubsequenceOf(b[1..], c[1..]) {
        if a[0] == b[0] && SubsequenceOf(a[1..], b[1..]) {
          SubsequenceTransitive(a[1..], b[1..], c[1..]);
        } else {
          SubsequenceTransitive(a, b[1..], c[1..]);
        }
      } else {
        SubsequenceTransitive(a, b, c[1..]);
      }
    }
  }

  /** A subsequence holds nothing its supersequence does not. */
  lemma {:induction false} SubsequenceMembers<T>(a: seq<T>, b: seq<T>)
    requires SubsequenceOf(a, b)
    ensures forall x :: x in a ==> x in b
    decreases |b|
  {
    if a != [] {
      if a[0] == b[0] && SubsequenceOf(a[1..], b[1..]) {
        SubsequenceMembers(a[1..], b[1..]);
        assert forall x :: x in a ==> x == a[0] || x in a[1..];
      } else {
        SubsequenceMembers(a, b[1..]);
      }
    }
  }

  /** `s.filter(p)`. */
  function Filter<T>(s: seq<T>, p: T -> bool): (r: seq<T>)
    ensures |r| <= |s|
  {
    if s == [] then []
    else (if p(s[0]) then [s[0]] else []) + Filter(s[1..], p)
  }

  /** Filtering keeps exactly the elements that pass, as often as they
      occurred, and in their order. */
  lemma {:induction false} FilterKeepsPassing<T>(s: seq<T>, p: T -> bool)
    ensures SubsequenceOf(Filter(s, p), s)
    ensures forall x :: multiset(Filter(s, p))[x] == if p(x) then multiset(s)[x] else 0
    ensures forall x :: x in Filter(s, p) <==> x in s && p(x)
  {
    if s != [] {
      FilterKeepsPassing(s[1..], p);
      assert s == [s[0]] + s[1..];
      var r := Filter(s, p);
      if p(s[0]) {
        assert r == [s[0]] + Filter(s[1..], p);
        assert r[0] == s[0] && r[1..] == Filter(s[1..], p);
      } else {
        assert r == Filter(s[1..], p);
      }
    }
  }

  /** A filtered list holds no entry more often than its source. */
  lemma {:induction false} FilterSubmultiset<T>(s: seq<T>, p: T -> bool)
    ensures multiset(Filter(s, p)) <= multiset(s)
  {
    if s != [] {
      FilterSubmultiset(s[1..], p);
      assert s == [s[0]] + s[1..];
    }
  }

  /** Every element of a sub-multiset is an element of the larger one. */
  lemma SubmultisetMembers<T>(a: seq<T>, b: seq<T>)
    requires multiset(a) <= multiset(b)
    ensures forall x :: x in a ==> x in b
  {
    forall x | x in a ensures x in b {
      assert x in multiset(a);
    }
  }

  /** `results.filter(Boolean)` after `map`: the values of the calls that
      succeeded. */
  function Survivors<T>(results: seq<Option<T>>): (r: seq<T>)
    ensures |r| <= |results|
  {
    if results == [] then []
    else (if results[0].Some? then [results[0].value] else []) + Survivors(results[1..])
  }

  /** Wraps every element back in `Some`. */
  function Lift<T>(s: seq<T>): (r: seq<Option<T>>)
    ensures |r| == |s|
    ensures forall i :: 0 <= i < |s| ==> r[i] == Some(s[i])
  {
    seq(|s|, i requires 0 <= i < |s| => Some(s[i]))
  }

  /** Every success survives, no failure does, and the survivors keep the
      order of the calls. */
  lemma {:induction false} SurvivorsKeepOrder<T>(results: seq<Option<T>>)
    ensures SubsequenceOf(Lift(Survivors(results)), results)
    ensures forall x :: x in Survivors(results) <==> Some(x) in results
  {
    if results != [] {
      SurvivorsKeepOrder(results[1..]);
      var rest := Survivors(results[1..]);
      assert results == [results[0]] + results[1..];
      if results[0].Some? {
        assert Lift(Survivors(results)) == [results[0]] + Lift(rest);
        assert Lift(Survivors(results))[1..] == Lift(rest);
      } else {
        assert Survivors(results) == rest;
      }
    }
  }

  /** The index at which `slice` starts or stops for argument `i`: a negative
      argument counts back from the end, and the result is clamped to
      `[0, len]` (ECMAScript relative index). */
  function RelativeIndex(i: int, len: nat): (r: nat)
    ensures r <= len
    ensures 0 <= i ==> r == if i <= len then i else len
  {
    if i < 0 then (if len + i < 0 then 0 else len + i)
    else if i > len then len
    else i
  }

  /** `s.slice(start, end)`. */
  function JsSlice<T>(s: seq<T>, start: int, end: int): seq<T> {
    var from, to := RelativeIndex(start, |s|), RelativeIndex(end, |s|);
    if from < to then s[from..to] else []
  }

  /** A contiguous block is a subsequence. */
  lemma {:induction false} SliceIsSubsequence<T>(s: seq<T>, i: nat, j: nat)
    requires i <= j <= |s|
    ensures SubsequenceOf(s[i..j], s)
    decreases |s|
  {
    if i < j {
      if i > 0 {
        assert forall k :: 0 <= k < j - i ==> s[i..j][k] == s[1..][i - 1..j - 1][k];
        assert s[i..j] == s[1..][i - 1..j - 1];
        SliceIsSubsequence(s[1..], i - 1, j - 1);
      } else {
        assert s[i..j][1..] == s[1..][0..j - 1];
        SliceIsSubsequence(s[1..], 0, j - 1);
      }
    }
  }

  /** For a non-negative offset and limit, `slice(offset, offset + limit)` is the
      block of at most `limit` elements starting at `offset`, in order. */
  lemma SlicePage<T>(s: seq<T>, offset: int, limit: int)
    requires 0 <= offset && 0 <= limit
    ensures var page := JsSlice(s, offset, offset + limit);
      && |page| <= limit
      && |page| == (if offset >= |s| then 0 else if offset + limit <= |s| then limit else |s| - offset)
      && (forall k :: 0 <= k < |page| ==> page[k] == s[offset + k])
      && SubsequenceOf(page, s)
  {
    var from, to := RelativeIndex(offset, |s|), RelativeIndex(offset + limit, |s|);
    if from < to {
      SliceIsSubsequence(s, from, to);
    }
  }
}
