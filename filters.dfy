/** Order-preserving filtering of a sequence, the shape of PHP's `array_diff`
    and `array_intersect` against a list of values and of `unset` followed by
    `foreach`: every element that passes is kept, duplicates included, and
    the survivors keep their relative order. */
module Filters {

  function Filter(s: seq<int>, p: int -> bool): (r: seq<int>)
    ensures |r| <= |s|
    decreases |s|
  {
    if s == [] then []
    else if p(s[0]) then [s[0]] + Filter(s[1..], p)
    else Filter(s[1..], p)
  }

  /** What survives the filter is exactly what passes. */
  lemma {:induction false} FilterMembers(s: seq<int>, p: int -> bool)
    ensures forall x :: x in Filter(s, p) <==> x in s && p(x)
    decreases |s|
  {
    if s != [] {
      FilterMembers(s[1..], p);
      assert forall x :: x in s <==> x == s[0] || x in s[1..];
    }
  }

  /** The same, position by position. */
  lemma FilterIndices(s: seq<int>, p: int -> bool)
    ensures forall i :: 0 <= i < |Filter(s, p)| ==> Filter(s, p)[i] in s && p(Filter(s, p)[i])
  {
    forall i | 0 <= i < |Filter(s, p)|
      ensures Filter(s, p)[i] in s && p(Filter(s, p)[i])
    {
      FilterMembers(s, p);
      assert Filter(s, p)[i] in Filter(s, p);
    }
  }

  lemma {:induction false} FilterConcat(a: seq<int>, b: seq<int>, p: int -> bool)
    ensures Filter(a + b, p) == Filter(a, p) + Filter(b, p)
    decreases |a|
  {
    if a == [] {
      assert a + b == b;
    } else {
      assert (a + b)[0] == a[0];
      assert (a + b)[1..] == a[1..] + b;
      FilterConcat(a[1..], b, p);
      if p(a[0]) {
        assert Filter(a + b, p) == [a[0]] + Filter(a[1..] + b, p);
      } else {
        assert Filter(a + b, p) == Filter(a[1..] + b, p);
      }
    }
  }

  /** Filtering keeps every occurrence of a passing value and none of a
      failing one: multiplicities are preserved exactly. */
  lemma {:induction false} FilterMultiplicity(s: seq<int>, p: int -> bool, x: int)
    ensures multiset(Filter(s, p))[x] == if p(x) then multiset(s)[x] else 0
    decreases |s|
  {
    if s != [] {
      FilterMultiplicity(s[1..], p, x);
      assert s == [s[0]] + s[1..];
    }
  }

  /** Nothing survives exactly when nothing passes. */
  lemma FilterEmpty(s: seq<int>, p: int -> bool)
    ensures Filter(s, p) == [] <==> forall i :: 0 <= i < |s| ==> !p(s[i])
  {
    FilterMembers(s, p);
    if Filter(s, p) != [] {
      assert Filter(s, p)[0] in Filter(s, p);
    }
  }

  /** Filtering keeps everything exactly when everything passes. */
  lemma {:induction false} FilterAll(s: seq<int>, p: int -> bool)
    ensures Filter(s, p) == s <==> forall i :: 0 <= i < |s| ==> p(s[i])
    decreases |s|
  {
    if s != [] {
      FilterAll(s[1..], p);
      if !p(s[0]) {
        assert |Filter(s, p)| < |s|;
      }
      assert forall i :: 1 <= i < |s| ==> s[i] == s[1..][i - 1];
    }
  }

  /** The elements that pass stay where they are; every other one is
      overwritten by `v`. */
  function Substitute(s: seq<int>, p: int -> bool, v: int): (r: seq<int>)
    ensures |r| == |s|
    ensures forall i :: 0 <= i < |s| ==> r[i] == if p(s[i]) then s[i] else v
  {
    seq(|s|, i requires 0 <= i < |s| => if p(s[i]) then s[i] else v)
  }
}
