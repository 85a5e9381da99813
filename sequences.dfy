/** Order-preserving filtering of sequences, the shape of every
    "append when the test passes" loop and list comprehension in the
    scripts. */
module Sequences {

  /** The elements of `s` that satisfy `p`, in their original order.
      Defined from the end so that it follows a loop that appends. */
  function Filter<T>(s: seq<T>, p: T -> bool): seq<T> {
    if s == [] then []
    else Filter(s[..|s| - 1], p) + (if p(s[|s| - 1]) then [s[|s| - 1]] else [])
  }

  /** One step of an appending loop: the filter of a longer prefix. */
  lemma FilterSnoc<T>(s: seq<T>, x: T, p: T -> bool)
    ensures Filter(s + [x], p) == Filter(s, p) + (if p(x) then [x] else [])
  {
    assert (s + [x])[..|s + [x]| - 1] == s;
  }

  /** Filtering distributes over concatenation, so relative order is kept. */
  lemma {:induction false} FilterConcat<T>(s: seq<T>, t: seq<T>, p: T -> bool)
    ensures Filter(s + t, p) == Filter(s, p) + Filter(t, p)
    decreases |t|
  {
    if t == [] {
      assert s + t == s;
    } else {
      var t', x := t[..|t| - 1], t[|t| - 1];
      assert t == t' + [x];
      assert s + t == (s + t') + [x];
      FilterSnoc(s + t', x, p);
      FilterConcat(s, t', p);
      FilterSnoc(t', x, p);
    }
  }

  /** An element is kept exactly when it occurs in `s` and passes `p`,
      and as often as it occurs in `s`. */
  lemma {:induction false} FilterMultiplicity<T>(s: seq<T>, p: T -> bool, x: T)
    ensures multiset(Filter(s, p))[x] == if p(x) then multiset(s)[x] else 0
    ensures x in Filter(s, p) <==> x in s && p(x)
  {
    if s != [] {
      var s', y := s[..|s| - 1], s[|s| - 1];
      assert s == s' + [y];
      FilterMultiplicity(s', p, x);
    }
  }

  lemma {:induction false} FilterLength<T>(s: seq<T>, p: T -> bool)
    ensures |Filter(s, p)| <= |s|
    ensures |Filter(s, p)| == |s| <==> forall k :: 0 <= k < |s| ==> p(s[k])
  {
    if s != [] {
      var s' := s[..|s| - 1];
      FilterLength(s', p);
      if |Filter(s, p)| == |s| {
        forall k | 0 <= k < |s| ensures p(s[k]) {
          if k < |s| - 1 { assert s[k] == s'[k]; }
        }
      }
      if forall k :: 0 <= k < |s| ==> p(s[k]) {
        assert forall k :: 0 <= k < |s'| ==> p(s'[k]) by {
          forall k | 0 <= k < |s'| ensures p(s'[k]) { assert s'[k] == s[k]; }
        }
      }
    }
  }

  /** Filters that agree on the elements of `s` keep the same elements. */
  lemma {:induction false} FilterCongruence<T>(s: seq<T>, p: T -> bool, q: T -> bool)
    requires forall x :: x in s ==> p(x) == q(x)
    ensures Filter(s, p) == Filter(s, q)
  {
    if s != [] {
      var s' := s[..|s| - 1];
      assert forall x :: x in s' ==> x in s;
      FilterCongruence(s', p, q);
    }
  }

  /** A filter every element passes keeps the whole sequence. */
  lemma {:induction false} FilterAll<T>(s: seq<T>, p: T -> bool)
    requires forall k :: 0 <= k < |s| ==> p(s[k])
    ensures Filter(s, p) == s
  {
    if s != [] {
      var s' := s[..|s| - 1];
      assert forall k :: 0 <= k < |s'| ==> p(s'[k]) by {
        forall k | 0 <= k < |s'| ensures p(s'[k]) { assert s'[k] == s[k]; }
      }
      FilterAll(s', p);
      assert s == s' + [s[|s| - 1]];
    }
  }

  /** Appending to an appended sequence. */
  lemma AppendAssoc<T>(a: seq<T>, b: seq<T>, c: seq<T>)
    ensures a + b + c == a + (b + c)
  {
  }

  /** Sequences that agree at every index are equal. */
  lemma SeqExt<T>(a: seq<T>, b: seq<T>)
    requires |a| == |b| && forall k :: 0 <= k < |a| ==> a[k] == b[k]
    ensures a == b
  {
  }

  /** The indices `0, 1, ..., n - 1` in increasing order. */
  function Range(n: nat): (r: seq<nat>)
    ensures |r| == n && forall k :: 0 <= k < n ==> r[k] == k
  {
    if n == 0 then [] else Range(n - 1) + [n - 1]
  }

  /** A filter no element passes keeps nothing. */
  lemma {:induction false} FilterNone<T>(s: seq<T>, p: T -> bool)
    requires forall k :: 0 <= k < |s| ==> !p(s[k])
    ensures Filter(s, p) == []
  {
    if s != [] {
      var s' := s[..|s| - 1];
      assert forall k :: 0 <= k < |s'| ==> !p(s'[k]) by {
        forall k | 0 <= k < |s'| ensures !p(s'[k]) { assert s'[k] == s[k]; }
      }
      FilterNone(s', p);
    }
  }
}
