/** Order-preserving filtering of a sequence, as a Python list comprehension or an
    `if` inside a `for` loop over a list keeps the elements it accepts. */
module Seqs {

  /** The elements of `s` that satisfy `p`, in their original order. */
  function Filter<T>(s: seq<T>, p: T -> bool): (r: seq<T>)
    ensures |r| <= |s|
    decreases |s|
  {
    if s == [] then []
    else Filter(s[..|s| - 1], p) + (if p(s[|s| - 1]) then [s[|s| - 1]] else [])
  }

  /** Every kept element passes the test, and a value is kept exactly when it occurs
      in the input and passes the test. */
  lemma {:induction false} FilterMembers<T(!new)>(s: seq<T>, p: T -> bool)
    ensures forall i :: 0 <= i < |Filter(s, p)| ==> p(Filter(s, p)[i])
    ensures forall x :: x in Filter(s, p) <==> x in s && p(x)
    decreases |s|
  {
    if s != [] {
      var s' := s[..|s| - 1];
      FilterMembers(s', p);
      assert s == s' + [s[|s| - 1]];
    }
  }

  /** Filtering is done element by element: the filter of a concatenation is the
      concatenation of the filters, so accepted elements keep their relative order. */
  lemma {:induction false} FilterAppend<T(!new)>(a: seq<T>, b: seq<T>, p: T -> bool)
    ensures Filter(a + b, p) == Filter(a, p) + Filter(b, p)
    decreases |b|
  {
    if b == [] {
      assert a + b == a;
    } else {
      var b' := b[..|b| - 1];
      assert (a + b)[..|a + b| - 1] == a + b';
      assert (a + b)[|a + b| - 1] == b[|b| - 1];
      FilterAppend(a, b', p);
    }
  }

  /** Each accepted value occurs in the filter exactly as often as in the input, and a
      rejected value not at all. */
  lemma {:induction false} FilterCount<T(!new)>(s: seq<T>, p: T -> bool, x: T)
    ensures multiset(Filter(s, p))[x] == if p(x) then multiset(s)[x] else 0
    decreases |s|
  {
    if s != [] {
      var s' := s[..|s| - 1];
      assert s == s' + [s[|s| - 1]];
      FilterCount(s', p, x);
    }
  }

  /** Extending a prefix by one element extends its filter by that element when it is
      accepted, and by nothing otherwise. */
  lemma FilterPrefixStep<T(!new)>(s: seq<T>, i: nat, p: T -> bool)
    requires i < |s|
    ensures Filter(s[..i + 1], p) == Filter(s[..i], p) + (if p(s[i]) then [s[i]] else [])
  {
    assert s[..i + 1][..i] == s[..i];
  }

  /** The filter of a prefix is a prefix of the filter. */
  lemma {:induction false} FilterPrefix<T(!new)>(s: seq<T>, i: nat, p: T -> bool)
    requires i <= |s|
    ensures Filter(s[..i], p) <= Filter(s, p)
    decreases |s|
  {
    if i < |s| {
      var s' := s[..|s| - 1];
      FilterPrefix(s', i, p);
      assert s'[..i] == s[..i];
    } else {
      assert s[..i] == s;
    }
  }

  /** When the element at `i` is the first one accepted, the filter of the prefix
      ending there is the first element of the whole filter. */
  lemma FirstAccepted<T(!new)>(s: seq<T>, i: nat, p: T -> bool)
    requires i < |s| && p(s[i]) && Filter(s[..i], p) == []
    ensures |Filter(s, p)| > 0
    ensures Filter(s[..i + 1], p) == Filter(s, p)[..1]
  {
    FilterPrefixStep(s, i, p);
    FilterPrefix(s, i + 1, p);
  }
}
