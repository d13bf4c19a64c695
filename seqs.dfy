/** Swift's `filter` on arrays, and what the rest of the model needs to know about it. */
module Seqs {

  /** The elements of `s` that satisfy `p`, in their original order. */
  function Filter<T>(s: seq<T>, p: T -> bool): (r: seq<T>)
    ensures |r| <= |s|
  {
    if s == [] then [] else (if p(s[0]) then [s[0]] else []) + Filter(s[1..], p)
  }

  /** Filtering distributes over concatenation: it keeps the relative order of what it keeps. */
  lemma {:induction false} FilterAppend<T>(s: seq<T>, t: seq<T>, p: T -> bool)
    ensures Filter(s + t, p) == Filter(s, p) + Filter(t, p)
  {
    if s == [] {
      assert s + t == t;
    } else {
      var u := s + t;
      assert u[0] == s[0] && u[1..] == s[1..] + t;
      FilterAppend(s[1..], t, p);
      var head := if p(s[0]) then [s[0]] else [];
      calc {
        Filter(u, p);
        head + Filter(u[1..], p);
        head + (Filter(s[1..], p) + Filter(t, p));
        (head + Filter(s[1..], p)) + Filter(t, p);
      }
    }
  }

  /** Filtering a sequence with a known first element. */
  lemma FilterCons<T>(y: T, r: seq<T>, p: T -> bool)
    ensures Filter([y] + r, p) == (if p(y) then [y] else []) + Filter(r, p)
  {
    var s := [y] + r;
    assert s[0] == y && s[1..] == r;
  }

  /** An element is kept exactly when it occurs in `s` and satisfies `p`. */
  lemma {:induction false} FilterMembers<T>(s: seq<T>, p: T -> bool)
    ensures forall x :: x in Filter(s, p) <==> x in s && p(x)
    ensures |Filter(s, p)| <= |s|
  {
    if s != [] {
      FilterMembers(s[1..], p);
      assert s == [s[0]] + s[1..];
    }
  }

  /** Every element kept satisfies `p` and comes from `s`. */
  lemma {:induction false} FilterHolds<T>(s: seq<T>, p: T -> bool)
    ensures forall i :: 0 <= i < |Filter(s, p)| ==> Filter(s, p)[i] in s && p(Filter(s, p)[i])
  {
    if s != [] {
      FilterHolds(s[1..], p);
      var rest := Filter(s[1..], p);
      var f := Filter(s, p);
      var k := if p(s[0]) then 1 else 0;
      assert f == (if p(s[0]) then [s[0]] else []) + rest;
      forall i | 0 <= i < |f| ensures f[i] in s && p(f[i]) {
        if i < k {
          assert f[i] == s[0];
        } else {
          assert f[i] == rest[i - k];
          assert rest[i - k] in s[1..];
        }
      }
    }
  }

  /** Nothing is dropped when every element satisfies `p`. */
  lemma {:induction false} FilterAll<T>(s: seq<T>, p: T -> bool)
    requires forall i :: 0 <= i < |s| ==> p(s[i])
    ensures Filter(s, p) == s
  {
    if s != [] {
      FilterAll(s[1..], p);
    }
  }

  /** Everything is dropped when no element satisfies `p`. */
  lemma {:induction false} FilterNone<T>(s: seq<T>, p: T -> bool)
    requires forall i :: 0 <= i < |s| ==> !p(s[i])
    ensures Filter(s, p) == []
  {
    if s != [] {
      FilterNone(s[1..], p);
    }
  }

  /** Filtering twice by the same test is filtering once. */
  lemma {:induction false} FilterIdempotent<T>(s: seq<T>, p: T -> bool)
    ensures Filter(Filter(s, p), p) == Filter(s, p)
  {
    if s != [] {
      FilterIdempotent(s[1..], p);
      if p(s[0]) {
        var f := [s[0]] + Filter(s[1..], p);
        assert Filter(s, p) == f;
        assert f[0] == s[0] && f[1..] == Filter(s[1..], p);
        assert Filter(f, p) == [s[0]] + Filter(f[1..], p);
      } else {
        assert Filter(s, p) == [] + Filter(s[1..], p) == Filter(s[1..], p);
      }
    }
  }
}
