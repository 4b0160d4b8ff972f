/** Order-preserving selection over sequences: the `Array.prototype.filter`
    that the roster comparison is built from, with an index-exact
    characterisation of what it returns. */
module Seqs {

  /** The elements of `s` that satisfy `p`, in their original order. */
  function Filter<T>(s: seq<T>, p: T -> bool): (r: seq<T>)
    ensures |r| <= |s|
    decreases |s|
  {
    if s == [] then []
    else Filter(s[..|s| - 1], p) + (if p(s[|s| - 1]) then [s[|s| - 1]] else [])
  }

  /** How many elements of `s` satisfy `p`. */
  function Count<T>(s: seq<T>, p: T -> bool): (n: nat)
    ensures n <= |s|
    decreases |s|
  {
    if s == [] then 0
    else Count(s[..|s| - 1], p) + (if p(s[|s| - 1]) then 1 else 0)
  }

  /** `r` holds exactly the elements of `s` that satisfy `p`, in the order of
      `s`: the element at index `i` of `s` sits at the position given by the
      number of satisfying elements that precede it, and nothing else is in `r`. */
  ghost predicate Selects<T>(r: seq<T>, s: seq<T>, p: T -> bool) {
    && |r| == Count(s, p)
    && forall i :: 0 <= i < |s| && p(s[i]) ==>
         Count(s[..i], p) < |r| && r[Count(s[..i], p)] == s[i]
  }

  /** `Filter` places every satisfying element where `Selects` demands. */
  lemma {:induction false} FilterSelects<T>(s: seq<T>, p: T -> bool)
    ensures Selects(Filter(s, p), s, p)
    decreases |s|
  {
    if s != [] {
      var n := |s| - 1;
      var s' := s[..n];
      FilterSelects(s', p);
      var r := Filter(s, p);
      assert r == Filter(s', p) + (if p(s[n]) then [s[n]] else []);
      forall i | 0 <= i < |s| && p(s[i])
        ensures Count(s[..i], p) < |r| && r[Count(s[..i], p)] == s[i]
      {
        if i < n {
          assert s[..i] == s'[..i];
          assert s[i] == s'[i];
        } else {
          assert s[..i] == s';
        }
      }
    }
  }

  /** Every position below `Count(s, p)` is the rank of some satisfying element. */
  lemma {:induction false} CountRanks<T>(s: seq<T>, p: T -> bool, k: nat)
    requires k < Count(s, p)
    ensures exists i :: 0 <= i < |s| && p(s[i]) && Count(s[..i], p) == k
    decreases |s|
  {
    var n := |s| - 1;
    var s' := s[..n];
    if k < Count(s', p) {
      CountRanks(s', p, k);
      var i :| 0 <= i < |s'| && p(s'[i]) && Count(s'[..i], p) == k;
      assert s'[..i] == s[..i];
      assert s[i] == s'[i];
    } else {
      assert s[..n] == s';
      assert p(s[n]) && Count(s[..n], p) == k;
    }
  }

  /** `Selects` pins its sequence down completely: it is `Filter`. */
  lemma SelectsUnique<T>(r: seq<T>, s: seq<T>, p: T -> bool)
    requires Selects(r, s, p)
    ensures r == Filter(s, p)
  {
    var f := Filter(s, p);
    FilterSelects(s, p);
    forall k | 0 <= k < |r|
      ensures r[k] == f[k]
    {
      CountRanks(s, p, k);
    }
  }

  /** Membership in a filter, both directions. */
  lemma {:induction false} FilterMembers<T>(s: seq<T>, p: T -> bool, x: T)
    ensures x in Filter(s, p) <==> x in s && p(x)
    decreases |s|
  {
    if s != [] {
      var n := |s| - 1;
      FilterMembers(s[..n], p, x);
      assert s == s[..n] + [s[n]];
    }
  }

  /** Every element of a filter satisfies the predicate (index form). */
  lemma FilterMembersAll<T>(s: seq<T>, p: T -> bool)
    ensures forall i :: 0 <= i < |Filter(s, p)| ==> p(Filter(s, p)[i])
  {
  }

  /** Filtering distributes over concatenation. */
  lemma {:induction false} FilterConcat<T>(a: seq<T>, b: seq<T>, p: T -> bool)
    ensures Filter(a + b, p) == Filter(a, p) + Filter(b, p)
    decreases |b|
  {
    if b == [] {
      assert a + b == a;
    } else {
      var n := |b| - 1;
      FilterConcat(a, b[..n], p);
      assert (a + b)[..|a + b| - 1] == a + b[..n];
      assert (a + b)[|a + b| - 1] == b[n];
      assert Filter(a + b, p) == Filter(a + b[..n], p) + (if p(b[n]) then [b[n]] else []);
    }
  }

  /** Filtering a one-element sequence. */
  lemma FilterSingleton<T>(x: T, p: T -> bool)
    ensures Filter([x], p) == if p(x) then [x] else []
  {
  }

  /** Filtering a non-empty sequence: its first element, if kept, comes
      first. */
  lemma FilterFront<T>(s: seq<T>, p: T -> bool)
    requires s != []
    ensures p(s[0]) ==> Filter(s, p) == [s[0]] + Filter(s[1..], p)
    ensures !p(s[0]) ==> Filter(s, p) == Filter(s[1..], p)
  {
    assert s == [s[0]] + s[1..];
    FilterConcat([s[0]], s[1..], p);
    FilterSingleton(s[0], p);
  }

  /** A filter keeps everything when every element satisfies the predicate. */
  lemma {:induction false} FilterAll<T>(s: seq<T>, p: T -> bool)
    requires forall i :: 0 <= i < |s| ==> p(s[i])
    ensures Filter(s, p) == s
    decreases |s|
  {
    if s != [] {
      var n := |s| - 1;
      var s' := s[..n];
      assert forall i :: 0 <= i < |s'| ==> p(s'[i]) by {
        forall i | 0 <= i < |s'| ensures p(s'[i]) {
          assert s'[i] == s[i];
        }
      }
      FilterAll(s', p);
      assert p(s[n]);
      assert s == s' + [s[n]];
    }
  }

  /** A filter keeps nothing when no element satisfies the predicate. */
  lemma {:induction false} FilterNone<T>(s: seq<T>, p: T -> bool)
    requires forall i :: 0 <= i < |s| ==> !p(s[i])
    ensures Filter(s, p) == []
    decreases |s|
  {
    if s != [] {
      var s' := s[..|s| - 1];
      assert forall i :: 0 <= i < |s'| ==> !p(s'[i]) by {
        forall i | 0 <= i < |s'| ensures !p(s'[i]) {
          assert s'[i] == s[i];
        }
      }
      FilterNone(s', p);
    }
  }

  /** No element satisfies `p` exactly when none is counted. */
  lemma {:induction false} CountZero<T>(s: seq<T>, p: T -> bool)
    ensures Count(s, p) == 0 <==> forall i :: 0 <= i < |s| ==> !p(s[i])
    decreases |s|
  {
    if s != [] {
      var n := |s| - 1;
      CountZero(s[..n], p);
      if Count(s, p) == 0 {
        forall i | 0 <= i < |s|
          ensures !p(s[i])
        {
          if i < n {
            assert s[i] == s[..n][i];
          }
        }
      }
    }
  }
}
