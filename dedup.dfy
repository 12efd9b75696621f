/**
  De-duplication of the requested language codes (`removeDuplicates`):
  the first occurrence of every code is kept, in input order.
 */
module Dedup {

  predicate NoDuplicates<T(==)>(s: seq<T>) {
    forall i, j :: 0 <= i < j < |s| ==> s[i] != s[j]
  }

  /** `a` is `b` with some elements left out. */
  predicate IsSubsequence<T(==)>(a: seq<T>, b: seq<T>)
    decreases |b|
  {
    if |a| == 0 then true
    else if |b| == 0 then false
    else if a[|a| - 1] == b[|b| - 1] then IsSubsequence(a[..|a| - 1], b[..|b| - 1])
    else IsSubsequence(a, b[..|b| - 1])
  }

  /** The elements of `s` that do not occur earlier in `s`, in order. */
  function FirstOccurrences<T(==)>(s: seq<T>): (r: seq<T>)
    decreases |s|
  {
    if |s| == 0 then []
    else if s[|s| - 1] in s[..|s| - 1] then FirstOccurrences(s[..|s| - 1])
    else FirstOccurrences(s[..|s| - 1]) + [s[|s| - 1]]
  }

  method RemoveDuplicates(queries: seq<string>) returns (result: seq<string>)
    ensures result == FirstOccurrences(queries)
  {
    var encountered: map<string, bool> := map[];
    result := [];
    var v := 0;
    while v < |queries|
      invariant 0 <= v <= |queries|
      invariant result == FirstOccurrences(queries[..v])
      invariant forall q :: q in encountered <==> q in queries[..v]
      invariant forall q :: q in encountered ==> encountered[q]
    {
      assert queries[..v + 1][..v] == queries[..v];
      if queries[v] in encountered && encountered[queries[v]] {
        // already seen
      } else {
        encountered := encountered[queries[v] := true];
        result := result + [queries[v]];
      }
      v := v + 1;
    }
    assert queries[..v] == queries;
  }

  /** The result holds exactly the input's elements, each once. */
  lemma {:induction false} FirstOccurrencesElements<T>(s: seq<T>)
    ensures forall x :: x in FirstOccurrences(s) <==> x in s
    ensures NoDuplicates(FirstOccurrences(s))
    decreases |s|
  {
    if |s| > 0 {
      var init := s[..|s| - 1];
      FirstOccurrencesElements(init);
      assert s == init + [s[|s| - 1]];
    }
  }

  /** The result is obtained from the input by leaving elements out. */
  lemma {:induction false} FirstOccurrencesSubsequence<T>(s: seq<T>)
    ensures IsSubsequence(FirstOccurrences(s), s)
    decreases |s|
  {
    if |s| > 0 {
      var init := s[..|s| - 1];
      var x := s[|s| - 1];
      FirstOccurrencesSubsequence(init);
      if x in init {
        assert FirstOccurrences(s) == FirstOccurrences(init);
        SubsequenceExtend(FirstOccurrences(init), init, x);
        assert init + [x] == s;
      } else {
        var r := FirstOccurrences(s);
        assert r == FirstOccurrences(init) + [x];
        assert r[..|r| - 1] == FirstOccurrences(init) && r[|r| - 1] == x;
      }
    }
  }

  /** Appending to the longer sequence keeps a subsequence a subsequence. */
  lemma {:induction false} SubsequenceExtend<T>(a: seq<T>, b: seq<T>, x: T)
    requires IsSubsequence(a, b)
    ensures IsSubsequence(a, b + [x])
    decreases |b|, 1
  {
    var b' := b + [x];
    assert b'[..|b'| - 1] == b;
    if |a| > 0 && a[|a| - 1] == x {
      SubsequenceShrink(a, b);
    }
  }

  /** Dropping the last element of a subsequence keeps it a subsequence. */
  lemma {:induction false} SubsequenceShrink<T>(a: seq<T>, b: seq<T>)
    requires |a| > 0 && IsSubsequence(a, b)
    ensures IsSubsequence(a[..|a| - 1], b)
    decreases |b|, 0
  {
    var b' := b[..|b| - 1];
    assert b' + [b[|b| - 1]] == b;
    if a[|a| - 1] != b[|b| - 1] {
      SubsequenceShrink(a, b');
    }
    SubsequenceExtend(a[..|a| - 1], b', b[|b| - 1]);
  }

  /** Leaving elements out of a sequence without repetitions leaves a
      sequence without repetitions, drawn from the same elements. */
  lemma {:induction false} SubsequenceDistinct<T>(a: seq<T>, b: seq<T>)
    requires IsSubsequence(a, b) && NoDuplicates(b)
    ensures NoDuplicates(a)
    ensures forall x :: x in a ==> x in b
    decreases |b|
  {
    if |a| > 0 {
      var b' := b[..|b| - 1];
      assert b == b' + [b[|b| - 1]];
      assert NoDuplicates(b');
      if a[|a| - 1] == b[|b| - 1] {
        var a' := a[..|a| - 1];
        SubsequenceDistinct(a', b');
        assert a == a' + [a[|a| - 1]];
        assert b[|b| - 1] !in b' by {
          forall k | 0 <= k < |b'| ensures b'[k] != b[|b| - 1] {
            assert b'[k] == b[k];
          }
        }
        forall i, j | 0 <= i < j < |a| ensures a[i] != a[j] {
          assert a[i] == a'[i] && a'[i] in a';
          if j < |a| - 1 {
            assert a[j] == a'[j];
          }
        }
      } else {
        SubsequenceDistinct(a, b');
      }
    }
  }

  /** First-occurrence order: an element placed before another in the result
      occurs in the input before every occurrence of the other one. */
  predicate InFirstOccurrenceOrder<T(==)>(r: seq<T>, s: seq<T>) {
    forall i, j, k :: 0 <= i < j < |r| && 0 <= k < |s| && s[k] == r[j] ==> r[i] in s[..k]
  }

  lemma {:induction false} FirstOccurrencesOrder<T>(s: seq<T>)
    ensures InFirstOccurrenceOrder(FirstOccurrences(s), s)
    decreases |s|
  {
    if |s| > 0 {
      var init := s[..|s| - 1];
      var x := s[|s| - 1];
      FirstOccurrencesOrder(init);
      FirstOccurrencesElements(init);
      var r := FirstOccurrences(s);
      var r' := FirstOccurrences(init);
      assert InFirstOccurrenceOrder(r', init);
      forall i, j, k | 0 <= i < j < |r| && 0 <= k < |s| && s[k] == r[j]
        ensures r[i] in s[..k]
      {
        assert r == r' || r == r' + [x];
        assert i < |r'| && r[i] == r'[i] && r'[i] in r';
        if k == |s| - 1 {
          assert s[..k] == init;
        } else {
          assert s[k] == init[k];
        }
        if k < |s| - 1 && j < |r'| {
          assert r[j] == r'[j] && init[k] == r'[j];
          assert r'[i] in init[..k];
          assert s[..k] == init[..k];
        }
      }
    }
  }

  /** A sequence without repetitions is its own de-duplication. */
  lemma {:induction false} FirstOccurrencesOfDistinct<T>(s: seq<T>)
    requires NoDuplicates(s)
    ensures FirstOccurrences(s) == s
    decreases |s|
  {
    if |s| > 0 {
      var init := s[..|s| - 1];
      assert NoDuplicates(init);
      FirstOccurrencesOfDistinct(init);
      assert s[|s| - 1] !in init by {
        forall k | 0 <= k < |init| ensures init[k] != s[|s| - 1] {
          assert init[k] == s[k];
        }
      }
      assert init + [s[|s| - 1]] == s;
    }
  }

  /** De-duplicating twice is de-duplicating once. */
  lemma FirstOccurrencesIdempotent<T>(s: seq<T>)
    ensures FirstOccurrences(FirstOccurrences(s)) == FirstOccurrences(s)
  {
    FirstOccurrencesElements(s);
    FirstOccurrencesOfDistinct(FirstOccurrences(s));
  }
}
