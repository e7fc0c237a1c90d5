/**
 * Generic sequence operations shared by the filters and the message store:
 * order-preserving selection (LINQ `Where(...).ToList()`, `List.RemoveAll`,
 * a Python list comprehension with an `if`), subsequences and substrings.
 */
module Sequences {

  /** Keeps, in order, the elements of `s` that satisfy `p`. */
  function Where<T(!new)>(s: seq<T>, p: T -> bool): (r: seq<T>)
    ensures |r| <= |s|
    ensures forall x :: x in r <==> x in s && p(x)
  {
    if s == [] then []
    else
      var rest := Where(s[1..], p);
      if p(s[0]) then [s[0]] + rest else rest
  }

  /** Selection over three elements of which the middle one fails. */
  lemma WhereKeepDropKeep<T(!new)>(a: T, b: T, c: T, p: T -> bool)
    requires p(a) && !p(b) && p(c)
    ensures Where([a, b, c], p) == [a, c]
  {
    assert [a, b, c][1..] == [b, c];
    assert [b, c][1..] == [c];
    assert [c][1..] == [];
  }

  /** Every element that passes keeps its multiplicity; every other one disappears. */
  lemma {:induction false} WhereCounts<T(!new)>(s: seq<T>, p: T -> bool, x: T)
    ensures multiset(Where(s, p))[x] == if p(x) then multiset(s)[x] else 0
  {
    if s != [] {
      WhereCounts(s[1..], p, x);
      assert s == [s[0]] + s[1..];
    }
  }

  /** `r` can be obtained from `s` by deleting elements, without reordering the rest. */
  predicate IsSubsequence<T(==)>(r: seq<T>, s: seq<T>)
    decreases |s|
  {
    r == [] || (s != [] && ((r[0] == s[0] && IsSubsequence(r[1..], s[1..])) || IsSubsequence(r, s[1..])))
  }

  lemma {:induction false} IsSubsequenceReflexive<T>(s: seq<T>)
    ensures IsSubsequence(s, s)
  {
    if s != [] {
      IsSubsequenceReflexive(s[1..]);
    }
  }

  lemma {:induction false} WhereIsSubsequence<T(!new)>(s: seq<T>, p: T -> bool)
    ensures IsSubsequence(Where(s, p), s)
  {
    if s != [] {
      WhereIsSubsequence(s[1..], p);
      var r := Where(s, p);
      if p(s[0]) {
        assert r[0] == s[0] && r[1..] == Where(s[1..], p);
      }
    }
  }

  /** Selecting from a sequence all of whose elements pass changes nothing. */
  lemma {:induction false} WhereAllPass<T(!new)>(s: seq<T>, p: T -> bool)
    requires forall i :: 0 <= i < |s| ==> p(s[i])
    ensures Where(s, p) == s
  {
    if s != [] {
      WhereAllPass(s[1..], p);
    }
  }

  /** Selecting from a sequence none of whose elements pass yields nothing. */
  lemma {:induction false} WhereNonePass<T(!new)>(s: seq<T>, p: T -> bool)
    requires forall i :: 0 <= i < |s| ==> !p(s[i])
    ensures Where(s, p) == []
  {
    if s != [] {
      WhereNonePass(s[1..], p);
    }
  }

  lemma WhereCountsAll<T(!new)>(s: seq<T>, p: T -> bool)
    ensures forall x :: multiset(Where(s, p))[x] == if p(x) then multiset(s)[x] else 0
  {
    forall x ensures multiset(Where(s, p))[x] == if p(x) then multiset(s)[x] else 0 {
      WhereCounts(s, p, x);
    }
  }

  lemma WhereIdempotent<T(!new)>(s: seq<T>, p: T -> bool)
    ensures Where(Where(s, p), p) == Where(s, p)
  {
    var r := Where(s, p);
    forall i | 0 <= i < |r| ensures p(r[i]) {
      assert r[i] in r;
    }
    WhereAllPass(r, p);
  }

  /** Selection distributes over concatenation. */
  lemma {:induction false} WhereAppend<T(!new)>(a: seq<T>, b: seq<T>, p: T -> bool)
    ensures Where(a + b, p) == Where(a, p) + Where(b, p)
  {
    if a != [] {
      WhereAppend(a[1..], b, p);
      assert (a + b)[1..] == a[1..] + b;
      assert (a + b)[0] == a[0];
    } else {
      assert a + b == b;
    }
  }

  /** Selecting by `p` and by its negation splits `s` into two parts that together hold every element. */
  lemma {:induction false} WhereComplement<T(!new)>(s: seq<T>, p: T -> bool, q: T -> bool)
    requires forall x :: q(x) == !p(x)
    ensures |Where(s, p)| + |Where(s, q)| == |s|
    ensures multiset(Where(s, p)) + multiset(Where(s, q)) == multiset(s)
  {
    if s != [] {
      WhereComplement(s[1..], p, q);
      assert s == [s[0]] + s[1..];
    }
  }

  /** `k` occurs in `s` starting at index `i`. */
  ghost predicate OccursAt<T>(k: seq<T>, s: seq<T>, i: int)
  {
    0 <= i && i + |k| <= |s| && s[i..i + |k|] == k
  }

  /** `k` is a contiguous part of `s` (Python's `k in s`, .NET's `s.Contains(k)`). */
  predicate IsSubstring<T(==)>(k: seq<T>, s: seq<T>)
    decreases |s|
  {
    k <= s || (s != [] && IsSubstring(k, s[1..]))
  }

  /** Nothing longer than `s` occurs in it. */
  lemma {:induction false} LongerIsNotSubstring<T>(k: seq<T>, s: seq<T>)
    requires |s| < |k|
    ensures !IsSubstring(k, s)
  {
    if s != [] {
      LongerIsNotSubstring(k, s[1..]);
    }
  }

  lemma {:induction false} IsSubstringIffOccurs<T>(k: seq<T>, s: seq<T>)
    ensures IsSubstring(k, s) <==> exists i :: OccursAt(k, s, i)
  {
    if k <= s {
      assert OccursAt(k, s, 0);
    } else if s != [] {
      IsSubstringIffOccurs(k, s[1..]);
      if IsSubstring(k, s[1..]) {
        var i :| OccursAt(k, s[1..], i);
        assert s[1..][i..i + |k|] == s[i + 1..i + 1 + |k|];
        assert OccursAt(k, s, i + 1);
      }
      if exists i :: OccursAt(k, s, i) {
        var i :| OccursAt(k, s, i);
        if i > 0 {
          assert s[1..][i - 1..i - 1 + |k|] == s[i..i + |k|];
          assert OccursAt(k, s[1..], i - 1);
        }
      }
    }
  }
}
