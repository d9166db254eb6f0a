/** Order-preserving filtering, LINQ's `Where(...).ToList()`, and the subsequence order it respects. */
module Sequences {

  /** `t` is `s` with some elements deleted and the rest left in their order. */
  predicate IsSubsequence<T(==)>(t: seq<T>, s: seq<T>)
    decreases |s|
  {
    if t == [] then true
    else if s == [] then false
    else (t[0] == s[0] && IsSubsequence(t[1..], s[1..])) || IsSubsequence(t, s[1..])
  }

  /** Putting more elements in front of `s` keeps every subsequence of `s`. */
  lemma {:induction false} SubsequenceUnderPrefix<T>(t: seq<T>, s: seq<T>, x: seq<T>)
    requires IsSubsequence(t, s)
    ensures IsSubsequence(t, x + s)
    decreases |x|
  {
    if x != [] && t != [] {
      SubsequenceUnderPrefix(t, s, x[1..]);
      assert (x + s)[1..] == x[1..] + s;
      assert IsSubsequence(t, (x + s)[1..]);
    } else if x == [] {
      assert x + s == s;
    }
  }

  /** A contiguous slice is a subsequence. */
  lemma {:induction false} SliceIsSubsequence<T>(s: seq<T>, i: nat, j: nat)
    requires i <= j <= |s|
    ensures IsSubsequence(s[i..j], s)
    decreases |s|
  {
    if i < j {
      SliceIsSubsequence(s[1..], if i == 0 then 0 else i - 1, j - 1);
      if i == 0 {
        assert s[i..j][1..] == s[1..][0..j - 1];
      } else {
        assert s[i..j] == s[1..][i - 1..j - 1];
      }
    }
  }

  /** Deleting from what was obtained by deleting is deleting. */
  lemma {:induction false} SubsequenceTransitive<T>(a: seq<T>, b: seq<T>, c: seq<T>)
    requires IsSubsequence(a, b) && IsSubsequence(b, c)
    ensures IsSubsequence(a, c)
    decreases |c|
  {
    if a != [] {
      if b[0] == c[0] && IsSubsequence(b[1..], c[1..]) {
        if a[0] == b[0] && IsSubsequence(a[1..], b[1..]) {
          SubsequenceTransitive(a[1..], b[1..], c[1..]);
        } else {
          SubsequenceTransitive(a, b[1..], c[1..]);
        }
      } else {
        SubsequenceTransitive(a, b, c[1..]);
      }
    }
  }

  /** `Where(keep)`: the elements of `s` that satisfy `keep`, in their original order. */
  function Where<T(==,!new)>(s: seq<T>, keep: T -> bool): (r: seq<T>)
    ensures |r| <= |s|
    ensures forall x :: x in r <==> x in s && keep(x)
  {
    if s == [] then []
    else
      var rest := Where(s[1..], keep);
      assert forall x :: x in s <==> x == s[0] || x in s[1..];
      if keep(s[0]) then [s[0]] + rest else rest
  }

  /** `Where` keeps the relative order of the elements it keeps. */
  lemma {:induction false} WhereIsSubsequence<T(!new)>(s: seq<T>, keep: T -> bool)
    ensures IsSubsequence(Where(s, keep), s)
  {
    if s != [] {
      var rest := Where(s[1..], keep);
      WhereIsSubsequence(s[1..], keep);
      if keep(s[0]) {
        assert ([s[0]] + rest)[1..] == rest;
      } else if rest != [] {
        assert IsSubsequence(rest, s[1..]);
      }
    }
  }

  /** `Where` keeps every copy of an element it keeps and drops every copy of one it rejects. */
  lemma {:induction false} WhereMultiplicity<T(!new)>(s: seq<T>, keep: T -> bool, x: T)
    ensures multiset(Where(s, keep))[x] == if keep(x) then multiset(s)[x] else 0
  {
    if s != [] {
      WhereMultiplicity(s[1..], keep, x);
      assert s == [s[0]] + s[1..];
    }
  }
}
