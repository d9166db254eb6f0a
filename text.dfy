/**
 * The two .NET string operations the value cleanup uses: `String.Trim()` and
 * the ordinal `String.Replace(string, string)`.
 */
module Text {

  import opened Sequences

  /** The characters `Char.IsWhiteSpace` accepts: the Unicode space, line and
      paragraph separators, the controls U+0009 to U+000D, and U+0085. */
  const WhiteSpaceChars: set<char> := {
    '\t', '\n', '\U{000B}', '\U{000C}', '\r', ' ', '\U{0085}', '\U{00A0}', '\U{1680}',
    '\U{2000}', '\U{2001}', '\U{2002}', '\U{2003}', '\U{2004}', '\U{2005}', '\U{2006}',
    '\U{2007}', '\U{2008}', '\U{2009}', '\U{200A}', '\U{2028}', '\U{2029}', '\U{202F}',
    '\U{205F}', '\U{3000}'
  }

  /** `Char.IsWhiteSpace`. */
  predicate IsWhiteSpace(c: char) {
    c in WhiteSpaceChars
  }

  predicate AllWhiteSpace(s: string) {
    forall i :: 0 <= i < |s| ==> IsWhiteSpace(s[i])
  }

  /** Neither begins nor ends with white space. */
  predicate IsTrimmed(s: string) {
    s == [] || (!IsWhiteSpace(s[0]) && !IsWhiteSpace(s[|s| - 1]))
  }

  /** How many white-space characters `s` begins with. */
  function LeadingWhiteSpace(s: string): (n: nat)
    ensures n <= |s|
    ensures forall i :: 0 <= i < n ==> IsWhiteSpace(s[i])
    ensures n < |s| ==> !IsWhiteSpace(s[n])
  {
    if s != [] && IsWhiteSpace(s[0]) then 1 + LeadingWhiteSpace(s[1..]) else 0
  }

  /** How many white-space characters `s` ends with. */
  function TrailingWhiteSpace(s: string): (n: nat)
    ensures n <= |s|
    ensures forall i :: |s| - n <= i < |s| ==> IsWhiteSpace(s[i])
    ensures n < |s| ==> !IsWhiteSpace(s[|s| - 1 - n])
  {
    if s != [] && IsWhiteSpace(s[|s| - 1]) then 1 + TrailingWhiteSpace(s[..|s| - 1]) else 0
  }

  /** `String.TrimStart()`. */
  function TrimStart(s: string): string {
    s[LeadingWhiteSpace(s)..]
  }

  /** `String.TrimEnd()`. */
  function TrimEnd(s: string): string {
    s[..|s| - TrailingWhiteSpace(s)]
  }

  /** `String.Trim()`: the middle of `s` once the white space at both ends is cut. */
  function Trim(s: string): (r: string)
    ensures IsTrimmed(r)
    ensures |r| <= |s|
  {
    var t := TrimStart(s);
    var r := TrimEnd(t);
    assert r != [] ==> r[0] == t[0] == s[LeadingWhiteSpace(s)];
    r
  }

  /** A white-space prefix before non-white text is exactly the leading white space. */
  lemma {:induction false} LeadingOfMargin(a: string, u: string)
    requires AllWhiteSpace(a) && (u == [] || !IsWhiteSpace(u[0]))
    ensures LeadingWhiteSpace(a + u) == |a|
    decreases |a|
  {
    if a == [] {
      assert a + u == u;
    } else {
      assert (a + u)[0] == a[0];
      assert (a + u)[1..] == a[1..] + u;
      LeadingOfMargin(a[1..], u);
    }
  }

  /** A white-space suffix after non-white text is exactly the trailing white space. */
  lemma {:induction false} TrailingOfMargin(u: string, b: string)
    requires AllWhiteSpace(b) && (u == [] || !IsWhiteSpace(u[|u| - 1]))
    ensures TrailingWhiteSpace(u + b) == |b|
    decreases |b|
  {
    if b == [] {
      assert u + b == u;
    } else {
      var b' := b[..|b| - 1];
      assert (u + b)[|u + b| - 1] == b[|b| - 1];
      assert (u + b)[..|u + b| - 1] == u + b';
      TrailingOfMargin(u, b');
    }
  }

  /** Trim removes exactly the white-space margins: whatever white space `a`
      and `b` hold, and whichever trimmed string `m` stands between them. */
  lemma TrimOfMargins(a: string, m: string, b: string)
    requires AllWhiteSpace(a) && AllWhiteSpace(b) && IsTrimmed(m)
    ensures Trim(a + m + b) == m
  {
    if m == [] {
      var ab := a + b;
      assert AllWhiteSpace(ab) by {
        assert forall i :: 0 <= i < |ab| ==> ab[i] == if i < |a| then a[i] else b[i - |a|];
      }
      assert a + m + b == ab + [];
      LeadingOfMargin(ab, []);
      assert TrimStart(ab) == [];
    } else {
      assert a + m + b == a + (m + b);
      assert (m + b)[0] == m[0];
      LeadingOfMargin(a, m + b);
      assert (a + (m + b))[|a|..] == m + b;
      TrailingOfMargin(m, b);
      assert (m + b)[..|m|] == m;
    }
  }

  /** A string without white space at either end is its own trim. */
  lemma TrimOfTrimmed(m: string)
    requires IsTrimmed(m)
    ensures Trim(m) == m
  {
    assert [] + m + [] == m;
    TrimOfMargins([], m, []);
  }

  /** Trimming twice changes nothing more than trimming once. */
  lemma TrimIdempotent(s: string)
    ensures Trim(Trim(s)) == Trim(s)
  {
    var m := Trim(s);
    assert [] + m + [] == m;
    TrimOfMargins([], m, []);
  }

  /** Trim gives "" exactly for white space alone. */
  lemma TrimEmpty(s: string)
    ensures Trim(s) == [] <==> AllWhiteSpace(s)
  {
    if AllWhiteSpace(s) {
      assert s == s + [] + [];
      TrimOfMargins(s, [], []);
    }
  }

  /** `p` occurs somewhere in `s`. */
  predicate Contains(s: string, p: string)
    decreases |s|
  {
    p <= s || (|s| > 0 && Contains(s[1..], p))
  }

  /** `String.Replace(oldValue, newValue)` with ordinal comparison: one scan from
      left to right that replaces each non-overlapping occurrence of `oldValue`.
      .NET throws for an empty `oldValue`; Program.cs only passes a constant. */
  function Replace(s: string, oldValue: string, newValue: string): (r: string)
    requires oldValue != []
    ensures newValue == [] ==> |r| <= |s|
    decreases |s|
  {
    if s == [] then []
    else if oldValue <= s then newValue + Replace(s[|oldValue|..], oldValue, newValue)
    else [s[0]] + Replace(s[1..], oldValue, newValue)
  }

  /** Removing each occurrence the left-to-right pass finds only deletes characters: the
      result is a subsequence of the input, hence no longer than it. */
  lemma {:induction false} RemoveIsSubsequence(s: string, p: string)
    requires p != []
    ensures IsSubsequence(Replace(s, p, ""), s)
    ensures |Replace(s, p, "")| <= |s|
    decreases |s|
  {
    if s != [] {
      var r := Replace(s, p, "");
      if p <= s {
        RemoveIsSubsequence(s[|p|..], p);
        assert r == Replace(s[|p|..], p, "");
        assert s == s[..|p|] + s[|p|..];
        SubsequenceUnderPrefix(r, s[|p|..], s[..|p|]);
      } else {
        RemoveIsSubsequence(s[1..], p);
        assert r == [s[0]] + Replace(s[1..], p, "");
        assert r[1..] == Replace(s[1..], p, "");
        assert r[0] == s[0];
      }
    }
  }

  /** Trimming only deletes characters. */
  lemma TrimIsSubsequence(s: string)
    ensures IsSubsequence(Trim(s), s)
  {
    var k := LeadingWhiteSpace(s);
    var t := s[k..];
    var m := |t| - TrailingWhiteSpace(t);
    assert Trim(s) == t[0..m];
    SliceIsSubsequence(t, 0, m);
    assert IsSubsequence(Trim(s), t);
    SliceIsSubsequence(s, k, |s|);
    assert s[k..|s|] == t;
    assert IsSubsequence(t, s);
    SubsequenceTransitive(Trim(s), t, s);
  }

  /** Removing a pattern and trimming only deletes characters. */
  lemma RemoveThenTrimKeepsOrder(s: string, p: string)
    requires p != []
    ensures IsSubsequence(Trim(Replace(s, p, "")), s)
    ensures |Trim(Replace(s, p, ""))| <= |s|
  {
    var removed := Replace(s, p, "");
    TrimIsSubsequence(removed);
    RemoveIsSubsequence(s, p);
    SubsequenceTransitive(Trim(removed), removed, s);
  }

  /** A string without any occurrence of the pattern comes back unchanged. */
  lemma {:induction false} ReplaceWithoutOccurrence(s: string, oldValue: string, newValue: string)
    requires oldValue != [] && !Contains(s, oldValue)
    ensures Replace(s, oldValue, newValue) == s
    decreases |s|
  {
    if s != [] {
      ReplaceWithoutOccurrence(s[1..], oldValue, newValue);
    }
  }

  /** Text shorter than the pattern holds no occurrence of it. */
  lemma {:induction false} ReplaceShort(s: string, oldValue: string, newValue: string)
    requires oldValue != [] && |s| < |oldValue|
    ensures Replace(s, oldValue, newValue) == s
    decreases |s|
  {
    if s != [] {
      ReplaceShort(s[1..], oldValue, newValue);
    }
  }

  /** Where the text and the pattern differ within the pattern's length, the
      scan keeps the first character and moves on by one. */
  lemma ReplaceSkip(s: string, oldValue: string, newValue: string, i: nat)
    requires oldValue != [] && i < |oldValue| && i < |s| && s[i] != oldValue[i]
    ensures Replace(s, oldValue, newValue) == [s[0]] + Replace(s[1..], oldValue, newValue)
  {
  }

  /** One pass: removing the entity from text that splits another copy of it
      joins that copy up again, and the joined copy is left in place. */
  lemma ReplaceIsOnePass(text: string, p: string)
    requires p == "&nbsp;" && text == "&nb" + p + "sp;"
    ensures Replace(text, p, "") == p
  {
    OnePassTail(text, p);
    assert text == [text[0]] + text[1..];
    ReplaceSkip(text, p, "", 3);
  }

  /** The step of ReplaceIsOnePass after its first character: the split copy
      of the pattern is rejoined and the scan then meets the pattern itself. */
  lemma OnePassTail(text: string, p: string)
    requires p == "&nbsp;" && text == "&nb" + p + "sp;"
    ensures Replace(text[1..], p, "") == p[1..]
  {
    var tail := p[3..];
    var s3 := p + tail;
    var s2 := text[2..];
    assert s2 == ['b'] + s3;
    ShortTail(p, tail);
    ReplaceAtFront(p, tail, "");
    ReplaceSkip(s2, p, "", 0);
    assert s2[1..] == s3;
    ReplaceSkip(text[1..], p, "", 0);
    assert text[1..][1..] == s2;
    assert p[1..] == ['n', 'b'] + tail;
  }

  /** The tail of the pattern is shorter than the pattern, so nothing in it
      is replaced. */
  lemma ShortTail(p: string, tail: string)
    requires p == "&nbsp;" && tail == p[3..]
    ensures Replace(tail, p, "") == tail
  {
    ReplaceShort(tail, p, "");
  }

  /** Every occurrence that starts at the front of the text is replaced. */
  lemma ReplaceAtFront(oldValue: string, rest: string, newValue: string)
    requires oldValue != []
    ensures Replace(oldValue + rest, oldValue, newValue) == newValue + Replace(rest, oldValue, newValue)
  {
    assert (oldValue + rest)[|oldValue|..] == rest;
  }

  /** Text `x` in which no occurrence of the pattern starts, even one reaching
      into a following copy of it, does not begin with the pattern, and neither
      does any of its suffixes. */
  lemma NoOccurrenceBefore(x: string, p: string, y: string)
    requires p != [] && x != [] && !Contains(x + p[..|p| - 1], p)
    ensures !(p <= x + p + y)
    ensures !Contains(x[1..] + p[..|p| - 1], p)
  {
    var u := x + p[..|p| - 1];
    assert (x + p + y)[..|p|] == u[..|p|];
    assert u[1..] == x[1..] + p[..|p| - 1];
  }

  /** Where the pattern does not start the text, its first character is kept. */
  lemma ReplaceKeepsFirst(x: string, p: string, y: string, v: string)
    requires p != [] && x != [] && !(p <= x + p + y)
    ensures Replace(x + p + y, p, v) == [x[0]] + Replace(x[1..] + p + y, p, v)
  {
    var s := x + p + y;
    assert s[0] == x[0] && s[1..] == x[1..] + p + y;
  }

  /** The first occurrence of the pattern is replaced: text `x` before it, in
      which no occurrence starts (not even one reaching into the pattern), is
      kept as it is, and the scan resumes after the occurrence. */
  lemma {:induction false} ReplaceAtFirstOccurrence(x: string, p: string, y: string, v: string)
    requires p != [] && !Contains(x + p[..|p| - 1], p)
    ensures Replace(x + p + y, p, v) == x + v + Replace(y, p, v)
    decreases |x|
  {
    var rest := Replace(y, p, v);
    if x == [] {
      assert x + p + y == p + y;
      ReplaceAtFront(p, y, v);
    } else {
      NoOccurrenceBefore(x, p, y);
      ReplaceKeepsFirst(x, p, y, v);
      ReplaceAtFirstOccurrence(x[1..], p, y, v);
      calc {
        Replace(x + p + y, p, v);
        [x[0]] + Replace(x[1..] + p + y, p, v);
        [x[0]] + (x[1..] + v + rest);
        { assert x == [x[0]] + x[1..]; }
        x + v + rest;
      }
    }
  }
}
