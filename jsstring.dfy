/** The JavaScript string operations the generator relies on:
    `String.prototype.trim()` and `replace(/\s/g, '')`. Both use the same
    set of white-space characters, ECMAScript's WhiteSpace and
    LineTerminator productions. */
module JsString {

  /** A character matched by `\s` and removed by `trim()`. */
  predicate IsWhitespace(c: char)
  {
    || ('\U{9}' <= c <= '\U{D}')          // tab, line feed, vertical tab, form feed, carriage return
    || c == '\U{20}' || c == '\U{A0}' || c == '\U{1680}'
    || ('\U{2000}' <= c <= '\U{200A}')
    || c == '\U{2028}' || c == '\U{2029}'  // line and paragraph separators
    || c == '\U{202F}' || c == '\U{205F}' || c == '\U{3000}'
    || c == '\U{FEFF}'                     // byte order mark
  }

  predicate AllWhitespace(s: string)
  {
    forall i :: 0 <= i < |s| ==> IsWhitespace(s[i])
  }

  predicate NoWhitespace(s: string)
  {
    forall i :: 0 <= i < |s| ==> !IsWhitespace(s[i])
  }

  /** The scan `trim()` makes from the front: the first index at or after
      `i` that does not hold white space, or `|s|`. */
  function SkipForward(s: string, i: nat): (n: nat)
    requires i <= |s|
    ensures i <= n <= |s|
    ensures forall k :: i <= k < n ==> IsWhitespace(s[k])
    ensures n == |s| || !IsWhitespace(s[n])
    decreases |s| - i
  {
    if i < |s| && IsWhitespace(s[i]) then SkipForward(s, i + 1) else i
  }

  /** The scan `trim()` makes from the back: the least `n <= j` such that
      everything from `n` up to `j` is white space. */
  function SkipBackward(s: string, j: nat): (n: nat)
    requires j <= |s|
    ensures n <= j
    ensures forall k :: n <= k < j ==> IsWhitespace(s[k])
    ensures n == 0 || !IsWhitespace(s[n - 1])
  {
    if j > 0 && IsWhitespace(s[j - 1]) then SkipBackward(s, j - 1) else j
  }

  /** The forward scan stops at the one place it can: the end of the
      white-space run that starts at `i`. */
  lemma SkipForwardUnique(s: string, i: nat, n: nat)
    requires i <= n <= |s|
    requires forall k :: i <= k < n ==> IsWhitespace(s[k])
    requires n == |s| || !IsWhitespace(s[n])
    ensures SkipForward(s, i) == n
  {
  }

  /** The backward scan stops at the start of the white-space run that
      ends at `j`. */
  lemma SkipBackwardUnique(s: string, j: nat, n: nat)
    requires n <= j <= |s|
    requires forall k :: n <= k < j ==> IsWhitespace(s[k])
    requires n == 0 || !IsWhitespace(s[n - 1])
    ensures SkipBackward(s, j) == n
  {
  }

  /** Drops the white space at the front: the result is the longest suffix
      of `s` that does not start with white space. */
  function TrimStart(s: string): (r: string)
    ensures |r| <= |s| && r == s[|s| - |r|..]
    ensures forall k :: 0 <= k < |s| - |r| ==> IsWhitespace(s[k])
    ensures r == [] || !IsWhitespace(r[0])
  {
    s[SkipForward(s, 0)..]
  }

  /** Drops the white space at the end: the result is the longest prefix
      of `s` that does not end with white space. */
  function TrimEnd(s: string): (r: string)
    ensures |r| <= |s| && r == s[..|r|]
    ensures forall k :: |r| <= k < |s| ==> IsWhitespace(s[k])
    ensures r == [] || !IsWhitespace(r[|r| - 1])
  {
    s[..SkipBackward(s, |s|)]
  }

  /** `s.trim()`. */
  function Trim(s: string): string
  {
    TrimEnd(TrimStart(s))
  }

  /** `s.replace(/\s/g, '')`: every white-space character removed. */
  function RemoveWhitespace(s: string): (r: string)
    ensures NoWhitespace(r)
    ensures |r| <= |s|
  {
    if s == [] then []
    else if IsWhitespace(s[0]) then RemoveWhitespace(s[1..])
    else [s[0]] + RemoveWhitespace(s[1..])
  }

  /** Trim keeps the middle of the string: the slice that starts after the
      leading white space and is followed only by white space. */
  lemma TrimIsSlice(s: string)
    ensures var i, r := |s| - |TrimStart(s)|, Trim(s);
      && i + |r| <= |s| && r == s[i..i + |r|]
      && (forall k :: 0 <= k < i ==> IsWhitespace(s[k]))
      && (forall k :: i + |r| <= k < |s| ==> IsWhitespace(s[k]))
  {
    var t := TrimStart(s);
    var r := TrimEnd(t);
    var i := |s| - |t|;
    forall k | i + |r| <= k < |s|
      ensures IsWhitespace(s[k])
    {
      assert s[k] == t[k - i];
    }
  }

  /** Nothing at either end of a trimmed string is white space. */
  lemma TrimEnds(s: string)
    ensures var r := Trim(s);
      r == [] || (!IsWhitespace(r[0]) && !IsWhitespace(r[|r| - 1]))
  {
    var t := TrimStart(s);
    var r := TrimEnd(t);
    if r != [] {
      assert r[0] == t[0];
    }
  }

  lemma {:induction false} RemoveWhitespaceAppend(a: string, b: string)
    ensures RemoveWhitespace(a + b) == RemoveWhitespace(a) + RemoveWhitespace(b)
    decreases |a|
  {
    if a == [] {
      assert a + b == b;
    } else {
      assert (a + b)[0] == a[0];
      assert (a + b)[1..] == a[1..] + b;
      RemoveWhitespaceAppend(a[1..], b);
    }
  }

  lemma {:induction false} RemoveAllWhitespace(s: string)
    requires AllWhitespace(s)
    ensures RemoveWhitespace(s) == []
    decreases |s|
  {
    if s != [] {
      RemoveAllWhitespace(s[1..]);
    }
  }

  lemma {:induction false} RemoveNoWhitespace(s: string)
    requires NoWhitespace(s)
    ensures RemoveWhitespace(s) == s
    decreases |s|
  {
    if s != [] {
      RemoveNoWhitespace(s[1..]);
    }
  }

  lemma RemoveWhitespaceTrimStart(s: string)
    ensures RemoveWhitespace(TrimStart(s)) == RemoveWhitespace(s)
  {
    var i := |s| - |TrimStart(s)|;
    assert s == s[..i] + s[i..];
    RemoveWhitespaceAppend(s[..i], s[i..]);
    assert AllWhitespace(s[..i]) by {
      forall k | 0 <= k < i
        ensures IsWhitespace(s[..i][k])
      {
        assert s[..i][k] == s[k];
      }
    }
    RemoveAllWhitespace(s[..i]);
  }

  lemma RemoveWhitespaceTrimEnd(s: string)
    ensures RemoveWhitespace(TrimEnd(s)) == RemoveWhitespace(s)
  {
    var n := |TrimEnd(s)|;
    assert s == s[..n] + s[n..];
    RemoveWhitespaceAppend(s[..n], s[n..]);
    assert AllWhitespace(s[n..]) by {
      forall k | 0 <= k < |s| - n
        ensures IsWhitespace(s[n..][k])
      {
        assert s[n..][k] == s[n + k];
      }
    }
    RemoveAllWhitespace(s[n..]);
  }

  /** Trimming before removing all white space changes nothing: the
      `trim()` in front of `replace(/\s/g, '')` is redundant. */
  lemma TrimThenRemove(s: string)
    ensures RemoveWhitespace(Trim(s)) == RemoveWhitespace(s)
  {
    RemoveWhitespaceTrimStart(s);
    RemoveWhitespaceTrimEnd(TrimStart(s));
  }

  /** White space added around a string is what `trim()` takes away. */
  lemma TrimPadding(a: string, s: string, b: string)
    requires AllWhitespace(a) && AllWhitespace(b)
    ensures Trim(a + s + b) == Trim(s)
  {
    assert a + s + b == a + (s + b);
    TrimStartPadding(a, s + b);
    TrimStartAppend(s, b);
    var t := TrimStart(s);
    if TrimStart(s + b) == t + b {
      TrimEndPadding(t, b);
    }
  }

  /** White space in front of `s` is all that `trimStart` removes from it. */
  lemma TrimStartPadding(a: string, s: string)
    requires AllWhitespace(a)
    ensures TrimStart(a + s) == TrimStart(s)
  {
    var x := a + s;
    var n := SkipForward(s, 0);
    forall k | 0 <= k < |a| + n
      ensures IsWhitespace(x[k])
    {
      if k >= |a| {
        assert x[k] == s[k - |a|];
      }
    }
    if n < |s| {
      assert x[|a| + n] == s[n];
    }
    SkipForwardUnique(x, 0, |a| + n);
    assert x[|a| + n..] == s[n..];
  }

  /** White space after `s` is kept by `trimStart`, unless `s` is all
      white space. */
  lemma TrimStartAppend(s: string, b: string)
    requires AllWhitespace(b)
    ensures TrimStart(s + b) == TrimStart(s) + b || (TrimStart(s + b) == [] && TrimStart(s) == [])
  {
    var x := s + b;
    var n := SkipForward(s, 0);
    if n < |s| {
      assert x[n] == s[n];
      SkipForwardUnique(x, 0, n);
      assert x[n..] == s[n..] + b;
    } else {
      forall k | 0 <= k < |x|
        ensures IsWhitespace(x[k])
      {
        if k >= |s| {
          assert x[k] == b[k - |s|];
        }
      }
      SkipForwardUnique(x, 0, |x|);
    }
  }

  /** White space after `s` is all that `trimEnd` removes from it. */
  lemma TrimEndPadding(s: string, b: string)
    requires AllWhitespace(b)
    ensures TrimEnd(s + b) == TrimEnd(s)
  {
    var x := s + b;
    var n := SkipBackward(s, |s|);
    forall k | n <= k < |x|
      ensures IsWhitespace(x[k])
    {
      if k >= |s| {
        assert x[k] == b[k - |s|];
      } else {
        assert x[k] == s[k];
      }
    }
    if n > 0 {
      assert x[n - 1] == s[n - 1];
    }
    SkipBackwardUnique(x, |x|, n);
    assert x[..n] == s[..n];
  }
}
