/** The two small computations at the head of `generate`: normalising the
    typed username and deriving the member number from the hash. */
module Username {
  import opened JsString
  import opened Lcg

  datatype Option<T> = None | Some(value: T)

  /** The message `generate` alerts when nothing usable was typed. */
  const EmptyUsernameMessage: string := "Enter a username!"

  predicate IsUpperAscii(c: char)
  {
    'A' <= c <= 'Z'
  }

  /** `toLowerCase()` on one character, for the ASCII letters. */
  function LowerChar(c: char): (r: char)
    ensures !IsUpperAscii(r)
    ensures IsUpperAscii(c) ==> 'a' <= r <= 'z' && r as int - 'a' as int == c as int - 'A' as int
    ensures IsWhitespace(r) <==> IsWhitespace(c)
    ensures (r == '@') <==> (c == '@')
    ensures !IsUpperAscii(c) ==> r == c
  {
    if IsUpperAscii(c) then (c as int - 'A' as int + 'a' as int) as char else c
  }

  /** `s.toLowerCase()` for ASCII text. */
  function ToLower(s: string): (r: string)
    ensures |r| == |s|
    ensures forall i :: 0 <= i < |s| ==> r[i] == LowerChar(s[i])
  {
    seq(|s|, i requires 0 <= i < |s| => LowerChar(s[i]))
  }

  /** `replace(/^@/, '')`: at most one `@`, and only at the very start. */
  function StripLeadingAt(s: string): (r: string)
    ensures r == s || (s != [] && s[0] == '@' && r == s[1..])
    ensures s != [] && s[0] == '@' ==> r == s[1..]
  {
    if s != [] && s[0] == '@' then s[1..] else s
  }

  /** The username `generate` goes on with, or None where it alerts
      "Enter a username!" and stops. */
  function Normalize(input: string): Option<string>
  {
    var raw := StripLeadingAt(Trim(input));
    if raw == [] then None else Some(ToLower(raw))
  }

  /** `(hash[1] % 1000) + 1`. */
  function MemberId(hash1: Word): (id: nat)
    ensures 1 <= id <= 1000
    ensures (id - 1 - hash1) % 1000 == 0
  {
    hash1 % 1000 + 1
  }

  /** Every member number from 1 to 1000 is produced by some hash word. */
  lemma MemberIdOnto(id: nat)
    requires 1 <= id <= 1000
    ensures MemberId(id - 1) == id
  {
  }

  /** The input is rejected exactly when, once trimmed, it is empty or a
      lone `@`. */
  lemma NormalizeRejects(input: string)
    ensures Normalize(input).None? <==> (Trim(input) == "" || Trim(input) == "@")
  {
    var t := Trim(input);
    if t != [] && t[0] == '@' && |t| == 1 {
      assert t == "@";
    }
  }

  /** An accepted username is the trimmed input without its one leading
      `@`, lower-cased: non-empty, with no upper-case ASCII letter. */
  lemma NormalizeAccepts(input: string, u: string)
    requires Normalize(input) == Some(u)
    ensures u != [] && Trim(input) != []
    ensures Trim(input)[0] == '@' ==> |u| == |Trim(input)| - 1
    ensures Trim(input)[0] == '@' ==> forall i :: 0 <= i < |u| ==> u[i] == LowerChar(Trim(input)[i + 1])
    ensures Trim(input)[0] != '@' ==> u == ToLower(Trim(input))
    ensures forall i :: 0 <= i < |u| ==> !IsUpperAscii(u[i])
  {
    var t := Trim(input);
    if t[0] == '@' {
      assert StripLeadingAt(t) == t[1..];
    }
  }

  /** Lower-casing keeps white space where it was, so it commutes with
      `trimStart`. */
  lemma LowerTrimStart(s: string)
    ensures TrimStart(ToLower(s)) == ToLower(TrimStart(s))
  {
    var l := ToLower(s);
    var n := SkipForward(s, 0);
    forall k | 0 <= k < n
      ensures IsWhitespace(l[k])
    {
      assert l[k] == LowerChar(s[k]);
    }
    if n < |s| {
      assert l[n] == LowerChar(s[n]);
    }
    SkipForwardUnique(l, 0, n);
    assert l[n..] == ToLower(s[n..]);
  }

  /** ... and with `trimEnd`. */
  lemma LowerTrimEnd(s: string)
    ensures TrimEnd(ToLower(s)) == ToLower(TrimEnd(s))
  {
    var l := ToLower(s);
    var n := SkipBackward(s, |s|);
    forall k | n <= k < |l|
      ensures IsWhitespace(l[k])
    {
      assert l[k] == LowerChar(s[k]);
    }
    if n > 0 {
      assert l[n - 1] == LowerChar(s[n - 1]);
    }
    SkipBackwardUnique(l, |l|, n);
    assert l[..n] == ToLower(s[..n]);
  }

  lemma LowerTrim(s: string)
    ensures Trim(ToLower(s)) == ToLower(Trim(s))
  {
    LowerTrimStart(s);
    LowerTrimEnd(TrimStart(s));
  }

  lemma LowerStripLeadingAt(t: string)
    ensures StripLeadingAt(ToLower(t)) == ToLower(StripLeadingAt(t))
  {
    if t != [] {
      assert ToLower(t)[0] == LowerChar(t[0]);
      assert ToLower(t)[1..] == ToLower(t[1..]);
    }
  }

  lemma LowerIdempotent(s: string)
    ensures ToLower(ToLower(s)) == ToLower(s)
  {
  }

  /** Letter case does not matter: an input and its lower-cased form
      normalise to the same username, and so get the same avatar. */
  lemma NormalizeIgnoresCase(input: string)
    ensures Normalize(ToLower(input)) == Normalize(input)
  {
    var t := Trim(input);
    LowerTrim(input);
    LowerStripLeadingAt(t);
    LowerIdempotent(StripLeadingAt(t));
  }

  /** White space typed around the username does not matter. */
  lemma NormalizeIgnoresPadding(a: string, input: string, b: string)
    requires AllWhitespace(a) && AllWhitespace(b)
    ensures Normalize(a + input + b) == Normalize(input)
  {
    TrimPadding(a, input, b);
  }

  /** Only one `@` is stripped: "@@name" becomes "@name". */
  lemma NormalizeStripsOneAt(name: string)
    requires name != [] && NoWhitespace(name)
    ensures Normalize("@@" + name) == Some(ToLower("@" + name))
  {
    var s := "@@" + name;
    SkipForwardUnique(s, 0, 0);
    assert s[|s| - 1] == name[|name| - 1];
    SkipBackwardUnique(s, |s|, |s|);
    assert Trim(s) == s;
    assert s[1..] == "@" + name;
  }
}
