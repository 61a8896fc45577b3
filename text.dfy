/** Character classes and whitespace stripping used by the request-body
    validators. Whitespace is the Unicode White_Space set, which is what both
    the stripping of `strip_whitespace` and the `\s` class of the patterns
    match. */
module Text {

  predicate IsWhitespace(c: char) {
    || c == ' '
    || ('\t' <= c <= '\r')
    || c == '\U{85}' || c == '\U{A0}' || c == '\U{1680}'
    || ('\U{2000}' <= c <= '\U{200A}')
    || c == '\U{2028}' || c == '\U{2029}' || c == '\U{202F}' || c == '\U{205F}' || c == '\U{3000}'
  }

  predicate IsAsciiLetter(c: char) { ('a' <= c <= 'z') || ('A' <= c <= 'Z') }

  predicate IsAsciiDigit(c: char) { '0' <= c <= '9' }

  /** The class `가-힣`: the precomposed Hangul syllables U+AC00..U+D7A3. */
  predicate IsHangulSyllable(c: char) { '\U{AC00}' <= c <= '\U{D7A3}' }

  /** `^[class]+$` against the whole string. */
  predicate AllIn(s: string, inClass: char -> bool) {
    |s| > 0 && forall i :: 0 <= i < |s| ==> inClass(s[i])
  }

  /** No whitespace at either end. */
  predicate Stripped(s: string) {
    s == [] || (!IsWhitespace(s[0]) && !IsWhitespace(s[|s| - 1]))
  }

  function TrimStart(s: string): (r: string)
    ensures |r| <= |s|
    ensures r == [] || !IsWhitespace(r[0])
    ensures forall i :: 0 <= i < |s| - |r| ==> IsWhitespace(s[i])
  {
    if s != [] && IsWhitespace(s[0]) then TrimStart(s[1..]) else s
  }

  function TrimEnd(s: string): (r: string)
    ensures |r| <= |s|
    ensures r == [] || !IsWhitespace(r[|r| - 1])
    ensures forall i :: |r| <= i < |s| ==> IsWhitespace(s[i])
  {
    if s != [] && IsWhitespace(s[|s| - 1]) then TrimEnd(s[..|s| - 1]) else s
  }

  /** The validator's `strip_whitespace`: drop surrounding Unicode White_Space. */
  function Strip(s: string): (r: string)
    ensures Stripped(r)
    ensures |r| <= |s|
  {
    var t := TrimStart(s);
    var r := TrimEnd(t);
    TrimEndIsPrefix(t);
    assert r == [] || r[0] == t[0];
    r
  }

  lemma {:induction false} TrimStartIsSuffix(s: string)
    ensures TrimStart(s) == s[|s| - |TrimStart(s)|..]
  {
    if s != [] && IsWhitespace(s[0]) {
      TrimStartIsSuffix(s[1..]);
    }
  }

  lemma {:induction false} TrimEndIsPrefix(s: string)
    ensures TrimEnd(s) == s[..|TrimEnd(s)|]
  {
    if s != [] && IsWhitespace(s[|s| - 1]) {
      TrimEndIsPrefix(s[..|s| - 1]);
    }
  }

  /** Where the stripped text sits in the original: s is whitespace, then
      Strip(s), then whitespace. */
  lemma {:induction false} StripIsInfix(s: string)
    ensures var lead := |s| - |TrimStart(s)|;
            && lead + |Strip(s)| <= |s|
            && Strip(s) == s[lead..lead + |Strip(s)|]
            && (forall i :: 0 <= i < lead ==> IsWhitespace(s[i]))
            && (forall i :: lead + |Strip(s)| <= i < |s| ==> IsWhitespace(s[i]))
  {
    var t := TrimStart(s);
    var lead := |s| - |t|;
    var r := TrimEnd(t);
    assert Strip(s) == r;
    TrimStartIsSuffix(s);
    TrimEndIsPrefix(t);
    assert t == s[lead..];
    assert r == s[lead..lead + |r|] by {
      assert r == t[..|r|];
    }
    forall i | lead + |r| <= i < |s| ensures IsWhitespace(s[i]) {
      assert s[i] == t[i - lead];
    }
  }

  /** Stripping leaves already stripped text alone, so it is idempotent. */
  lemma {:induction false} StripStripped(s: string)
    requires Stripped(s)
    ensures Strip(s) == s
  {
    assert TrimStart(s) == s;
    assert TrimEnd(s) == s;
  }

  lemma StripIdempotent(s: string)
    ensures Strip(Strip(s)) == Strip(s)
  {
    StripStripped(Strip(s));
  }

  /** Surrounding whitespace never changes what a field validates to. */
  lemma {:induction false} StripPadded(lead: string, s: string, trail: string)
    requires forall i :: 0 <= i < |lead| ==> IsWhitespace(lead[i])
    requires forall i :: 0 <= i < |trail| ==> IsWhitespace(trail[i])
    requires Stripped(s) && s != []
    ensures Strip(lead + s + trail) == s
  {
    TrimStartPadded(lead, s + trail);
    assert lead + s + trail == lead + (s + trail);
    TrimEndPadded(s, trail);
  }

  lemma {:induction false} TrimStartPadded(lead: string, s: string)
    requires forall i :: 0 <= i < |lead| ==> IsWhitespace(lead[i])
    requires s != [] && !IsWhitespace(s[0])
    ensures TrimStart(lead + s) == s
  {
    if lead != [] {
      assert (lead + s)[1..] == lead[1..] + s;
      TrimStartPadded(lead[1..], s);
    }
  }

  lemma {:induction false} TrimEndPadded(s: string, trail: string)
    requires forall i :: 0 <= i < |trail| ==> IsWhitespace(trail[i])
    requires s != [] && !IsWhitespace(s[|s| - 1])
    ensures TrimEnd(s + trail) == s
  {
    if trail != [] {
      var n := |trail| - 1;
      assert (s + trail)[..|s + trail| - 1] == s + trail[..n];
      TrimEndPadded(s, trail[..n]);
    }
  }
}
