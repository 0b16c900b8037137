/** JavaScript's `String.prototype.trim` on the code units of a string, as the
    page uses it to decide whether a draft sentence is blank. */
module JsText {

  /** The characters ECMAScript treats as WhiteSpace or LineTerminator: tab,
      vertical tab, form feed, space, no-break space, byte-order mark, the
      Unicode space separators, line feed, carriage return and the line and
      paragraph separators. */
  predicate IsWhitespace(c: char) {
    || c == '\t' || c == '\n' || c == '\U{0B}' || c == '\U{0C}' || c == '\r'
    || c == ' ' || c == '\U{A0}' || c == '\U{1680}'
    || ('\U{2000}' <= c <= '\U{200A}')
    || c == '\U{2028}' || c == '\U{2029}' || c == '\U{202F}' || c == '\U{205F}'
    || c == '\U{3000}' || c == '\U{FEFF}'
  }

  predicate AllWhitespace(s: string) {
    forall c | c in s :: IsWhitespace(c)
  }

  /** A suffix of `s[1..]` after a whitespace margin is a suffix of `s` after
      a margin one longer, when `s` starts with whitespace. */
  lemma SuffixAfterMargin(s: string, r: string)
    requires |s| > 0 && IsWhitespace(s[0])
    requires |r| <= |s| - 1 && r == s[1..][|s| - 1 - |r|..] && AllWhitespace(s[1..][..|s| - 1 - |r|])
    ensures r == s[|s| - |r|..] && AllWhitespace(s[..|s| - |r|])
  {
    var m := s[..|s| - |r|];
    forall i | 0 <= i < |m| ensures IsWhitespace(m[i]) {
      if i > 0 {
        assert m[i] == s[1..][..|s| - 1 - |r|][i - 1];
      }
    }
  }

  /** A prefix of `s[..|s| - 1]` before a whitespace margin is a prefix of `s`
      before a margin one longer, when `s` ends with whitespace. */
  lemma PrefixBeforeMargin(s: string, r: string)
    requires |s| > 0 && IsWhitespace(s[|s| - 1])
    requires |r| <= |s| - 1 && r == s[..|s| - 1][..|r|] && AllWhitespace(s[..|s| - 1][|r|..])
    ensures r == s[..|r|] && AllWhitespace(s[|r|..])
  {
    var m := s[|r|..];
    forall i | 0 <= i < |m| ensures IsWhitespace(m[i]) {
      if i < |m| - 1 {
        assert m[i] == s[..|s| - 1][|r|..][i];
      }
    }
  }

  /** Drops the leading whitespace: what remains is a suffix of `s` that does
      not start with whitespace, and everything dropped was whitespace. */
  function TrimStart(s: string): (r: string)
    ensures |r| <= |s| && r == s[|s| - |r|..]
    ensures AllWhitespace(s[..|s| - |r|])
    ensures r == [] || !IsWhitespace(r[0])
  {
    if |s| > 0 && IsWhitespace(s[0]) then
      var r := TrimStart(s[1..]);
      SuffixAfterMargin(s, r);
      r
    else s
  }

  /** Drops the trailing whitespace: what remains is a prefix of `s` that does
      not end with whitespace, and everything dropped was whitespace. */
  function TrimEnd(s: string): (r: string)
    ensures |r| <= |s| && r == s[..|r|]
    ensures AllWhitespace(s[|r|..])
    ensures r == [] || !IsWhitespace(r[|r| - 1])
  {
    if |s| > 0 && IsWhitespace(s[|s| - 1]) then
      var r := TrimEnd(s[..|s| - 1]);
      PrefixBeforeMargin(s, r);
      r
    else s
  }

  /** Number of leading whitespace characters `Trim` removes. */
  function Leading(s: string): nat {
    |s| - |TrimStart(s)|
  }

  /** `s.trim()`: the slice of `s` left once the whitespace at both ends is
      gone; the slice neither starts nor ends with whitespace. */
  function Trim(s: string): (r: string)
    ensures Leading(s) + |r| <= |s| && r == s[Leading(s)..Leading(s) + |r|]
    ensures AllWhitespace(s[..Leading(s)]) && AllWhitespace(s[Leading(s) + |r|..])
    ensures r == [] || (!IsWhitespace(r[0]) && !IsWhitespace(r[|r| - 1]))
  {
    var t := TrimStart(s);
    var r := TrimEnd(t);
    SliceBetweenMargins(s, t, r);
    r
  }

  /** A suffix `t` of `s` after a whitespace margin, cut down to a prefix `r`
      before another whitespace margin, is a slice of `s` between the two. */
  lemma SliceBetweenMargins(s: string, t: string, r: string)
    requires |t| <= |s| && t == s[|s| - |t|..] && AllWhitespace(s[..|s| - |t|])
    requires t == [] || !IsWhitespace(t[0])
    requires |r| <= |t| && r == t[..|r|] && AllWhitespace(t[|r|..])
    requires r == [] || !IsWhitespace(r[|r| - 1])
    ensures |s| - |t| + |r| <= |s| && r == s[|s| - |t|..|s| - |t| + |r|]
    ensures AllWhitespace(s[|s| - |t| + |r|..])
    ensures r == [] || (!IsWhitespace(r[0]) && !IsWhitespace(r[|r| - 1]))
  {
    var k := |s| - |t|;
    assert s[k..][..|r|] == s[k..k + |r|];
    assert s[k + |r|..] == t[|r|..];
    if r != [] {
      assert r[0] == t[0];
    }
  }

  /** `!s.trim()`: the trimmed string is the empty, falsy string, which is
      the case exactly when every character of `s` is whitespace. */
  predicate IsBlank(s: string): (b: bool)
    ensures b <==> AllWhitespace(s)
  {
    TrimEmptyIffAllWhitespace(s);
    Trim(s) == []
  }

  /** A string trims to nothing exactly when every character of it is whitespace. */
  lemma TrimEmptyIffAllWhitespace(s: string)
    ensures Trim(s) == [] <==> AllWhitespace(s)
  {
    var k := Leading(s);
    if Trim(s) == [] {
      forall i | 0 <= i < |s| ensures IsWhitespace(s[i]) {
        assert s[..k][i] == s[i];
      }
    } else {
      var r := Trim(s);
      assert r[0] == s[k];
    }
  }
}
