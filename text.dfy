/** Character classes and the `trim` operation of ECMAScript strings. */
module Text {

  /** The characters of the class `\s` in ECMAScript regular expressions;
      `String.prototype.trim` (and express-validator's `trim()`) strip exactly
      these. */
  predicate IsWhitespace(c: char)
  {
    || c == ' ' || c == '\t' || c == '\n' || c == '\U{B}' || c == '\U{C}' || c == '\r'
    || c == '\U{A0}' || c == '\U{1680}' || ('\U{2000}' <= c <= '\U{200A}')
    || c == '\U{2028}' || c == '\U{2029}' || c == '\U{202F}' || c == '\U{205F}'
    || c == '\U{3000}' || c == '\U{FEFF}'
  }

  predicate AllWhitespace(s: string)
  {
    forall k :: 0 <= k < |s| ==> IsWhitespace(s[k])
  }

  /** Drops the leading whitespace: the result is a suffix of `s` that does not
      start with whitespace, and everything dropped is whitespace. */
  function TrimStart(s: string): (r: string)
    ensures |r| <= |s| && r == s[|s| - |r|..]
    ensures r == [] || !IsWhitespace(r[0])
    ensures AllWhitespace(s[..|s| - |r|])
  {
    if s != [] && IsWhitespace(s[0]) then TrimStart(s[1..]) else s
  }

  /** Drops the trailing whitespace: the result is a prefix of `s` that does not
      end with whitespace, and everything dropped is whitespace. */
  function TrimEnd(s: string): (r: string)
    ensures |r| <= |s| && r == s[..|r|]
    ensures r == [] || !IsWhitespace(r[|r| - 1])
    ensures AllWhitespace(s[|r|..])
  {
    if s != [] && IsWhitespace(s[|s| - 1]) then TrimEnd(s[..|s| - 1]) else s
  }

  /** `r` is `s[a..]` cut short, and only whitespace lies on either side. */
  predicate Middle(s: string, a: int, r: string)
  {
    0 <= a <= |s| - |r| && r == s[a..a + |r|]
    && AllWhitespace(s[..a]) && AllWhitespace(s[a + |r|..])
  }

  /** `s.trim()`: no whitespace at either end, and empty exactly when `s` is
      all whitespace; `TrimIsMiddle` shows it is the middle of `s`. */
  function Trim(s: string): (r: string)
    ensures |r| <= |s|
    ensures r == [] || (!IsWhitespace(r[0]) && !IsWhitespace(r[|r| - 1]))
    ensures r == [] <==> AllWhitespace(s)
  {
    TrimSpec(s);
    TrimEnd(TrimStart(s))
  }

  /** `Trim(s)` is the unbroken middle of `s` left once the leading and the
      trailing whitespace are cut off. */
  lemma TrimIsMiddle(s: string)
    ensures exists a :: Middle(s, a, Trim(s))
  {
    TrimSpec(s);
    assert Trim(s) == TrimEnd(TrimStart(s));
  }

  /** The facts about `TrimEnd(TrimStart(s))` that `Trim` promises. */
  lemma TrimSpec(s: string)
    ensures var r := TrimEnd(TrimStart(s));
      && |r| <= |s|
      && (r == [] || (!IsWhitespace(r[0]) && !IsWhitespace(r[|r| - 1])))
      && (r == [] <==> AllWhitespace(s))
      && Middle(s, |s| - |TrimStart(s)|, r)
  {
    var t := TrimStart(s);
    var r := TrimEnd(t);
    var a := |s| - |t|;
    CutIsMiddle(s, a, t, r);
    MiddleFacts(s, a, r);
  }

  /** Cutting whitespace off the front of `s` at `a`, then off the back of
      what is left, leaves the middle slice. */
  lemma CutIsMiddle(s: string, a: nat, t: string, r: string)
    requires a <= |s| && t == s[a..] && AllWhitespace(s[..a])
    requires |r| <= |t| && r == t[..|r|] && AllWhitespace(t[|r|..])
    ensures Middle(s, a, r)
  {
    assert t[..|r|] == s[a..a + |r|];
    assert t[|r|..] == s[a + |r|..];
  }

  /** What a middle slice keeps: its characters come from `s`, and it is empty
      only when all of `s` is whitespace. */
  lemma MiddleFacts(s: string, a: int, r: string)
    requires Middle(s, a, r) && (r == [] || !IsWhitespace(r[0]))
    ensures r == [] <==> AllWhitespace(s)
  {
    if r == [] {
      assert s[a + |r|..] == s[a..];
      WhitespaceAround(s, a);
    } else {
      assert r[0] == s[a];
    }
  }

  /** A string split into two all-whitespace parts is all whitespace. */
  lemma WhitespaceAround(s: string, a: nat)
    requires a <= |s| && AllWhitespace(s[..a]) && AllWhitespace(s[a..])
    ensures AllWhitespace(s)
  {
    forall k | 0 <= k < |s| ensures IsWhitespace(s[k]) {
      if k < a { assert s[k] == s[..a][k]; } else { assert s[k] == s[a..][k - a]; }
    }
  }

  /** `s.length` in JavaScript: the number of UTF-16 code units, one per
      character up to U+FFFF and two (a surrogate pair) above it. */
  function Utf16Length(s: string): (r: nat)
    ensures |s| <= r <= 2 * |s|
  {
    if s == [] then 0 else (if s[0] as int <= 0xFFFF then 1 else 2) + Utf16Length(s[1..])
  }

  /** The two counts agree exactly when no character lies above U+FFFF. */
  lemma {:induction false} Utf16LengthIsCount(s: string)
    ensures Utf16Length(s) == |s| <==> forall k :: 0 <= k < |s| ==> s[k] as int <= 0xFFFF
  {
    if s != [] {
      Utf16LengthIsCount(s[1..]);
      assert forall k :: 1 <= k < |s| ==> s[k] == s[1..][k - 1];
    }
  }
}
