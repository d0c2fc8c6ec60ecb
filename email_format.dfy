/** The client-side email check `/^[^\s@]+@[^\s@]+\.[^\s@]+$/`, which the
    registration and the login form both apply. */
module EmailFormat {
  import opened Text

  /** A character of the class `[^\s@]`. */
  predicate Plain(c: char)
  {
    !IsWhitespace(c) && c != '@'
  }

  predicate AllPlain(s: string)
  {
    forall k :: 0 <= k < |s| ==> Plain(s[k])
  }

  /** Membership in the language of the pattern: `s` is `A @ B . C` where A, B
      and C are non-empty runs of `[^\s@]` (B and C may themselves hold dots). */
  ghost predicate MatchesPattern(s: string)
  {
    exists i, j ::
      && 0 < i && i + 1 < j && j + 1 < |s|
      && s[i] == '@' && s[j] == '.'
      && AllPlain(s[..i]) && AllPlain(s[i + 1..j]) && AllPlain(s[j + 1..])
  }

  /** The pattern stated without backtracking: no whitespace anywhere, exactly
      one '@', something before it, and after it a '.' that is neither the
      first character after the '@' nor the last character. */
  predicate WellShaped(s: string)
  {
    && (forall k :: 0 <= k < |s| ==> !IsWhitespace(s[k]))
    && (exists i :: 0 < i < |s| && s[i] == '@'
                    && (forall k :: 0 <= k < |s| && s[k] == '@' ==> k == i)
                    && (exists j :: i + 1 < j < |s| - 1 && s[j] == '.'))
  }

  /** Every well-shaped string is in the language of the pattern. */
  lemma ShapedMatches(s: string)
    ensures WellShaped(s) ==> MatchesPattern(s)
  {
    if WellShaped(s) {
      var i :| 0 < i < |s| && s[i] == '@'
               && (forall k :: 0 <= k < |s| && s[k] == '@' ==> k == i)
               && (exists j :: i + 1 < j < |s| - 1 && s[j] == '.');
      var j :| i + 1 < j < |s| - 1 && s[j] == '.';
      var a, b, c := s[..i], s[i + 1..j], s[j + 1..];
      assert AllPlain(a) by {
        forall k | 0 <= k < |a| ensures Plain(a[k]) { assert a[k] == s[k]; }
      }
      assert AllPlain(b) by {
        forall k | 0 <= k < |b| ensures Plain(b[k]) { assert b[k] == s[i + 1 + k]; }
      }
      assert AllPlain(c) by {
        forall k | 0 <= k < |c| ensures Plain(c[k]) { assert c[k] == s[j + 1 + k]; }
      }
    }
  }

  /** Every string in the language of the pattern is well shaped. */
  lemma MatchesAreShaped(s: string)
    ensures MatchesPattern(s) ==> WellShaped(s)
  {
    if MatchesPattern(s) {
      var i, j :|
        && 0 < i && i + 1 < j && j + 1 < |s|
        && s[i] == '@' && s[j] == '.'
        && AllPlain(s[..i]) && AllPlain(s[i + 1..j]) && AllPlain(s[j + 1..]);
      var a, b, c := s[..i], s[i + 1..j], s[j + 1..];
      forall k | 0 <= k < |s| && k != i && k != j ensures Plain(s[k]) {
        if k < i {
          assert s[k] == a[k];
        } else if k < j {
          assert s[k] == b[k - i - 1];
        } else {
          assert s[k] == c[k - j - 1];
        }
      }
      assert !IsWhitespace('@') && !IsWhitespace('.');
    }
  }

  /** `validateEmail`: the result is exactly whether the pattern matches. */
  function ValidateEmail(s: string): (r: bool)
    ensures r <==> MatchesPattern(s)
  {
    ShapedMatches(s);
    MatchesAreShaped(s);
    WellShaped(s)
  }
}
