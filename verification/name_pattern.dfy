/** The metric-name rule `re.match(r'^[a-zA-Z_][a-zA-Z0-9_]*$', name)`.
    Python's `$` also matches just before a single trailing line feed, so the
    pattern accepts an identifier optionally followed by one "\n". */
module NamePattern {
  import opened Text

  predicate IsHeadChar(c: char) { IsLetter(c) || c == '_' }

  predicate IsTailChar(c: char) { IsHeadChar(c) || IsDigit(c) }

  /** `[a-zA-Z_][a-zA-Z0-9_]*` matched against the whole of `s`. */
  predicate IsIdentifier(s: string) {
    |s| > 0 && IsHeadChar(s[0]) && forall i :: 1 <= i < |s| ==> IsTailChar(s[i])
  }

  /** What the anchored pattern accepts: an identifier, or an identifier
      followed by exactly one line feed. */
  predicate NameMatches(s: string) {
    IsIdentifier(s) || (|s| > 0 && s[|s| - 1] == '\n' && IsIdentifier(s[..|s| - 1]))
  }

  /** The regular-expression engine's run over `s`: one head character, the
      greedy tail loop, then the `$` anchor (end of input, or a final "\n"). */
  method MatchName(s: string) returns (matched: bool)
    ensures matched <==> NameMatches(s)
  {
    if |s| == 0 || !IsHeadChar(s[0]) {
      return false;
    }
    var i := 1;
    while i < |s| && IsTailChar(s[i])
      invariant 1 <= i <= |s|
      invariant forall k :: 1 <= k < i ==> IsTailChar(s[k])
    {
      i := i + 1;
    }
    matched := i == |s| || (i == |s| - 1 && s[i] == '\n');
    if i == |s| - 1 && s[i] == '\n' {
      assert IsIdentifier(s[..i]);
    }
  }

  /** A name starting with a digit is rejected. */
  lemma LeadingDigitRejected(s: string)
    requires |s| > 0 && IsDigit(s[0])
    ensures !NameMatches(s)
  {
  }

  /** A name containing a space is rejected. */
  lemma SpaceRejected(s: string, i: int)
    requires 0 <= i < |s| && s[i] == ' '
    ensures !NameMatches(s)
  {
  }

  lemma Examples()
    ensures !NameMatches("2revenue")
    ensures !NameMatches("daily revenue")
    ensures NameMatches("daily_revenue")
    ensures NameMatches("daily_revenue\n")
    ensures !NameMatches("daily_revenue\n\n")
    ensures !NameMatches("")
  {
    LeadingDigitRejected("2revenue");
    SpaceRejected("daily revenue", 5);
    assert "daily_revenue\n"[..13] == "daily_revenue";
    var t := "daily_revenue\n\n";
    assert !IsTailChar(t[|t| - 2]);
  }
}
