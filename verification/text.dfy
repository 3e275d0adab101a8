/** ASCII string primitives with the meaning Python's `str` methods give them:
    `isspace`, `upper`, `lower`, `strip`, `startswith`, `in` and `split()`.
    Only the ASCII range is modelled; see README for the Unicode cases left out. */
module Text {

  /** Python's `str.isspace` on ASCII: space, tab, line feed, vertical tab,
      form feed, carriage return and the four separators 0x1C..0x1F. */
  predicate IsSpace(c: char) {
    c == ' ' || ('\t' <= c <= '\r') || ('\U{1C}' <= c <= '\U{1F}')
  }

  predicate IsLowerAscii(c: char) { 'a' <= c <= 'z' }

  predicate IsUpperAscii(c: char) { 'A' <= c <= 'Z' }

  predicate IsLetter(c: char) { IsLowerAscii(c) || IsUpperAscii(c) }

  predicate IsDigit(c: char) { '0' <= c <= '9' }

  predicate NoSpace(s: string) {
    forall i :: 0 <= i < |s| ==> !IsSpace(s[i])
  }

  predicate AllSpace(s: string) {
    forall i :: 0 <= i < |s| ==> IsSpace(s[i])
  }

  function ToUpper(c: char): char {
    if IsLowerAscii(c) then (c as int - 32) as char else c
  }

  function ToLower(c: char): char {
    if IsUpperAscii(c) then (c as int + 32) as char else c
  }

  /** `s.upper()` restricted to ASCII letters. */
  function Upper(s: string): (r: string)
    ensures |r| == |s|
  {
    if s == [] then [] else [ToUpper(s[0])] + Upper(s[1..])
  }

  /** `s.lower()` restricted to ASCII letters. */
  function Lower(s: string): (r: string)
    ensures |r| == |s|
  {
    if s == [] then [] else [ToLower(s[0])] + Lower(s[1..])
  }

  /** Upper-casing maps each character on its own and leaves no lower-case
      letter behind. */
  lemma {:induction false} UpperSpec(s: string)
    ensures forall i :: 0 <= i < |s| ==> Upper(s)[i] == ToUpper(s[i])
    ensures forall i :: 0 <= i < |s| ==> !IsLowerAscii(Upper(s)[i])
  {
    if s != [] {
      UpperSpec(s[1..]);
      assert forall i :: 0 < i < |s| ==> Upper(s)[i] == Upper(s[1..])[i - 1];
    }
  }

  /** Lower-casing maps each character on its own and leaves no upper-case
      letter behind. */
  lemma {:induction false} LowerSpec(s: string)
    ensures forall i :: 0 <= i < |s| ==> Lower(s)[i] == ToLower(s[i])
    ensures forall i :: 0 <= i < |s| ==> !IsUpperAscii(Lower(s)[i])
  {
    if s != [] {
      LowerSpec(s[1..]);
      assert forall i :: 0 < i < |s| ==> Lower(s)[i] == Lower(s[1..])[i - 1];
    }
  }

  /** `s.lstrip()`. */
  function TrimStart(s: string): string {
    if |s| > 0 && IsSpace(s[0]) then TrimStart(s[1..]) else s
  }

  /** `s.rstrip()`. */
  function TrimEnd(s: string): string {
    if |s| > 0 && IsSpace(s[|s| - 1]) then TrimEnd(s[..|s| - 1]) else s
  }

  /** `lstrip` keeps the longest suffix that does not start with whitespace. */
  lemma {:induction false} TrimStartSpec(s: string)
    ensures |TrimStart(s)| <= |s| && TrimStart(s) == s[|s| - |TrimStart(s)|..]
    ensures AllSpace(s[..|s| - |TrimStart(s)|])
    ensures |TrimStart(s)| > 0 ==> !IsSpace(TrimStart(s)[0])
  {
    if |s| > 0 && IsSpace(s[0]) {
      TrimStartSpec(s[1..]);
      var n := |s| - |TrimStart(s)|;
      assert s[1..][..n - 1] == s[1..n];
      assert s[1..][|s| - 1 - |TrimStart(s)|..] == s[n..];
    }
  }

  /** `rstrip` keeps the longest prefix that does not end with whitespace. */
  lemma {:induction false} TrimEndSpec(s: string)
    ensures |TrimEnd(s)| <= |s| && TrimEnd(s) == s[..|TrimEnd(s)|]
    ensures AllSpace(s[|TrimEnd(s)|..])
    ensures |TrimEnd(s)| > 0 ==> !IsSpace(TrimEnd(s)[|TrimEnd(s)| - 1])
  {
    if |s| > 0 && IsSpace(s[|s| - 1]) {
      TrimEndSpec(s[..|s| - 1]);
      var n := |TrimEnd(s)|;
      assert s[..|s| - 1][..n] == s[..n];
      assert forall i :: n <= i < |s| - 1 ==> s[..|s| - 1][n..][i - n] == s[i];
    }
  }

  /** `s.strip()`: `s` with leading and trailing whitespace removed. */
  function Strip(s: string): string {
    TrimEnd(TrimStart(s))
  }

  /** The stripped string is a piece of `s` with no whitespace at either end,
      and it is empty exactly when `s` is all whitespace. */
  lemma StripSpec(s: string)
    ensures |Strip(s)| <= |s|
    ensures |Strip(s)| > 0 ==> !IsSpace(Strip(s)[0]) && !IsSpace(Strip(s)[|Strip(s)| - 1])
    ensures AllSpace(s) <==> Strip(s) == []
    ensures exists i :: (0 <= i <= |s| - |Strip(s)| && Strip(s) == s[i..i + |Strip(s)|]
      && AllSpace(s[..i]) && AllSpace(s[i + |Strip(s)|..]))
  {
    var t := TrimStart(s);
    TrimStartSpec(s);
    TrimEndSpec(t);
    var r := TrimEnd(t);
    if r == [] {
      assert s[..|s|] == s;
    }
    var i := |s| - |t|;
    assert r == t[..|r|] && t[..|r|] == s[i..i + |r|];
    assert forall k :: i + |r| <= k < |s| ==> s[k] == t[|r|..][k - i - |r|];
  }

  /** `s.startswith(p)`. */
  predicate StartsWith(s: string, p: string) {
    |p| <= |s| && s[..|p|] == p
  }

  /** `t` occurs in `s` starting at index `i`. */
  predicate OccursAt(s: string, t: string, i: int) {
    0 <= i <= |s| - |t| && s[i..i + |t|] == t
  }

  /** Python's substring test `t in s`, found by trying every start position. */
  function Contains(s: string, t: string): bool {
    if StartsWith(s, t) then true
    else if |s| == 0 then false
    else Contains(s[1..], t)
  }

  /** The substring test succeeds exactly when `t` occurs at some position. */
  lemma {:induction false} ContainsSpec(s: string, t: string)
    ensures Contains(s, t) <==> exists i :: OccursAt(s, t, i)
    decreases |s|
  {
    if StartsWith(s, t) {
      assert OccursAt(s, t, 0);
    } else if |s| > 0 {
      ContainsSpec(s[1..], t);
      if Contains(s, t) {
        var j :| OccursAt(s[1..], t, j);
        OccursShift(s, t, j);
      }
      if exists i :: OccursAt(s, t, i) {
        var i :| OccursAt(s, t, i);
        assert s[..|t|] == s[0..0 + |t|];
        OccursShift(s, t, i - 1);
      }
    }
  }

  /** Occurrences in `s[1..]` are the occurrences in `s` shifted by one. */
  lemma OccursShift(s: string, t: string, i: int)
    requires |s| > 0 && i >= 0
    ensures OccursAt(s, t, i + 1) <==> OccursAt(s[1..], t, i)
  {
  }

  /** A string that starts with `p` contains `p`. */
  lemma StartsWithContains(s: string, p: string)
    requires StartsWith(s, p)
    ensures Contains(s, p)
  {
  }

  /** `s.split()` with no separator: the maximal runs of non-whitespace
      characters, in order; runs of whitespace separate, and empty pieces are
      dropped. */
  function Split(s: string): (r: seq<string>)
    ensures forall k :: 0 <= k < |r| ==> |r[k]| > 0 && NoSpace(r[k])
  {
    SplitFrom(s, [])
  }

  /** Splitting the rest `s` of a string when the current word so far is `word`. */
  function SplitFrom(s: string, word: string): (r: seq<string>)
    requires NoSpace(word)
    ensures forall k :: 0 <= k < |r| ==> |r[k]| > 0 && NoSpace(r[k])
    decreases |s|
  {
    if |s| == 0 then
      if word == [] then [] else [word]
    else if IsSpace(s[0]) then
      (if word == [] then [] else [word]) + SplitFrom(s[1..], [])
    else
      SplitFrom(s[1..], word + [s[0]])
  }

  /** A whitespace character splits a string into two independently split halves. */
  lemma {:induction false} SplitFromAtSpace(a: string, c: char, b: string, word: string)
    requires IsSpace(c) && NoSpace(word)
    ensures SplitFrom(a + [c] + b, word) == SplitFrom(a, word) + SplitFrom(b, [])
    decreases |a|
  {
    if |a| == 0 {
      assert a + [c] + b == [c] + b;
      assert ([c] + b)[1..] == b;
    } else {
      assert (a + [c] + b)[0] == a[0];
      assert (a + [c] + b)[1..] == a[1..] + [c] + b;
      if IsSpace(a[0]) {
        SplitFromAtSpace(a[1..], c, b, []);
      } else {
        SplitFromAtSpace(a[1..], c, b, word + [a[0]]);
      }
    }
  }

  lemma SplitAtSpace(a: string, c: char, b: string)
    requires IsSpace(c)
    ensures Split(a + [c] + b) == Split(a) + Split(b)
  {
    SplitFromAtSpace(a, c, b, []);
  }

  /** A non-empty run of non-whitespace characters appended to the current word
      extends it. */
  lemma {:induction false} SplitFromWord(w: string, word: string)
    requires NoSpace(w) && NoSpace(word)
    ensures SplitFrom(w, word) == if word + w == [] then [] else [word + w]
    decreases |w|
  {
    if |w| > 0 {
      assert word + [w[0]] + w[1..] == word + w;
      SplitFromWord(w[1..], word + [w[0]]);
    } else {
      assert word + w == word;
    }
  }

  /** A single word splits into itself. */
  lemma SplitWord(w: string)
    requires |w| > 0 && NoSpace(w)
    ensures Split(w) == [w]
  {
    SplitFromWord(w, []);
    assert [] + w == w;
  }

  /** A whitespace-only string splits into nothing. */
  lemma {:induction false} SplitAllSpace(s: string)
    requires AllSpace(s)
    ensures Split(s) == []
    decreases |s|
  {
    if |s| > 0 {
      SplitAllSpace(s[1..]);
    }
  }
}
