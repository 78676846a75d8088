/** `isValidEmail` (script.js:373-376): the test of a value against the
    anchored pattern `^[^\s@]+@[^\s@]+\.[^\s@]+$`.

    `RegexMatches` is the pattern read literally, as a concatenation of three
    non-empty runs of characters that are neither whitespace nor `@`, joined
    by `@` and `.`; `IsValidEmail` restates it as a check on the string:
    no whitespace, exactly one `@`, a non-empty local part, and a domain with
    a `.` that is neither its first nor its last character. The two are
    proved equal. */
module Email {
  import opened JsText

  /** A character matched by `[^\s@]`. */
  predicate RunChar(c: char) {
    !IsWhitespace(c) && c != '@'
  }

  /** A string matched by `[^\s@]+`. */
  predicate Run(s: string) {
    |s| > 0 && forall k :: 0 <= k < |s| ==> RunChar(s[k])
  }

  /** The pattern matches `s` with its `@` at index `i` and the `.` it
      consumes at index `j`. */
  predicate MatchesAt(s: string, i: int, j: int) {
    0 < i && i + 1 < j && j + 1 < |s| && s[i] == '@' && s[j] == '.' &&
    Run(s[..i]) && Run(s[i + 1..j]) && Run(s[j + 1..])
  }

  /** `/^[^\s@]+@[^\s@]+\.[^\s@]+$/.test(s)`. */
  ghost predicate RegexMatches(s: string) {
    exists i, j :: MatchesAt(s, i, j)
  }

  /** `s` holds no whitespace character. */
  predicate NoWhitespace(s: string) {
    s == [] || (!IsWhitespace(s[0]) && NoWhitespace(s[1..]))
  }

  lemma {:induction false} NoWhitespaceIff(s: string)
    ensures NoWhitespace(s) <==> forall k :: 0 <= k < |s| ==> !IsWhitespace(s[k])
  {
    if s != [] {
      NoWhitespaceIff(s[1..]);
      assert forall k :: 1 <= k < |s| ==> s[k] == s[1..][k - 1];
    }
  }

  /** `s` holds a `.`. */
  predicate HasDot(s: string) {
    s != [] && (s[0] == '.' || HasDot(s[1..]))
  }

  lemma {:induction false} HasDotIff(s: string)
    ensures HasDot(s) <==> exists k :: 0 <= k < |s| && s[k] == '.'
  {
    if s != [] {
      HasDotIff(s[1..]);
      if s[0] != '.' && (exists k :: 0 <= k < |s| && s[k] == '.') {
        var k :| 0 <= k < |s| && s[k] == '.';
        assert s[1..][k - 1] == '.';
      }
    }
  }

  /** A `.` strictly inside `d`: neither its first nor its last character. */
  predicate DotInside(d: string) {
    |d| >= 3 && HasDot(d[1..|d| - 1])
  }

  lemma DotInsideIff(d: string)
    ensures DotInside(d) <==> exists k :: 0 < k < |d| - 1 && d[k] == '.'
  {
    if |d| >= 3 {
      var inner := d[1..|d| - 1];
      HasDotIff(inner);
      if exists k :: 0 < k < |d| - 1 && d[k] == '.' {
        var k :| 0 < k < |d| - 1 && d[k] == '.';
        assert inner[k - 1] == '.';
      }
    }
  }

  /** `isValidEmail(s)`, as a check on the string's shape: no whitespace,
      exactly one `@`, something before it, and a dot strictly inside what
      follows it. */
  predicate IsValidEmail(s: string) {
    NoWhitespace(s) && Occurrences(s, '@') == 1 &&
    var at := IndexOf(s, '@');
    0 < at < |s| && DotInside(s[at + 1..])
  }

  /** A slice of run characters is a run. */
  lemma RunSlice(s: string, lo: nat, hi: nat)
    requires lo < hi <= |s| && forall m :: lo <= m < hi ==> RunChar(s[m])
    ensures Run(s[lo..hi])
  {
    assert forall m :: 0 <= m < hi - lo ==> s[lo..hi][m] == s[lo + m];
  }

  /** Every string the shape check accepts is matched by the pattern. */
  lemma ValidEmailMatchesRegex(s: string)
    requires IsValidEmail(s)
    ensures RegexMatches(s)
  {
    var at := IndexOf(s, '@');
    IndexOfSpec(s, '@');
    OccursOnlyAt(s, '@', at);
    NoWhitespaceIff(s);
    var d := s[at + 1..];
    DotInsideIff(d);
    var k :| 0 < k < |d| - 1 && d[k] == '.';
    var j := at + 1 + k;
    assert s[j] == d[k];
    assert forall m :: 0 <= m < |s| && m != at ==> RunChar(s[m]);
    RunSlice(s, 0, at);
    RunSlice(s, at + 1, j);
    RunSlice(s, j + 1, |s|);
    assert s[..at] == s[0..at] && s[j + 1..] == s[j + 1..|s|];
    assert MatchesAt(s, at, j);
  }

  /** Outside the `@` at index `i`, every character of a match is a run
      character. */
  lemma MatchCharacters(s: string, i: int, j: int)
    requires MatchesAt(s, i, j)
    ensures forall k :: 0 <= k < |s| && k != i ==> RunChar(s[k])
  {
    forall k | 0 <= k < |s| && k != i ensures RunChar(s[k]) {
      if k < i { assert s[k] == s[..i][k]; }
      else if k < j { assert s[k] == s[i + 1..j][k - i - 1]; }
      else if j < k { assert s[k] == s[j + 1..][k - j - 1]; }
    }
  }

  /** Every string the pattern matches passes the shape check. */
  lemma RegexMatchIsValidEmail(s: string)
    requires RegexMatches(s)
    ensures IsValidEmail(s)
  {
    var i, j :| MatchesAt(s, i, j);
    MatchCharacters(s, i, j);
    OccursOnlyAt(s, '@', i);
    IndexOfSpec(s, '@');
    assert IndexOf(s, '@') == i;
    assert !IsWhitespace(s[i]);
    NoWhitespaceIff(s);
    assert s[i + 1..][j - i - 1] == '.';
    DotInsideIff(s[i + 1..]);
  }

  /** The shape check accepts exactly the strings the pattern matches. */
  lemma IsValidEmailIffRegex(s: string)
    ensures IsValidEmail(s) <==> RegexMatches(s)
  {
    if IsValidEmail(s) { ValidEmailMatchesRegex(s); }
    if RegexMatches(s) { RegexMatchIsValidEmail(s); }
  }

  /** The `x@y.z` shape passes. */
  lemma EmailAcceptsShortest()
    ensures IsValidEmail("x@y.z")
  {
    NoWhitespaceIff("x@y.z");
    assert Occurrences("x@y.z", '@') == 1;
    assert IndexOf("x@y.z", '@') == 1;
    assert "x@y.z"[2..] == "y.z";
    assert HasDot("y.z"[1..2]);
  }

  /** An ordinary address passes: the pattern matches it with its `@` at
      index 2 and its `.` at index 4. */
  lemma EmailAcceptsExamples()
    ensures IsValidEmail("jo@x.com")
  {
    assert "jo@x.com"[..2] == "jo" && "jo@x.com"[3..4] == "x" && "jo@x.com"[5..] == "com";
    assert MatchesAt("jo@x.com", 2, 4);
    RegexMatchIsValidEmail("jo@x.com");
  }

  /** A missing dot after the `@`, a missing `@`, an empty local part and a
      dot at either end of the domain each fail. */
  lemma EmailRejectsMissingParts()
    ensures !IsValidEmail("a@b")
    ensures !IsValidEmail("foo.com")
    ensures !IsValidEmail("@b.c") && !IsValidEmail("a@.c") && !IsValidEmail("a@b.")
  {
    assert IndexOf("a@b", '@') == 1;
    assert Occurrences("foo.com", '@') == 0;
    assert IndexOf("a@.c", '@') == 1 && "a@.c"[2..] == ".c";
    assert IndexOf("a@b.", '@') == 1 && "a@b."[2..] == "b.";
  }

  /** Inner whitespace and a second `@` each fail. */
  lemma EmailRejectsSpaceAndSecondAt()
    ensures !IsValidEmail("a b@c.d")
    ensures !IsValidEmail("a@b@c.d")
  {
    assert "a b@c.d"[1] == ' ';
    assert Occurrences("a@b@c.d", '@') == 2;
  }
}
