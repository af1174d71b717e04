/** The fixed pattern EmailRule tests a string against,
    `^[a-zA-Z0-9._%+-]+@[a-zA-Z0-9.-]+\.[a-zA-Z]{2,}$` with the `i` flag
    (which adds nothing: without the `u` flag, case folding never maps a
    non-ASCII character onto an ASCII letter), and its reading as a list of
    conditions on the parts of an address. */
module EmailPattern {
  import opened Wrappers
  import opened JsText

  predicate IsAsciiLetter(c: char) { 'a' <= c <= 'z' || 'A' <= c <= 'Z' }

  predicate IsAsciiAlnum(c: char) { IsAsciiLetter(c) || '0' <= c <= '9' }

  /** `[a-zA-Z0-9._%+-]` */
  predicate IsLocalChar(c: char) { IsAsciiAlnum(c) || c in "._%+-" }

  /** `[a-zA-Z0-9.-]` */
  predicate IsDomainChar(c: char) { IsAsciiAlnum(c) || c in ".-" }

  predicate AllLocal(s: string) { forall i :: 0 <= i < |s| ==> IsLocalChar(s[i]) }

  predicate AllDomain(s: string) { forall i :: 0 <= i < |s| ==> IsDomainChar(s[i]) }

  predicate AllLetters(s: string) { forall i :: 0 <= i < |s| ==> IsAsciiLetter(s[i]) }

  /** The anchored pattern matches `s` with its `@` at index `i` and the
      `\.` before the final letters at index `j`. */
  predicate MatchesAt(s: string, i: int, j: int) {
    && 0 < i < j < |s|
    && AllLocal(s[..i])
    && s[i] == '@'
    && i + 1 < j && AllDomain(s[i + 1..j])
    && s[j] == '.'
    && |s| - (j + 1) >= 2 && AllLetters(s[j + 1..])
  }

  /** `s.match(pattern)` is not null. */
  predicate PatternMatches(s: string) {
    exists i, j | 0 <= i < |s| && 0 <= j < |s| :: MatchesAt(s, i, j)
  }

  /** The last index of `c` in `s`. */
  function LastIndexOf(s: string, c: char): (r: Option<nat>)
    ensures r.Some? ==> r.value < |s| && s[r.value] == c && c !in s[r.value + 1..]
    ensures r.None? ==> c !in s
  {
    if s == [] then None
    else if s[|s| - 1] == c then Some(|s| - 1)
    else
      var r := LastIndexOf(s[..|s| - 1], c);
      assert s == s[..|s| - 1] + [s[|s| - 1]];
      r
  }

  /** An address as a list of conditions: exactly one `@`; before it a
      non-empty local part over `[A-Za-z0-9._%+-]`; after it a domain over
      `[A-Za-z0-9.-]` whose last `.` has a non-empty part before it and at
      least two ASCII letters after it. */
  predicate IsEmailAddress(s: string) {
    var at := FirstIndex(s, "@");
    && at < |s| && '@' !in s[at + 1..]
    && var local, domain := s[..at], s[at + 1..];
    && local != [] && AllLocal(local)
    && AllDomain(domain)
    && match LastIndexOf(domain, '.')
       case None => false
       case Some(d) => d > 0 && |domain| - (d + 1) >= 2 && AllLetters(domain[d + 1..])
  }

  /** The pattern and the list of conditions accept the same strings. */
  lemma PatternIsAddress(s: string)
    ensures PatternMatches(s) <==> IsEmailAddress(s)
  {
    if PatternMatches(s) {
      var i, j :| 0 <= i < |s| && 0 <= j < |s| && MatchesAt(s, i, j);
      MatchIsAddress(s, i, j);
    }
    if IsEmailAddress(s) {
      var at := FirstIndex(s, "@");
      var domain := s[at + 1..];
      var d := LastIndexOf(domain, '.').value;
      var j := at + 1 + d;
      assert s[at + 1..j] == domain[..d];
      assert s[j + 1..] == domain[d + 1..];
      assert MatchesAt(s, at, j);
    }
  }

  lemma MatchIsAddress(s: string, i: int, j: int)
    requires MatchesAt(s, i, j)
    ensures IsEmailAddress(s)
  {
    MatchAtSign(s, i, j);
    MatchDomain(s, i, j);
    MatchLastDot(s, i, j);
  }

  /** The `@` a match places at `i` is the first one in `s`. */
  lemma MatchAtSign(s: string, i: int, j: int)
    requires MatchesAt(s, i, j)
    ensures FirstIndex(s, "@") == i
  {
    var at := FirstIndex(s, "@");
    if at < i {
      assert false;
    }
  }

  /** After the `@` of a match come domain characters only. */
  lemma MatchDomain(s: string, i: int, j: int)
    requires MatchesAt(s, i, j)
    ensures '@' !in s[i + 1..] && AllDomain(s[i + 1..])
  {
    var domain := s[i + 1..];
    assert domain == s[i + 1..j] + s[j..];
    forall k | 0 <= k < |domain| ensures IsDomainChar(domain[k])
    {
      if k < j - (i + 1) {
        assert IsDomainChar(s[i + 1..j][k]);
      } else if k > j - (i + 1) {
        assert IsAsciiLetter(s[j + 1..][k - (j - i)]);
      }
    }
  }

  /** The `.` a match places at `j` is the last one of the domain. */
  lemma MatchLastDot(s: string, i: int, j: int)
    requires MatchesAt(s, i, j)
    ensures var d := j - (i + 1);
      LastIndexOf(s[i + 1..], '.') == Some(d) && s[i + 1..][d + 1..] == s[j + 1..]
  {
    var domain := s[i + 1..];
    var d := j - (i + 1);
    assert domain[d] == '.';
    assert domain[d + 1..] == s[j + 1..];
    var last := LastIndexOf(domain, '.');
    if last.None? {
      assert false;
    } else if last.value < d {
      assert false;
    } else if last.value > d {
      assert false;
    }
  }
}
