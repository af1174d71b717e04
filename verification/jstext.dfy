/** The JavaScript string operations the rules rely on: `trim`, `length`
    (in UTF-16 code units), `indexOf`, `replace` with a string pattern, and
    the decimal rendering of integral numbers. */
module JsText {
  import opened Wrappers

  /** A character `String.prototype.trim` removes: ECMAScript's WhiteSpace
      (tab, vertical tab, form feed, the byte order mark and every space
      separator) together with its LineTerminator characters. */
  predicate IsWhiteSpace(c: char) {
    || c == '\t' || c == '\n' || c == '\U{000B}' || c == '\U{000C}' || c == '\r'
    || c == ' ' || c == '\U{00A0}' || c == '\U{1680}'
    || ('\U{2000}' <= c <= '\U{200A}')
    || c == '\U{2028}' || c == '\U{2029}' || c == '\U{202F}' || c == '\U{205F}'
    || c == '\U{3000}' || c == '\U{FEFF}'
  }

  /** Every character of `s` is white space (true of the empty string). */
  predicate IsBlank(s: string) {
    forall i :: 0 <= i < |s| ==> IsWhiteSpace(s[i])
  }

  /** `s` with its leading white space removed. */
  function TrimStart(s: string): (r: string)
    ensures |r| <= |s| && r == s[|s| - |r|..]
    ensures IsBlank(s[..|s| - |r|])
    ensures r == [] || !IsWhiteSpace(r[0])
  {
    if s != [] && IsWhiteSpace(s[0]) then TrimStart(s[1..]) else s
  }

  /** `s` with its trailing white space removed. */
  function TrimEnd(s: string): (r: string)
    ensures |r| <= |s| && r == s[..|r|]
    ensures IsBlank(s[|r|..])
    ensures r == [] || !IsWhiteSpace(r[|r| - 1])
  {
    if s != [] && IsWhiteSpace(s[|s| - 1]) then TrimEnd(s[..|s| - 1]) else s
  }

  /** `s.trim()`: the trimmed string is empty exactly when `s` is blank, and
      otherwise it starts and ends with a character that is not white space. */
  function Trim(s: string): (r: string)
    ensures r == [] <==> IsBlank(s)
    ensures r != [] ==> !IsWhiteSpace(r[0]) && !IsWhiteSpace(r[|r| - 1])
  {
    var u := TrimStart(s);
    var r := TrimEnd(u);
    TrimEmpty(s, u, r);
    r
  }

  /** Trimming leaves nothing exactly when every character is white space. */
  lemma TrimEmpty(s: string, u: string, r: string)
    requires u == TrimStart(s) && r == TrimEnd(u)
    ensures r == [] <==> IsBlank(s)
  {
    assert IsBlank(s) ==> u == [] by {
      if u != [] { assert u[0] == s[|s| - |u|]; }
    }
    assert r == [] ==> IsBlank(s) by {
      if r == [] {
        assert s == s[..|s| - |u|] + u;
        assert u == [];
      }
    }
  }

  /** `s` is `r` placed at index `i` between a blank prefix and a blank suffix. */
  ghost predicate BlankAround(s: string, i: int, r: string) {
    0 <= i <= |s| - |r| && IsBlank(s[..i]) && s[i..i + |r|] == r && IsBlank(s[i + |r|..])
  }

  /** `s.trim()` cuts `s` at both ends only: the trimmed string sits in `s`
      between a blank prefix and a blank suffix. */
  lemma TrimIsInfix(s: string)
    ensures exists i :: BlankAround(s, i, Trim(s))
  {
    var u := TrimStart(s);
    var r := TrimEnd(u);
    assert r == Trim(s);
    var i := |s| - |u|;
    assert s[i..] == u;
    assert s[i..i + |r|] == u[..|r|];
    assert s[i + |r|..] == u[|r|..];
    assert BlankAround(s, i, r);
  }

  /** `s.length`: the number of UTF-16 code units, two for a character
      outside the Basic Multilingual Plane. */
  function Utf16Length(s: string): (n: nat)
    ensures |s| <= n <= 2 * |s|
    ensures (forall i :: 0 <= i < |s| ==> s[i] as int <= 0xFFFF) ==> n == |s|
    ensures (forall i :: 0 <= i < |s| ==> s[i] as int > 0xFFFF) ==> n == 2 * |s|
  {
    if s == [] then 0 else (if s[0] as int > 0xFFFF then 2 else 1) + Utf16Length(s[1..])
  }

  /** The code-unit count is additive: each character contributes one unit,
      or two for a character outside the Basic Multilingual Plane. */
  lemma {:induction false} Utf16Concat(a: string, b: string)
    ensures Utf16Length(a + b) == Utf16Length(a) + Utf16Length(b)
  {
    if a != [] {
      assert (a + b)[0] == a[0] && (a + b)[1..] == a[1..] + b;
      Utf16Concat(a[1..], b);
    } else {
      assert a + b == b;
    }
  }

  /** One character is one code unit inside the Basic Multilingual Plane and a
      surrogate pair outside it. */
  lemma Utf16Char(c: char)
    ensures Utf16Length([c]) == if c as int > 0xFFFF then 2 else 1
  {
  }

  /** The index of the first character of `s` drawn from `chars`, or `|s|`. */
  function FirstIndex(s: string, chars: string): (r: nat)
    ensures r <= |s|
    ensures r < |s| ==> s[r] in chars
    ensures forall j :: 0 <= j < r ==> s[j] !in chars
  {
    if s == [] || s[0] in chars then 0 else 1 + FirstIndex(s[1..], chars)
  }

  /** `pat` occurs in `s` starting at index `j`. */
  predicate OccursAt(s: string, pat: string, j: int) {
    0 <= j && j + |pat| <= |s| && s[j..j + |pat|] == pat
  }

  /** `s.indexOf(pat, from)`: the first occurrence at or after `from`. */
  function IndexFrom(s: string, pat: string, from: nat): (r: Option<nat>)
    ensures r.Some? ==> from <= r.value && OccursAt(s, pat, r.value)
    ensures forall j :: from <= j && (r.None? || j < r.value) ==> !OccursAt(s, pat, j)
    decreases |s| - from
  {
    if from + |pat| > |s| then None
    else if s[from..from + |pat|] == pat then Some(from)
    else IndexFrom(s, pat, from + 1)
  }

  /** `s.indexOf(pat)`. */
  function IndexOf(s: string, pat: string): (r: Option<nat>)
    ensures r.Some? ==> OccursAt(s, pat, r.value)
    ensures forall j :: r.None? || j < r.value ==> !OccursAt(s, pat, j)
  {
    IndexFrom(s, pat, 0)
  }

  /** The replacement text `String.prototype.replace` inserts for the
      match `matched` found at `position` in `str`, given the replacement
      template: `$$` stands for `$`, `$&` for the match, `` $` `` for the text
      before it and `$'` for the text after it. A string pattern has no
      capture groups, so `$1` or `$<` stay as they are. */
  function GetSubstitution(matched: string, str: string, position: nat, replacement: string): string
    requires position + |matched| <= |str|
    decreases |replacement|
  {
    if replacement == [] then []
    else if replacement[0] == '$' && |replacement| >= 2 && replacement[1] in "$&`'" then
      var rest := GetSubstitution(matched, str, position, replacement[2..]);
      match replacement[1]
      case '$' => "$" + rest
      case '&' => matched + rest
      case '`' => str[..position] + rest
      case _ => str[position + |matched|..] + rest
    else
      [replacement[0]] + GetSubstitution(matched, str, position, replacement[1..])
  }

  /** A replacement without `$` is inserted literally. */
  lemma {:induction false} SubstitutionLiteral(matched: string, str: string, position: nat, replacement: string)
    requires position + |matched| <= |str|
    requires '$' !in replacement
    ensures GetSubstitution(matched, str, position, replacement) == replacement
  {
    if replacement != [] {
      assert replacement[0] != '$';
      assert replacement == [replacement[0]] + replacement[1..];
      SubstitutionLiteral(matched, str, position, replacement[1..]);
    }
  }

  /** `s.replace(pat, rep)` with a string pattern: only the first occurrence
      of `pat` is replaced, and a string without `pat` is returned as it is. */
  function ReplaceFirst(s: string, pat: string, rep: string): (r: string)
    ensures IndexOf(s, pat).None? ==> r == s
    ensures IndexOf(s, pat).Some? && '$' !in rep ==>
      var i := IndexOf(s, pat).value; r == s[..i] + rep + s[i + |pat|..]
  {
    match IndexOf(s, pat)
    case None => s
    case Some(i) =>
      SubstitutionLiteralIfPlain(pat, s, i, rep);
      s[..i] + GetSubstitution(pat, s, i, rep) + s[i + |pat|..]
  }

  lemma SubstitutionLiteralIfPlain(matched: string, str: string, position: nat, replacement: string)
    requires position + |matched| <= |str|
    ensures '$' !in replacement ==> GetSubstitution(matched, str, position, replacement) == replacement
  {
    if '$' !in replacement { SubstitutionLiteral(matched, str, position, replacement); }
  }

  /** A string that does not contain the first character of `pat` has no
      occurrence of it, so `replace` leaves it unchanged. */
  lemma ReplaceAbsent(s: string, pat: string, rep: string)
    requires pat != [] && pat[0] !in s
    ensures ReplaceFirst(s, pat, rep) == s
  {
    if IndexOf(s, pat).Some? {
      assert false;
    }
  }

  /** When `pat` first occurs right after a prefix `p` that does not contain
      its first character, exactly that occurrence is replaced and any later
      occurrence in `q` is kept. */
  lemma ReplaceAfterPrefix(p: string, pat: string, q: string, rep: string)
    requires pat != [] && pat[0] !in p && '$' !in rep
    ensures ReplaceFirst(p + pat + q, pat, rep) == p + rep + q
  {
    var s := p + pat + q;
    assert OccursAt(s, pat, |p|) by { assert s[|p|..|p| + |pat|] == pat; }
    var i := IndexOf(s, pat).value;
    assert i == |p|;
    assert s[..i] == p;
    assert s[i + |pat|..] == q;
  }

  function DigitChar(d: nat): char
    requires d < 10
  {
    "0123456789"[d]
  }

  /** The decimal digits of a natural number, without leading zeros. */
  function NatToDecimal(n: nat): (r: string)
    ensures r != []
    ensures forall i :: 0 <= i < |r| ==> '0' <= r[i] <= '9'
    ensures |r| > 1 ==> r[0] != '0'
  {
    if n < 10 then [DigitChar(n)] else NatToDecimal(n / 10) + [DigitChar(n % 10)]
  }

  /** `String(n)` for an integral number: an optional minus sign and its
      decimal digits. */
  function IntToDecimal(n: int): (r: string)
    ensures r != []
    ensures r[0] == '-' <==> n < 0
    ensures n < 0 ==> |r| >= 2
    ensures forall i :: (if n < 0 then 1 else 0) <= i < |r| ==> '0' <= r[i] <= '9'
    ensures var k := if n < 0 then 1 else 0; |r| > k + 1 ==> r[k] != '0'
    ensures ':' !in r && '$' !in r
  {
    if n < 0 then
      var digits := NatToDecimal(-n);
      assert forall i :: 1 <= i < |digits| + 1 ==> ("-" + digits)[i] == digits[i - 1];
      "-" + digits
    else NatToDecimal(n)
  }
}
