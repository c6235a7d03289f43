/** Python string normalisation as the auth routes use it: `str.strip()`,
    `str.lower()` and the whitespace class `\s` of the `re` module. */
module Text {

  /** The characters Python's `str.isspace()` accepts; `str.strip()` removes
      exactly these and the `re` class `\s` matches exactly these. */
  predicate IsSpace(c: char) {
    || c == ' ' || c == '\t' || c == '\n' || c == '\r'
    || c == '\U{000B}' || c == '\U{000C}'
    || ('\U{001C}' <= c <= '\U{001F}')
    || c == '\U{0085}' || c == '\U{00A0}' || c == '\U{1680}'
    || ('\U{2000}' <= c <= '\U{200A}')
    || c == '\U{2028}' || c == '\U{2029}' || c == '\U{202F}'
    || c == '\U{205F}' || c == '\U{3000}'
  }

  predicate IsUpper(c: char) { 'A' <= c <= 'Z' }

  predicate IsLowerLetter(c: char) { 'a' <= c <= 'z' }

  predicate IsDigit(c: char) { '0' <= c <= '9' }

  /** One character of `str.lower()`, restricted to ASCII letters. */
  function LowerChar(c: char): (d: char)
    ensures !IsUpper(d)
    ensures !IsUpper(c) ==> d == c
    ensures IsUpper(c) ==> IsLowerLetter(d)
    ensures IsSpace(d) <==> IsSpace(c)
  {
    if IsUpper(c) then (c as int + 32) as char else c
  }

  /** `s.lower()` on ASCII letters. */
  function Lower(s: string): (r: string)
    ensures |r| == |s|
    ensures forall i :: 0 <= i < |s| ==> r[i] == LowerChar(s[i])
  {
    if s == [] then [] else [LowerChar(s[0])] + Lower(s[1..])
  }

  predicate AllSpace(s: string) {
    forall k :: 0 <= k < |s| ==> IsSpace(s[k])
  }

  /** Number of whitespace characters at the front of `s`. */
  function LeadingSpaces(s: string): (n: nat)
    ensures n <= |s|
    ensures AllSpace(s[..n])
    ensures n < |s| ==> !IsSpace(s[n])
  {
    if s == [] || !IsSpace(s[0]) then 0 else 1 + LeadingSpaces(s[1..])
  }

  /** Length of `s` once its trailing whitespace is cut off. */
  function WithoutTrailingSpaces(s: string): (n: nat)
    ensures n <= |s|
    ensures AllSpace(s[n..])
    ensures n > 0 ==> !IsSpace(s[n - 1])
  {
    if s == [] || !IsSpace(s[|s| - 1]) then |s| else WithoutTrailingSpaces(s[..|s| - 1])
  }

  /** `s.strip()`: the block of `s` left once the whitespace before its first
      and after its last non-whitespace character is removed. */
  function Strip(s: string): (r: string)
    ensures StripsTo(s, LeadingSpaces(s), r)
  {
    var i := LeadingSpaces(s);
    var t := s[i..];
    var j := WithoutTrailingSpaces(t);
    assert AllSpace(s[i + j..]) by { assert s[i + j..] == t[j..]; }
    assert t[..j] == s[i..i + j];
    assert StripsTo(s, i, t[..j]);
    t[..j]
  }

  /** `r` sits at offset `i` of `s`, everything around it is whitespace, and it
      neither starts nor ends with whitespace. */
  predicate StripsTo(s: string, i: nat, r: string) {
    && i + |r| <= |s|
    && s[i..i + |r|] == r
    && AllSpace(s[..i])
    && AllSpace(s[i + |r|..])
    && (r != [] ==> !IsSpace(r[0]) && !IsSpace(r[|r| - 1]))
  }

  /** The normalisation applied to emails and usernames: `s.lower().strip()`. */
  function Normalize(s: string): (r: string)
    ensures r == [] || (!IsSpace(r[0]) && !IsSpace(r[|r| - 1]))
    ensures forall k :: 0 <= k < |r| ==> !IsUpper(r[k])
  {
    Strip(Lower(s))
  }

  /** Stripping a string with no whitespace at either end gives it back. */
  lemma StripFixesTrimmed(s: string)
    requires s != [] ==> !IsSpace(s[0]) && !IsSpace(s[|s| - 1])
    ensures Strip(s) == s
  {
    assert LeadingSpaces(s) == 0;
    assert WithoutTrailingSpaces(s) == |s|;
    assert s[0..] == s;
  }

  /** A block cut out of a lowercased string is already lowercase. */
  lemma LowerFixesLowered(l: string, s: string, i: nat)
    requires l == Lower(s)
    requires i <= |l|
    ensures Lower(l[i..]) == l[i..]
  {
    var t := l[i..];
    forall k | 0 <= k < |t|
      ensures Lower(t)[k] == t[k]
    {
      assert t[k] == LowerChar(s[i + k]);
    }
  }

  /** Normalising an already normalised email or username changes nothing, so
      a value the server stored matches itself when sent back. */
  lemma NormalizeIdempotent(s: string)
    ensures Normalize(Normalize(s)) == Normalize(s)
  {
    var l := Lower(s);
    var n := Strip(l);
    var i := LeadingSpaces(l);
    assert n == l[i..][..|n|];
    LowerFixesLowered(l, s, i);
    assert Lower(n) == n by {
      forall k | 0 <= k < |n|
        ensures Lower(n)[k] == n[k]
      {
        assert n[k] == l[i..][k];
      }
    }
    StripFixesTrimmed(n);
  }
}
