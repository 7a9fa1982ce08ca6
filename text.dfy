/**
 * The two string operations both core files rely on, Python's `str.lower()`
 * and `str.strip()`, restricted to ASCII.
 */
module Text {

  /** Python's `str.isspace()` on ASCII: tab, line feed, vertical tab, form
      feed, carriage return, the four separators 0x1C-0x1F, and space. */
  predicate IsSpace(c: char) {
    c == ' ' || ('\t' <= c <= '\r') || ('\U{1C}' <= c <= '\U{1F}')
  }

  predicate IsUpper(c: char) {
    'A' <= c <= 'Z'
  }

  /** `c.lower()` for one ASCII character; every other character is kept. */
  function LowerChar(c: char): (d: char)
    ensures !IsUpper(d)
    ensures IsUpper(c) ==> d as int == c as int + 32
    ensures !IsUpper(c) ==> d == c
  {
    if IsUpper(c) then (c as int + ('a' as int - 'A' as int)) as char else c
  }

  /** No character of `s` is an upper-case letter. */
  predicate IsLowerCase(s: string) {
    forall k :: 0 <= k < |s| ==> !IsUpper(s[k])
  }

  /** Neither the first nor the last character of `s` is whitespace. */
  predicate IsStripped(s: string) {
    |s| == 0 || (!IsSpace(s[0]) && !IsSpace(s[|s| - 1]))
  }

  predicate AllSpace(s: string) {
    forall k :: 0 <= k < |s| ==> IsSpace(s[k])
  }

  /** `s.lower()`: the same string, letter by letter in lower case. */
  function Lower(s: string): (r: string)
    ensures |r| == |s|
    ensures forall k :: 0 <= k < |s| ==> r[k] == LowerChar(s[k])
  {
    if s == [] then [] else [LowerChar(s[0])] + Lower(s[1..])
  }

  /** `s.lstrip()`: drop the leading whitespace. */
  function TrimStart(s: string): (r: string)
    ensures |r| <= |s|
  {
    if |s| > 0 && IsSpace(s[0]) then TrimStart(s[1..]) else s
  }

  /** `s.rstrip()`: drop the trailing whitespace. */
  function TrimEnd(s: string): (r: string)
    ensures |r| <= |s|
  {
    if |s| > 0 && IsSpace(s[|s| - 1]) then TrimEnd(s[..|s| - 1]) else s
  }

  /** TrimStart keeps a suffix of `s`, drops only whitespace before it, and
      the suffix does not start with whitespace. */
  lemma {:induction false} TrimStartSuffix(s: string)
    ensures TrimStart(s) == s[|s| - |TrimStart(s)|..]
    ensures AllSpace(s[..|s| - |TrimStart(s)|])
    ensures |TrimStart(s)| > 0 ==> !IsSpace(TrimStart(s)[0])
  {
    if |s| > 0 && IsSpace(s[0]) {
      TrimStartSuffix(s[1..]);
      var n := |s| - |TrimStart(s)|;
      assert s[1..][..n - 1] == s[1..n];
    }
  }

  /** TrimEnd keeps a prefix of `s`, drops only whitespace after it, and the
      prefix does not end with whitespace. */
  lemma {:induction false} TrimEndPrefix(s: string)
    ensures TrimEnd(s) == s[..|TrimEnd(s)|]
    ensures AllSpace(s[|TrimEnd(s)|..])
    ensures |TrimEnd(s)| > 0 ==> !IsSpace(TrimEnd(s)[|TrimEnd(s)| - 1])
  {
    if |s| > 0 && IsSpace(s[|s| - 1]) {
      TrimEndPrefix(s[..|s| - 1]);
      var n := |TrimEnd(s)|;
      assert s[..|s| - 1][n..] + [s[|s| - 1]] == s[n..];
    }
  }

  /** `s.strip()`: drop whitespace at both ends. */
  function Strip(s: string): (r: string)
    ensures |r| <= |s| && IsStripped(r)
  {
    TrimStartSuffix(s);
    TrimEndPrefix(TrimStart(s));
    TrimEnd(TrimStart(s))
  }

  /** Strip cuts out one slice of `s`, removes only whitespace around it, and
      leaves no whitespace at either end. */
  lemma StripSlice(s: string) returns (i: nat, j: nat)
    ensures i <= j <= |s| && Strip(s) == s[i..j]
    ensures AllSpace(s[..i]) && AllSpace(s[j..])
    ensures IsStripped(Strip(s))
  {
    var t := TrimStart(s);
    TrimStartSuffix(s);
    TrimEndPrefix(t);
    i := |s| - |t|;
    j := i + |TrimEnd(t)|;
    assert s[i..][..j - i] == s[i..j];
    assert s[j..] == t[j - i..];
  }

  /** Strip keeps exactly the stripped strings as they are. */
  lemma StripFixedIff(s: string)
    ensures Strip(s) == s <==> IsStripped(s)
  {
    var i, j := StripSlice(s);
  }

  /** Stripping twice is stripping once. */
  lemma StripIdempotent(s: string)
    ensures Strip(Strip(s)) == Strip(s)
  {
    var _, _ := StripSlice(s);
    StripFixedIff(Strip(s));
  }

  /** Strip gives the empty string exactly for all-whitespace input. */
  lemma StripEmptyIff(s: string)
    ensures Strip(s) == [] <==> AllSpace(s)
  {
    var i, j := StripSlice(s);
    if i == j {
      forall k | 0 <= k < |s| ensures IsSpace(s[k]) {
        if k < i { assert s[..i][k] == s[k]; } else { assert s[j..][k - j] == s[k]; }
      }
    }
  }

  /** Every character Strip keeps was in its input. */
  lemma StripKeepsCharacters(s: string, c: char)
    ensures c in Strip(s) ==> c in s
  {
    var i, j := StripSlice(s);
    if c in Strip(s) {
      var k :| 0 <= k < |Strip(s)| && Strip(s)[k] == c;
      assert s[i + k] == c;
    }
  }

  /** A lower-case string is its own lower case. */
  lemma LowerFixed(s: string)
    requires IsLowerCase(s)
    ensures Lower(s) == s
  {
  }

  /** Lower case survives stripping. */
  lemma StripKeepsLowerCase(s: string)
    requires IsLowerCase(s)
    ensures IsLowerCase(Strip(s))
  {
    var i, j := StripSlice(s);
    forall k | 0 <= k < |Strip(s)| ensures !IsUpper(Strip(s)[k]) {
      assert Strip(s)[k] == s[i + k];
    }
  }
}
