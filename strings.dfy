/**
 * The pieces of Python's `str` that the service relies on: `isspace`,
 * `strip()` without arguments, and `startswith`.
 */
module Strings {

  /**
   * The characters Python's `str.isspace` accepts, which are also the ones
   * `str.strip()` removes and the ones the regular-expression class `\s` matches.
   */
  predicate IsSpace(c: char) {
    var n := c as int;
    (0x09 <= n <= 0x0D) || (0x1C <= n <= 0x20) || n == 0x85 || n == 0xA0
    || n == 0x1680 || (0x2000 <= n <= 0x200A) || n == 0x2028 || n == 0x2029
    || n == 0x202F || n == 0x205F || n == 0x3000
  }

  predicate StartsWith(s: string, prefix: string) {
    |prefix| <= |s| && s[..|prefix|] == prefix
  }

  /** `s` without its leading whitespace: the longest suffix that does not start with a space. */
  function TrimStart(s: string): (r: string)
    ensures |r| <= |s|
    ensures forall i :: 0 <= i < |s| - |r| ==> IsSpace(s[i])
    ensures r != [] ==> !IsSpace(r[0])
  {
    if s != [] && IsSpace(s[0]) then TrimStart(s[1..]) else s
  }

  /** `s` without its trailing whitespace: the longest prefix that does not end with a space. */
  function TrimEnd(s: string): (r: string)
    ensures |r| <= |s|
    ensures forall i :: |r| <= i < |s| ==> IsSpace(s[i])
    ensures r != [] ==> !IsSpace(r[|r| - 1])
  {
    if s != [] && IsSpace(s[|s| - 1]) then TrimEnd(s[..|s| - 1]) else s
  }

  /** What `TrimStart` leaves is a suffix of its argument. */
  lemma {:induction false} TrimStartIsSuffix(s: string)
    ensures TrimStart(s) == s[|s| - |TrimStart(s)|..]
  {
    if s != [] && IsSpace(s[0]) {
      TrimStartIsSuffix(s[1..]);
      assert s[1..][|s| - 1 - |TrimStart(s)|..] == s[|s| - |TrimStart(s)|..];
    }
  }

  /** What `TrimEnd` leaves is a prefix of its argument. */
  lemma {:induction false} TrimEndIsPrefix(s: string)
    ensures TrimEnd(s) == s[..|TrimEnd(s)|]
  {
    if s != [] && IsSpace(s[|s| - 1]) {
      TrimEndIsPrefix(s[..|s| - 1]);
      assert s[..|s| - 1][..|TrimEnd(s)|] == s[..|TrimEnd(s)|];
    }
  }

  /** Python's `s.strip()`. */
  function Strip(s: string): string {
    TrimEnd(TrimStart(s))
  }

  /**
   * `strip` removes whitespace from both ends and nothing else: the result is
   * a contiguous piece of `s`, everything outside it is whitespace, and it
   * neither starts nor ends with whitespace.
   */
  lemma StripSlice(s: string) returns (i: nat)
    ensures i + |Strip(s)| <= |s| && Strip(s) == s[i..i + |Strip(s)|]
    ensures forall j :: 0 <= j < i ==> IsSpace(s[j])
    ensures forall j :: i + |Strip(s)| <= j < |s| ==> IsSpace(s[j])
    ensures Strip(s) != [] ==> !IsSpace(Strip(s)[0]) && !IsSpace(Strip(s)[|Strip(s)| - 1])
  {
    var t := TrimStart(s);
    i := |s| - |t|;
    var r := TrimEnd(t);
    assert t == s[i..] by { TrimStartIsSuffix(s); }
    assert r == t[..|r|] by { TrimEndIsPrefix(t); }
    assert s[i..i + |r|] == r;
    forall j | i + |r| <= j < |s| ensures IsSpace(s[j]) {
      assert s[j] == t[j - i];
    }
    if r != [] {
      assert r[0] == t[0];
    }
  }

  /** `strip` gives the empty string exactly when every character is whitespace. */
  lemma StripBlank(s: string)
    ensures Strip(s) == [] <==> forall j :: 0 <= j < |s| ==> IsSpace(s[j])
  {
    var i := StripSlice(s);
    if Strip(s) != [] {
      assert !IsSpace(s[i]);
    }
  }

  /** A string with no whitespace at either end is left as it is. */
  lemma StripTrimmed(s: string)
    requires s != [] ==> !IsSpace(s[0]) && !IsSpace(s[|s| - 1])
    ensures Strip(s) == s
  {
  }

  /** `strip` is idempotent. */
  lemma StripIdempotent(s: string)
    ensures Strip(Strip(s)) == Strip(s)
  {
    var _ := StripSlice(s);
    StripTrimmed(Strip(s));
  }

  /**
   * Trailing whitespace is taken from the end only: a prefix in front of a
   * string that holds some non-space character survives `TrimEnd` untouched.
   */
  lemma {:induction false} TrimEndAfter(p: string, s: string)
    requires exists j :: 0 <= j < |s| && !IsSpace(s[j])
    ensures TrimEnd(p + s) == p + TrimEnd(s)
  {
    var j :| 0 <= j < |s| && !IsSpace(s[j]);
    if IsSpace(s[|s| - 1]) {
      assert (p + s)[..|p + s| - 1] == p + s[..|s| - 1];
      assert s[..|s| - 1][j] == s[j];
      TrimEndAfter(p, s[..|s| - 1]);
    }
  }

  /**
   * `strip` keeps a prefix that contains no whitespace: a string that starts
   * with such a prefix still starts with it after `strip`.
   */
  lemma StripKeepsPrefix(s: string, prefix: string)
    requires prefix != [] && StartsWith(s, prefix)
    requires forall j :: 0 <= j < |prefix| ==> !IsSpace(prefix[j])
    ensures StartsWith(Strip(s), prefix)
  {
    var i := StripSlice(s);
    assert s[0] == prefix[0];
    assert i == 0;
    assert s[|prefix| - 1] == prefix[|prefix| - 1];
    assert |prefix| <= |Strip(s)|;
    assert Strip(s)[..|prefix|] == s[..|prefix|];
  }
}
