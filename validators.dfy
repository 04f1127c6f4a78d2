/**
 * The two request validators of the HTTP layer: the one applied to the URL of
 * a create request and the one applied to the URL of an update request.
 * Both reject a missing, empty or whitespace-only value and put `https://` in
 * front of a value without an `http://` or `https://` scheme; the create
 * validator also requires the result to have the shape of an absolute
 * HTTP(S) URL. The one that is returned is the stripped value.
 */
module Validators {
  import opened Wrappers
  import opened Strings

  datatype ValidationError =
    | EmptyUrl          // "URL cannot be empty"
    | InvalidUrlFormat  // "Invalid URL format"

  /** `not v or not v.strip()`: no value, the empty string, or whitespace only. */
  predicate IsBlank(v: Option<string>) {
    v.None? || v.value == [] || Strip(v.value) == []
  }

  const HTTP: string := "http://"
  const HTTPS: string := "https://"

  predicate HasScheme(v: string) {
    StartsWith(v, HTTP) || StartsWith(v, HTTPS)
  }

  /** The value with `https://` put in front unless it already starts with a scheme. */
  function WithScheme(v: string): string {
    if HasScheme(v) then v else HTTPS + v
  }

  /** `UpdateUrlRequest.validate_url`. */
  function ValidateUpdateUrl(v: Option<string>): Result<string, ValidationError> {
    if IsBlank(v) then Err(EmptyUrl) else Ok(Strip(WithScheme(v.value)))
  }

  /** `CreateUrlRequest.validate_url`: the pattern is matched before stripping. */
  function ValidateCreateUrl(v: Option<string>): Result<string, ValidationError> {
    if IsBlank(v) then Err(EmptyUrl)
    else if !MatchesUrlPattern(WithScheme(v.value)) then Err(InvalidUrlFormat)
    else Ok(Strip(WithScheme(v.value)))
  }

  // ---------------------------------------------------------------------------
  // The URL pattern, matched case-insensitively and anchored at both ends:
  //   scheme `https?://`, then a host (dotted domain name, `localhost`, or a
  //   dotted IPv4 address), an optional `:port`, then either nothing, a single
  //   `/`, or `/` or `?` followed by non-space characters. The closing anchor
  //   `$` also accepts one final line break.
  // ---------------------------------------------------------------------------

  predicate IsDigit(c: char) { '0' <= c <= '9' }

  predicate IsLetter(c: char) { 'a' <= c <= 'z' || 'A' <= c <= 'Z' }

  predicate IsAlnum(c: char) { IsLetter(c) || IsDigit(c) }

  function Lower(c: char): char {
    if 'A' <= c <= 'Z' then (c as int - 'A' as int + 'a' as int) as char else c
  }

  /** `s` equals the lower-case word `w` when case is ignored. */
  predicate EqualsIgnoringCase(s: string, w: string) {
    |s| == |w| && forall i :: 0 <= i < |s| ==> Lower(s[i]) == w[i]
  }

  // Each part is a predicate on the range [lo, hi) of the whole string `v`.

  /** `[A-Z0-9](?:[A-Z0-9-]{0,61}[A-Z0-9])?` */
  predicate IsLabel(v: string, lo: nat, hi: nat)
    requires lo <= hi <= |v|
  {
    1 <= hi - lo <= 63 && IsAlnum(v[lo]) && IsAlnum(v[hi - 1])
    && forall m :: lo <= m < hi ==> IsAlnum(v[m]) || v[m] == '-'
  }

  /** `[A-Z]{2,6}\.?` */
  predicate IsTopLevel(v: string, lo: nat, hi: nat)
    requires lo <= hi <= |v|
  {
    var e := if lo < hi && v[hi - 1] == '.' then hi - 1 else hi;
    2 <= e - lo <= 6 && forall m :: lo <= m < e ==> IsLetter(v[m])
  }

  /** `(?:label\.)+[A-Z]{2,6}\.?`: one or more labels, each followed by a dot, then the top level. */
  predicate IsDomain(v: string, lo: nat, hi: nat)
    requires lo <= hi <= |v|
    decreases hi - lo
  {
    exists i :: lo <= i < hi && v[i] == '.' && IsLabel(v, lo, i)
      && (IsTopLevel(v, i + 1, hi) || IsDomain(v, i + 1, hi))
  }

  predicate IsLocalhost(v: string, lo: nat, hi: nat)
    requires lo <= hi <= |v|
  {
    hi - lo == 9 && forall m :: lo <= m < hi ==> Lower(v[m]) == "localhost"[m - lo]
  }

  /** `\d{1,3}` */
  predicate IsOctet(v: string, lo: nat, hi: nat)
    requires lo <= hi <= |v|
  {
    1 <= hi - lo <= 3 && forall m :: lo <= m < hi ==> IsDigit(v[m])
  }

  /** `n` octets separated by dots: `\d{1,3}(?:\.\d{1,3}){n-1}`. */
  predicate IsDottedOctets(v: string, lo: nat, hi: nat, n: nat)
    requires lo <= hi <= |v|
    decreases n
  {
    if n <= 1 then IsOctet(v, lo, hi)
    else exists i :: lo <= i < hi && v[i] == '.' && IsOctet(v, lo, i) && IsDottedOctets(v, i + 1, hi, n - 1)
  }

  /** `\d{1,3}\.\d{1,3}\.\d{1,3}\.\d{1,3}` */
  predicate IsIpv4(v: string, lo: nat, hi: nat)
    requires lo <= hi <= |v|
  {
    IsDottedOctets(v, lo, hi, 4)
  }

  predicate IsHost(v: string, lo: nat, hi: nat)
    requires lo <= hi <= |v|
  {
    IsDomain(v, lo, hi) || IsLocalhost(v, lo, hi) || IsIpv4(v, lo, hi)
  }

  /** `(?::\d+)?` */
  predicate IsPort(v: string, lo: nat, hi: nat)
    requires lo <= hi <= |v|
  {
    lo == hi || (hi - lo >= 2 && v[lo] == ':' && forall m :: lo < m < hi ==> IsDigit(v[m]))
  }

  /** `(?:/?|[/?]\S+)` */
  predicate IsPath(v: string, lo: nat, hi: nat)
    requires lo <= hi <= |v|
  {
    lo == hi || (hi - lo == 1 && v[lo] == '/')
    || (hi - lo >= 2 && (v[lo] == '/' || v[lo] == '?') && forall m :: lo < m < hi ==> !IsSpace(v[m]))
  }

  /** The path, then the end of the string or one line break that ends it. */
  predicate IsPathAtEnd(v: string, lo: nat)
    requires lo <= |v|
  {
    IsPath(v, lo, |v|) || (lo < |v| && v[|v| - 1] == '\n' && IsPath(v, lo, |v| - 1))
  }

  /** Host, port and path split the rest of `v` after a scheme of length `k`. */
  predicate MatchesAfterScheme(v: string, k: nat)
    requires k <= |v|
  {
    exists h, p :: k <= h <= p <= |v| && IsHost(v, k, h) && IsPort(v, h, p) && IsPathAtEnd(v, p)
  }

  /** `url_pattern.match(v)`. */
  predicate MatchesUrlPattern(v: string) {
    (|v| >= 7 && EqualsIgnoringCase(v[..7], HTTP) && MatchesAfterScheme(v, 7))
    || (|v| >= 8 && EqualsIgnoringCase(v[..8], HTTPS) && MatchesAfterScheme(v, 8))
  }

  // ---------------------------------------------------------------------------
  // Properties of the validators
  // ---------------------------------------------------------------------------

  /** Both validators reject exactly the missing value and the whitespace-only strings. */
  lemma BlankRejected(v: Option<string>)
    ensures ValidateCreateUrl(v) == Err(EmptyUrl)
        <==> v.None? || forall j :: 0 <= j < |v.value| ==> IsSpace(v.value[j])
    ensures ValidateUpdateUrl(v) == Err(EmptyUrl)
        <==> v.None? || forall j :: 0 <= j < |v.value| ==> IsSpace(v.value[j])
  {
    if v.Some? {
      StripBlank(v.value);
    }
  }

  lemma SchemeHasNoSpace()
    ensures forall j :: 0 <= j < |HTTP| ==> !IsSpace(HTTP[j])
    ensures forall j :: 0 <= j < |HTTPS| ==> !IsSpace(HTTPS[j])
  {
  }

  /** Every value the update validator accepts starts with `http://` or `https://`. */
  lemma UpdateAcceptedHasScheme(v: Option<string>)
    ensures ValidateUpdateUrl(v).Ok? ==> HasScheme(ValidateUpdateUrl(v).value)
  {
    if ValidateUpdateUrl(v).Ok? {
      var w := WithScheme(v.value);
      SchemeHasNoSpace();
      if StartsWith(w, HTTP) {
        StripKeepsPrefix(w, HTTP);
      } else {
        assert StartsWith(w, HTTPS);
        StripKeepsPrefix(w, HTTPS);
      }
    }
  }

  /**
   * Whatever the create validator accepts, the update validator accepts too
   * and turns into the same string; the two differ only in the pattern test.
   */
  lemma CreateAgreesWithUpdate(v: Option<string>)
    ensures ValidateCreateUrl(v).Ok? ==> ValidateUpdateUrl(v) == ValidateCreateUrl(v)
    ensures ValidateCreateUrl(v) == Err(EmptyUrl) <==> ValidateUpdateUrl(v).Err?
    ensures ValidateCreateUrl(v) == Err(InvalidUrlFormat)
        <==> ValidateUpdateUrl(v).Ok? && !MatchesUrlPattern(WithScheme(v.value))
  {
  }

  /** Every value the create validator accepts starts with `http://` or `https://`. */
  lemma CreateAcceptedHasScheme(v: Option<string>)
    ensures ValidateCreateUrl(v).Ok? ==> HasScheme(ValidateCreateUrl(v).value)
  {
    UpdateAcceptedHasScheme(v);
  }

  /**
   * The scheme test looks at the value before it is stripped: leading
   * whitespace of a value without a scheme ends up inside the URL the update
   * validator returns, right after `https://`.
   */
  lemma UpdateKeepsLeadingSpace(v: string)
    requires !IsBlank(Some(v)) && !HasScheme(v)
    ensures ValidateUpdateUrl(Some(v)) == Ok(HTTPS + TrimEnd(v))
  {
    StripBlank(v);
    var j :| 0 <= j < |v| && !IsSpace(v[j]);
    assert TrimStart(HTTPS + v) == HTTPS + v;
    TrimEndAfter(HTTPS, v);
  }

  lemma UpdateKeepsLeadingSpaceExample()
    ensures ValidateUpdateUrl(Some(" example.com")) == Ok(HTTPS + " example.com")
  {
    var v := " example.com";
    assert !HasScheme(v) by {
      assert v[0] != HTTP[0] && v[0] != HTTPS[0];
    }
    assert TrimEnd(v) == v by {
      VisibleIsNotSpace(v[|v| - 1]);
    }
    assert !IsBlank(Some(v)) by {
      StripBlank(v);
      VisibleIsNotSpace(v[1]);
    }
    UpdateKeepsLeadingSpace(v);
  }

  // What each part of the pattern lets through is free of whitespace.

  /** A printable ASCII character other than the space. */
  predicate IsVisible(c: char) { '!' <= c <= '~' }

  lemma VisibleIsNotSpace(c: char)
    requires IsVisible(c)
    ensures !IsSpace(c)
  {
  }

  lemma {:induction false} DomainIsVisible(v: string, lo: nat, hi: nat)
    requires lo <= hi <= |v| && IsDomain(v, lo, hi)
    ensures forall m :: lo <= m < hi ==> IsVisible(v[m])
    decreases hi - lo
  {
    var i :| lo <= i < hi && v[i] == '.' && IsLabel(v, lo, i)
      && (IsTopLevel(v, i + 1, hi) || IsDomain(v, i + 1, hi));
    LabelIsVisible(v, lo, i);
    if IsDomain(v, i + 1, hi) {
      DomainIsVisible(v, i + 1, hi);
    } else {
      TopLevelIsVisible(v, i + 1, hi);
    }
    forall m | lo <= m < hi ensures IsVisible(v[m]) {
      if m < i {
        assert lo <= m < i;
      } else if m > i {
        assert i + 1 <= m < hi;
      }
    }
  }

  lemma LabelIsVisible(v: string, lo: nat, hi: nat)
    requires lo <= hi <= |v| && IsLabel(v, lo, hi)
    ensures forall m :: lo <= m < hi ==> IsVisible(v[m])
  {
  }

  lemma TopLevelIsVisible(v: string, lo: nat, hi: nat)
    requires lo <= hi <= |v| && IsTopLevel(v, lo, hi)
    ensures forall m :: lo <= m < hi ==> IsVisible(v[m])
  {
  }

  lemma OctetIsVisible(v: string, lo: nat, hi: nat)
    requires lo <= hi <= |v| && IsOctet(v, lo, hi)
    ensures forall m :: lo <= m < hi ==> IsVisible(v[m])
  {
  }

  lemma {:induction false} DottedOctetsAreVisible(v: string, lo: nat, hi: nat, n: nat)
    requires lo <= hi <= |v| && IsDottedOctets(v, lo, hi, n)
    ensures forall m :: lo <= m < hi ==> IsVisible(v[m])
    decreases n
  {
    if n <= 1 {
      OctetIsVisible(v, lo, hi);
    } else {
      var i :| lo <= i < hi && v[i] == '.' && IsOctet(v, lo, i) && IsDottedOctets(v, i + 1, hi, n - 1);
      OctetIsVisible(v, lo, i);
      DottedOctetsAreVisible(v, i + 1, hi, n - 1);
    }
  }

  lemma HostIsVisible(v: string, lo: nat, hi: nat)
    requires lo <= hi <= |v| && IsHost(v, lo, hi)
    ensures forall m :: lo <= m < hi ==> IsVisible(v[m])
  {
    if IsDomain(v, lo, hi) {
      DomainIsVisible(v, lo, hi);
    } else if IsIpv4(v, lo, hi) {
      DottedOctetsAreVisible(v, lo, hi, 4);
    } else {
      forall m | lo <= m < hi ensures IsVisible(v[m]) {
        assert Lower(v[m]) == "localhost"[m - lo];
      }
    }
  }

  /**
   * A string that matches the pattern holds no whitespace, except for a
   * line break as its very last character.
   */
  lemma MatchHasNoSpace(v: string)
    requires MatchesUrlPattern(v)
    ensures forall j :: 0 <= j < |v| && IsSpace(v[j]) ==> j == |v| - 1 && v[j] == '\n'
  {
    var k := if |v| >= 7 && EqualsIgnoringCase(v[..7], HTTP) && MatchesAfterScheme(v, 7) then 7 else 8;
    var h, p :| k <= h <= p <= |v| && IsHost(v, k, h) && IsPort(v, h, p) && IsPathAtEnd(v, p);
    SchemeIsVisible(v, k);
    HostIsVisible(v, k, h);
    assert forall j :: h <= j < p ==> IsVisible(v[j]);
    PathAtEndHasNoSpace(v, p);
    forall j | 0 <= j < p ensures !IsSpace(v[j]) {
      VisibleIsNotSpace(v[j]);
    }
  }

  lemma SchemeIsVisible(v: string, k: nat)
    requires k <= |v|
    requires (k == 7 && EqualsIgnoringCase(v[..7], HTTP)) || (k == 8 && EqualsIgnoringCase(v[..8], HTTPS))
    ensures forall j :: 0 <= j < k ==> IsVisible(v[j])
  {
    var w := if k == 7 then HTTP else HTTPS;
    forall j | 0 <= j < k ensures IsVisible(v[j]) {
      assert Lower(v[..k][j]) == w[j];
    }
  }

  lemma PathAtEndHasNoSpace(v: string, p: nat)
    requires p <= |v| && IsPathAtEnd(v, p)
    ensures forall j :: p <= j < |v| && IsSpace(v[j]) ==> j == |v| - 1 && v[j] == '\n'
  {
  }

  /** What the create validator accepts holds no whitespace at all. */
  lemma CreateAcceptedHasNoSpace(v: Option<string>)
    ensures ValidateCreateUrl(v).Ok? ==>
      forall j :: 0 <= j < |ValidateCreateUrl(v).value| ==> !IsSpace(ValidateCreateUrl(v).value[j])
  {
    if ValidateCreateUrl(v).Ok? {
      var w := WithScheme(v.value);
      MatchHasNoSpace(w);
      StrippedHasNoSpace(w);
    }
  }

  /** Whitespace that can only be the last character is gone after `strip`. */
  lemma StrippedHasNoSpace(w: string)
    requires forall j :: 0 <= j < |w| && IsSpace(w[j]) ==> j == |w| - 1
    ensures forall j :: 0 <= j < |Strip(w)| ==> !IsSpace(Strip(w)[j])
  {
    var u := Strip(w);
    var i := StripSlice(w);
    forall j | 0 <= j < |u| ensures !IsSpace(u[j]) {
      assert u[j] == w[i + j];
    }
  }

  /**
   * So a URL with whitespace inside it is refused at creation, although the
   * update validator accepts it unchanged.
   */
  lemma CreateRejectsInnerSpace(v: string, j: nat)
    ensures !IsBlank(Some(v)) && j < |Strip(WithScheme(v))| && IsSpace(Strip(WithScheme(v))[j]) ==>
      ValidateCreateUrl(Some(v)) == Err(InvalidUrlFormat) && ValidateUpdateUrl(Some(v)) == Ok(Strip(WithScheme(v)))
  {
    if ValidateCreateUrl(Some(v)).Ok? {
      CreateAcceptedHasNoSpace(Some(v));
    }
  }

  /** The scheme itself, in lower case, equals the scheme when case is ignored. */
  lemma SchemeIgnoringCase(v: string, w: string)
    requires w == HTTP || w == HTTPS
    requires StartsWith(v, w)
    ensures EqualsIgnoringCase(v[..|w|], w)
  {
    forall i | 0 <= i < |w| ensures Lower(v[..|w|][i]) == w[i] {
      assert v[..|w|][i] == w[i];
    }
  }

  /** `https://example.com` has the shape of a URL: a two-label domain name, no port, no path. */
  lemma ExampleMatches()
    ensures MatchesUrlPattern(HTTPS + "example.com")
  {
    var v := HTTPS + "example.com";
    assert v[8] == 'e' && v[14] == 'e' && v[15] == '.' && v[16] == 'c' && v[18] == 'm';
    assert IsLabel(v, 8, 15) by {
      assert v[9] == 'x' && v[10] == 'a' && v[11] == 'm' && v[12] == 'p' && v[13] == 'l';
      forall m | 8 <= m < 15 ensures IsAlnum(v[m]) {
        assert IsLetter(v[m]);
      }
    }
    assert IsTopLevel(v, 16, 19) by {
      assert v[17] == 'o';
      forall m | 16 <= m < 19 ensures IsLetter(v[m]) {
        assert m == 16 || m == 17 || m == 18;
      }
    }
    assert IsDomain(v, 8, 19);
    assert IsHost(v, 8, 19) && IsPort(v, 19, 19) && IsPathAtEnd(v, 19);
    assert MatchesAfterScheme(v, 8);
    assert StartsWith(v, HTTPS);
    SchemeIgnoringCase(v, HTTPS);
  }

  /** A bare domain name gets the `https://` scheme. */
  lemma CreateExample()
    ensures ValidateCreateUrl(Some("example.com")) == Ok(HTTPS + "example.com")
  {
    var host := "example.com";
    assert !HasScheme(host) by {
      assert host[0] != HTTP[0] && host[0] != HTTPS[0];
    }
    assert !IsBlank(Some(host)) by {
      StripBlank(host);
      VisibleIsNotSpace(host[0]);
    }
    var v := HTTPS + host;
    ExampleMatches();
    assert Strip(v) == v by {
      assert v[0] == 'h' && v[18] == 'm';
      VisibleIsNotSpace(v[0]);
      VisibleIsNotSpace(v[18]);
      StripTrimmed(v);
    }
  }
}
