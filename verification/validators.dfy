/**
 The URL format the hike form accepts, as the case-insensitive regular expression of
 `URLValidator.is_valid_url_format` describes it: a scheme, a host (dotted labels and a top-level
 domain, "localhost", or four digit groups), an optional port and a path, written as predicates
 on the pieces a matching string is cut into. The expression is anchored at the start by
 `match` and at the end by `$`, which also matches before one final newline.
 Letters and digits are ASCII; `\S` is any character that is not whitespace.
 */
module UrlPattern {
  import opened Text

  predicate NoSpace(s: string) {
    forall i :: 0 <= i < |s| ==> !IsSpace(s[i])
  }

  /** `https?://`, in any case. */
  predicate Scheme(x: string) {
    Lower(x) == "http://" || Lower(x) == "https://"
  }

  predicate IsLabelChar(c: char) {
    IsAlnum(c) || c == '-'
  }

  /** `[A-Z0-9](?:[A-Z0-9-]{0,61}[A-Z0-9])?`: one to 63 letters, digits and hyphens, with a letter
      or digit at both ends. */
  predicate Label(l: string) {
    && 1 <= |l| <= 63
    && IsAlnum(l[0])
    && IsAlnum(l[|l| - 1])
    && forall i :: 0 <= i < |l| ==> IsLabelChar(l[i])
  }

  /** `(?:<label>\.)+`: one or more labels, each followed by a dot. */
  predicate DottedLabels(d: string)
    decreases |d|
  {
    exists k | 1 <= k < |d| :: Label(d[..k]) && d[k] == '.' && (k + 1 == |d| || DottedLabels(d[k + 1..]))
  }

  /** `[A-Z]{2,6}`: the top-level domain. */
  predicate Tld(t: string) {
    2 <= |t| <= 6 && forall i :: 0 <= i < |t| ==> IsLetter(t[i])
  }

  /** Dotted labels, a top-level domain and an optional final dot. */
  predicate Domain(h: string) {
    exists i, j | 0 < i <= j <= |h| ::
      DottedLabels(h[..i]) && Tld(h[i..j]) && (j == |h| || (j + 1 == |h| && h[j] == '.'))
  }

  /** `\d{1,3}` */
  predicate DigitGroup(g: string) {
    1 <= |g| <= 3 && forall i :: 0 <= i < |g| ==> IsDigit(g[i])
  }

  /** `h` is four digit groups with dots at `i`, `j` and `k`. */
  predicate Ipv4At(h: string, i: int, j: int, k: int) {
    && 0 <= i < j < k < |h|
    && h[i] == '.' && h[j] == '.' && h[k] == '.'
    && DigitGroup(h[..i]) && DigitGroup(h[i + 1..j]) && DigitGroup(h[j + 1..k]) && DigitGroup(h[k + 1..])
  }

  /** Four groups of one to three digits joined by dots. */
  predicate Ipv4(h: string) {
    exists i, j, k | 0 <= i < j < k < |h| :: Ipv4At(h, i, j, k)
  }

  predicate Host(h: string) {
    Domain(h) || Lower(h) == "localhost" || Ipv4(h)
  }

  /** `(?::\d+)?` */
  predicate Port(p: string) {
    p == [] || (|p| >= 2 && p[0] == ':' && forall i :: 1 <= i < |p| ==> IsDigit(p[i]))
  }

  /** `(?:/?|[/?]\S+)`: nothing, one slash, or a slash or question mark and at least one more
      character, none of them whitespace. */
  predicate Path(p: string) {
    p == [] || p == "/" || (|p| >= 2 && (p[0] == '/' || p[0] == '?') && forall i :: 1 <= i < |p| ==> !IsSpace(p[i]))
  }

  /** The whole of `u` is a scheme, a host, a port and a path, in this order. */
  predicate UrlBody(u: string) {
    exists a, b, c | 0 <= a <= b <= c <= |u| ::
      Scheme(u[..a]) && Host(u[a..b]) && Port(u[b..c]) && Path(u[c..])
  }

  /** The regular expression matches from the start; its final `$` matches at the end of the
      string and also just before a newline that ends it. */
  predicate MatchesUrlPattern(s: string) {
    UrlBody(s) || (|s| > 0 && s[|s| - 1] == '\n' && UrlBody(s[..|s| - 1]))
  }

  /** Lower-casing leaves whitespace alone, so a string whose lower-cased form has no whitespace
      has none either. */
  lemma NoSpaceUnderLower(x: string)
    requires NoSpace(Lower(x))
    ensures NoSpace(x)
  {
    forall i | 0 <= i < |x|
      ensures !IsSpace(x[i])
    {
      assert Lower(x)[i] == LowerChar(x[i]);
    }
  }

  lemma NoSpaceAppend(x: string, y: string)
    requires NoSpace(x) && NoSpace(y)
    ensures NoSpace(x + y)
  {
    forall i | 0 <= i < |x + y|
      ensures !IsSpace((x + y)[i])
    {
      if i >= |x| {
        assert (x + y)[i] == y[i - |x|];
      }
    }
  }

  lemma LabelNoSpace(l: string)
    requires Label(l)
    ensures NoSpace(l)
  {
  }

  lemma NoSpaceAroundDot(d: string, k: nat)
    requires k < |d| && NoSpace(d[..k]) && d[k] == '.' && NoSpace(d[k + 1..])
    ensures NoSpace(d)
  {
    NoSpaceAppend(d[..k], [d[k]]);
    NoSpaceAppend(d[..k] + [d[k]], d[k + 1..]);
    assert d == d[..k] + [d[k]] + d[k + 1..];
  }

  lemma {:induction false} DottedLabelsNoSpace(d: string)
    requires DottedLabels(d)
    ensures NoSpace(d)
    decreases |d|
  {
    var k :| 1 <= k < |d| && Label(d[..k]) && d[k] == '.' && (k + 1 == |d| || DottedLabels(d[k + 1..]));
    LabelNoSpace(d[..k]);
    if k + 1 < |d| {
      DottedLabelsNoSpace(d[k + 1..]);
    }
    NoSpaceAroundDot(d, k);
  }

  lemma DomainNoSpace(h: string)
    requires Domain(h)
    ensures NoSpace(h)
  {
    var i, j :| 0 < i <= j <= |h| &&
      DottedLabels(h[..i]) && Tld(h[i..j]) && (j == |h| || (j + 1 == |h| && h[j] == '.'));
    DottedLabelsNoSpace(h[..i]);
    DomainPartsNoSpace(h, i, j);
  }

  lemma DomainPartsNoSpace(h: string, i: nat, j: nat)
    requires 0 < i <= j <= |h|
    requires NoSpace(h[..i]) && Tld(h[i..j]) && (j == |h| || (j + 1 == |h| && h[j] == '.'))
    ensures NoSpace(h)
  {
    assert NoSpace(h[i..j]);
    assert NoSpace(h[j..]);
    NoSpaceAppend(h[..i], h[i..j]);
    NoSpaceAppend(h[..i] + h[i..j], h[j..]);
    assert h == h[..i] + h[i..j] + h[j..];
  }

  lemma DigitGroupNoSpace(g: string)
    requires DigitGroup(g)
    ensures NoSpace(g)
  {
  }

  lemma PortNoSpace(p: string)
    requires Port(p)
    ensures NoSpace(p)
  {
  }

  lemma PathNoSpace(p: string)
    requires Path(p)
    ensures NoSpace(p)
  {
  }

  lemma Ipv4NoSpace(h: string)
    requires Ipv4(h)
    ensures NoSpace(h)
  {
    var i, j, k :| 0 <= i < j < k < |h| && Ipv4At(h, i, j, k);
    DigitGroupNoSpace(h[..i]);
    DigitGroupNoSpace(h[i + 1..j]);
    DigitGroupNoSpace(h[j + 1..k]);
    DigitGroupNoSpace(h[k + 1..]);
    Ipv4PartsNoSpace(h, i, j, k);
  }

  lemma Ipv4PartsNoSpace(h: string, i: nat, j: nat, k: nat)
    requires i < j < k < |h|
    requires h[i] == '.' && h[j] == '.' && h[k] == '.'
    requires NoSpace(h[..i]) && NoSpace(h[i + 1..j]) && NoSpace(h[j + 1..k]) && NoSpace(h[k + 1..])
    ensures NoSpace(h)
  {
    var t := h[j + 1..];
    assert t[..k - j - 1] == h[j + 1..k] && t[k - j..] == h[k + 1..];
    NoSpaceAroundDot(t, k - j - 1);
    var m := h[i + 1..];
    assert m[..j - i - 1] == h[i + 1..j] && m[j - i..] == t;
    NoSpaceAroundDot(m, j - i - 1);
    assert h[i + 1..] == m;
    NoSpaceAroundDot(h, i);
  }

  lemma HostNoSpace(h: string)
    requires Host(h)
    ensures NoSpace(h)
  {
    if Domain(h) {
      DomainNoSpace(h);
    } else if Lower(h) == "localhost" {
      NoSpaceUnderLower(h);
    } else {
      Ipv4NoSpace(h);
    }
  }

  lemma NoSpaceOfParts(u: string, a: nat, b: nat, c: nat)
    requires a <= b <= c <= |u|
    requires NoSpace(u[..a]) && NoSpace(u[a..b]) && NoSpace(u[b..c]) && NoSpace(u[c..])
    ensures NoSpace(u)
  {
    NoSpaceAppend(u[..a], u[a..b]);
    NoSpaceAppend(u[..a] + u[a..b], u[b..c]);
    NoSpaceAppend(u[..a] + u[a..b] + u[b..c], u[c..]);
    assert u == u[..a] + u[a..b] + u[b..c] + u[c..];
  }

  lemma UrlPartsNoSpace(u: string, a: nat, b: nat, c: nat)
    requires a <= b <= c <= |u|
    requires Scheme(u[..a]) && Host(u[a..b]) && Port(u[b..c]) && Path(u[c..])
    ensures NoSpace(u)
  {
    NoSpaceUnderLower(u[..a]);
    HostNoSpace(u[a..b]);
    PortNoSpace(u[b..c]);
    PathNoSpace(u[c..]);
    NoSpaceOfParts(u, a, b, c);
  }

  /** Nothing the pattern's body matches holds whitespace. */
  lemma UrlBodyNoSpace(u: string)
    requires UrlBody(u)
    ensures NoSpace(u)
  {
    var a, b, c :| 0 <= a <= b <= c <= |u| &&
      Scheme(u[..a]) && Host(u[a..b]) && Port(u[b..c]) && Path(u[c..]);
    UrlPartsNoSpace(u, a, b, c);
  }

  /** A matching string holds no whitespace, except that it may end in one newline. */
  lemma MatchRejectsWhitespace(s: string)
    requires MatchesUrlPattern(s)
    ensures forall i :: 0 <= i < |s| - 1 ==> !IsSpace(s[i])
    ensures |s| > 0 ==> s[|s| - 1] == '\n' || !IsSpace(s[|s| - 1])
  {
    if UrlBody(s) {
      UrlBodyNoSpace(s);
    } else {
      var t := s[..|s| - 1];
      UrlBodyNoSpace(t);
      assert forall i :: 0 <= i < |s| - 1 ==> s[i] == t[i];
    }
  }

  /** One final newline is accepted in addition to whatever the body matches, and nothing else
      is: `u + "\n"` matches exactly when `u` is a body. */
  lemma TrailingNewline(u: string)
    ensures MatchesUrlPattern(u + "\n") <==> UrlBody(u)
  {
    var s := u + "\n";
    assert s[..|s| - 1] == u;
    if UrlBody(s) {
      UrlBodyNoSpace(s);
      assert IsSpace(s[|u|]);
    }
  }

  /** Two final newlines are never accepted. */
  lemma NoSecondNewline(u: string)
    ensures !MatchesUrlPattern(u + "\n\n")
  {
    var s := u + "\n\n";
    if MatchesUrlPattern(s) {
      MatchRejectsWhitespace(s);
      assert IsSpace(s[|u|]);
    }
  }

  /** A matching string starts with "http://" or "https://", in any case. */
  lemma MatchRequiresScheme(s: string)
    requires MatchesUrlPattern(s)
    ensures StartsWith(Lower(s), "http://") || StartsWith(Lower(s), "https://")
  {
    var u := if UrlBody(s) then s else s[..|s| - 1];
    var a, b, c :| 0 <= a <= b <= c <= |u| &&
      Scheme(u[..a]) && Host(u[a..b]) && Port(u[b..c]) && Path(u[c..]);
    SchemePrefix(s, u, a);
  }

  lemma SchemePrefix(s: string, u: string, a: nat)
    requires a <= |u| <= |s| && u == s[..|u|]
    requires Scheme(u[..a])
    ensures StartsWith(Lower(s), "http://") || StartsWith(Lower(s), "https://")
  {
    var x := u[..a];
    assert x == s[..a];
    assert |Lower(x)| == a;
    assert Lower(s)[..a] == Lower(x);
  }

  /** The pieces compose: any scheme, host, port and path, written one after the other, match. */
  lemma ComposeMatches(x: string, h: string, p: string, q: string)
    requires Scheme(x) && Host(h) && Port(p) && Path(q)
    ensures MatchesUrlPattern(x + h + p + q)
  {
    var u := x + h + p + q;
    var a, b, c := |x|, |x| + |h|, |x| + |h| + |p|;
    assert u[..a] == x && u[a..b] == h && u[b..c] == p && u[c..] == q;
  }

  /** Lower-casing keeps every character class the pattern uses. */
  lemma LowerCharClasses(c: char)
    ensures IsAlnum(LowerChar(c)) == IsAlnum(c)
    ensures IsLabelChar(LowerChar(c)) == IsLabelChar(c)
    ensures IsLetter(LowerChar(c)) == IsLetter(c)
    ensures IsDigit(LowerChar(c)) == IsDigit(c)
    ensures IsSpace(LowerChar(c)) == IsSpace(c)
  {
  }

  /** A character lower-cases to a non-letter exactly when it is that non-letter. */
  lemma LowerCharIs(c: char, d: char)
    requires !IsLetter(d)
    ensures LowerChar(c) == d <==> c == d
  {
  }

  lemma LabelUnderLower(l: string)
    ensures Label(Lower(l)) == Label(l)
  {
    var e := Lower(l);
    forall i | 0 <= i < |l|
      ensures IsLabelChar(e[i]) == IsLabelChar(l[i]) && IsAlnum(e[i]) == IsAlnum(l[i])
    {
      LowerCharClasses(l[i]);
    }
  }

  /** One dot step of `DottedLabels` holds of the lower-cased string exactly when it holds of
      the string, given that this is already known of what follows the dot. */
  lemma DotStepUnderLower(d: string, k: nat)
    requires 1 <= k < |d|
    requires k + 1 < |d| ==> DottedLabels(Lower(d[k + 1..])) == DottedLabels(d[k + 1..])
    ensures var e := Lower(d);
      (Label(e[..k]) && e[k] == '.' && (k + 1 == |e| || DottedLabels(e[k + 1..])))
        == (Label(d[..k]) && d[k] == '.' && (k + 1 == |d| || DottedLabels(d[k + 1..])))
  {
    var e := Lower(d);
    LowerSlice(d, 0, k);
    assert e[..k] == Lower(d[..k]);
    LabelUnderLower(d[..k]);
    LowerCharIs(d[k], '.');
    if k + 1 < |d| {
      LowerSlice(d, k + 1, |d|);
      assert e[k + 1..] == Lower(d[k + 1..]);
    }
  }

  lemma {:induction false} DottedLabelsUnderLower(d: string)
    ensures DottedLabels(Lower(d)) == DottedLabels(d)
    decreases |d|
  {
    var e := Lower(d);
    forall k | 1 <= k < |d|
      ensures (Label(e[..k]) && e[k] == '.' && (k + 1 == |e| || DottedLabels(e[k + 1..])))
          == (Label(d[..k]) && d[k] == '.' && (k + 1 == |d| || DottedLabels(d[k + 1..])))
    {
      if k + 1 < |d| {
        DottedLabelsUnderLower(d[k + 1..]);
      }
      DotStepUnderLower(d, k);
    }
  }

  lemma TldUnderLower(t: string)
    ensures Tld(Lower(t)) == Tld(t)
  {
    forall i | 0 <= i < |t|
      ensures IsLetter(Lower(t)[i]) == IsLetter(t[i])
    {
      LowerCharClasses(t[i]);
    }
  }

  lemma DigitGroupUnderLower(g: string)
    ensures DigitGroup(Lower(g)) == DigitGroup(g)
  {
    forall i | 0 <= i < |g|
      ensures IsDigit(Lower(g)[i]) == IsDigit(g[i])
    {
      LowerCharClasses(g[i]);
    }
  }

  lemma PortUnderLower(p: string)
    ensures Port(Lower(p)) == Port(p)
  {
    forall i | 0 <= i < |p|
      ensures IsDigit(Lower(p)[i]) == IsDigit(p[i])
    {
      LowerCharClasses(p[i]);
    }
    if |p| > 0 {
      LowerCharIs(p[0], ':');
    }
  }

  lemma PathUnderLower(p: string)
    ensures Path(Lower(p)) == Path(p)
  {
    forall i | 0 <= i < |p|
      ensures IsSpace(Lower(p)[i]) == IsSpace(p[i])
    {
      LowerCharClasses(p[i]);
    }
    if |p| > 0 {
      LowerCharIs(p[0], '/');
      LowerCharIs(p[0], '?');
    }
    if Lower(p) == "/" {
      assert p == "/";
    }
  }

  lemma DomainSplitUnderLower(h: string, i: nat, j: nat)
    requires 0 < i <= j <= |h|
    ensures var e := Lower(h);
      (DottedLabels(e[..i]) && Tld(e[i..j]) && (j == |e| || (j + 1 == |e| && e[j] == '.')))
        == (DottedLabels(h[..i]) && Tld(h[i..j]) && (j == |h| || (j + 1 == |h| && h[j] == '.')))
  {
    var e := Lower(h);
    LowerSlice(h, 0, i);
    assert e[..i] == Lower(h[..i]);
    DottedLabelsUnderLower(h[..i]);
    LowerSlice(h, i, j);
    TldUnderLower(h[i..j]);
    if j < |h| {
      LowerCharIs(h[j], '.');
    }
  }

  lemma DomainUnderLower(h: string)
    ensures Domain(Lower(h)) == Domain(h)
  {
    var e := Lower(h);
    forall i, j | 0 < i <= j <= |h|
      ensures (DottedLabels(e[..i]) && Tld(e[i..j]) && (j == |e| || (j + 1 == |e| && e[j] == '.')))
           == (DottedLabels(h[..i]) && Tld(h[i..j]) && (j == |h| || (j + 1 == |h| && h[j] == '.')))
    {
      DomainSplitUnderLower(h, i, j);
    }
  }

  lemma Ipv4SplitUnderLower(h: string, i: nat, j: nat, k: nat)
    requires i < j < k < |h|
    ensures Ipv4At(Lower(h), i, j, k) == Ipv4At(h, i, j, k)
  {
    var e := Lower(h);
    LowerCharIs(h[i], '.');
    LowerCharIs(h[j], '.');
    LowerCharIs(h[k], '.');
    LowerSlice(h, 0, i);
    assert e[..i] == Lower(h[..i]);
    LowerSlice(h, i + 1, j);
    LowerSlice(h, j + 1, k);
    LowerSlice(h, k + 1, |h|);
    assert e[k + 1..] == Lower(h[k + 1..]);
    DigitGroupUnderLower(h[..i]);
    DigitGroupUnderLower(h[i + 1..j]);
    DigitGroupUnderLower(h[j + 1..k]);
    DigitGroupUnderLower(h[k + 1..]);
  }

  lemma Ipv4UnderLower(h: string)
    ensures Ipv4(Lower(h)) == Ipv4(h)
  {
    var e := Lower(h);
    if Ipv4(h) {
      var i, j, k :| 0 <= i < j < k < |h| && Ipv4At(h, i, j, k);
      Ipv4SplitUnderLower(h, i, j, k);
    }
    if Ipv4(e) {
      var i, j, k :| 0 <= i < j < k < |e| && Ipv4At(e, i, j, k);
      Ipv4SplitUnderLower(h, i, j, k);
    }
  }

  lemma HostUnderLower(h: string)
    ensures Host(Lower(h)) == Host(h)
  {
    DomainUnderLower(h);
    LowerIdempotent(h);
    Ipv4UnderLower(h);
  }

  lemma SchemeUnderLower(x: string)
    ensures Scheme(Lower(x)) == Scheme(x)
  {
    LowerIdempotent(x);
  }

  lemma BodySplitUnderLower(u: string, a: nat, b: nat, c: nat)
    requires a <= b <= c <= |u|
    ensures var e := Lower(u);
      (Scheme(e[..a]) && Host(e[a..b]) && Port(e[b..c]) && Path(e[c..]))
        == (Scheme(u[..a]) && Host(u[a..b]) && Port(u[b..c]) && Path(u[c..]))
  {
    var e := Lower(u);
    LowerSlice(u, 0, a);
    assert e[..a] == Lower(u[..a]);
    LowerSlice(u, a, b);
    LowerSlice(u, b, c);
    LowerSlice(u, c, |u|);
    assert e[c..] == Lower(u[c..]);
    SchemeUnderLower(u[..a]);
    HostUnderLower(u[a..b]);
    PortUnderLower(u[b..c]);
    PathUnderLower(u[c..]);
  }

  lemma UrlBodyUnderLower(u: string)
    ensures UrlBody(Lower(u)) == UrlBody(u)
  {
    var e := Lower(u);
    if UrlBody(u) {
      var a, b, c :| 0 <= a <= b <= c <= |u| &&
        Scheme(u[..a]) && Host(u[a..b]) && Port(u[b..c]) && Path(u[c..]);
      BodySplitUnderLower(u, a, b, c);
    }
    if UrlBody(e) {
      var a, b, c :| 0 <= a <= b <= c <= |e| &&
        Scheme(e[..a]) && Host(e[a..b]) && Port(e[b..c]) && Path(e[c..]);
      BodySplitUnderLower(u, a, b, c);
    }
  }

  /** The pattern ignores case: a string matches exactly when its lower-cased form does. */
  lemma MatchIgnoresCase(s: string)
    ensures MatchesUrlPattern(Lower(s)) == MatchesUrlPattern(s)
  {
    UrlBodyUnderLower(s);
    if |s| > 0 {
      var e := Lower(s);
      LowerSlice(s, 0, |s| - 1);
      assert e[..|s| - 1] == Lower(s[..|s| - 1]);
      UrlBodyUnderLower(s[..|s| - 1]);
      LowerCharIs(s[|s| - 1], '\n');
    }
  }
}

/**
 The checks the hike form runs on the URL the user typed, in the order it runs them.
 */
module Validators {
  import opened Text
  import opened UrlPattern

  const AlltrailsDomain: string := "alltrails.com"

  const EmptyUrlMessage: string := "Please enter a URL to scrape."
  const NotAlltrailsMessage: string := "Please enter a valid AllTrails URL (should contain 'alltrails.com')"
  const BadFormatMessage: string := "Please enter a valid URL format."

  /** `URLValidator.is_alltrails_url`: a non-empty URL that mentions the domain, in any case. */
  function IsAlltrailsUrl(url: string): (r: bool)
    ensures r ==> url != []
  {
    url != [] && Contains(Lower(url), AlltrailsDomain)
  }

  /** `URLValidator.is_valid_url_format`: a non-empty URL the pattern matches. */
  function IsValidUrlFormat(url: string): (r: bool)
    ensures r ==> url != []
  {
    url != [] && MatchesUrlPattern(url)
  }

  /** `InputValidator.validate_hike_url`: the verdict and the message of the first check that
      fails, or `(true, "")`. */
  function ValidateHikeUrl(url: string): (r: (bool, string))
    ensures r.0 <==> url != [] && IsAlltrailsUrl(url) && IsValidUrlFormat(url)
    ensures r.0 <==> r.1 == ""
    ensures r.1 in {"", EmptyUrlMessage, NotAlltrailsMessage, BadFormatMessage}
  {
    if url == [] then (false, EmptyUrlMessage)
    else if !IsAlltrailsUrl(url) then (false, NotAlltrailsMessage)
    else if !IsValidUrlFormat(url) then (false, BadFormatMessage)
    else (true, "")
  }

  /** The messages are distinct, so each one names the check that failed first. */
  lemma MessageNamesFirstFailure(url: string)
    ensures ValidateHikeUrl(url).1 == EmptyUrlMessage <==> url == []
    ensures ValidateHikeUrl(url).1 == NotAlltrailsMessage <==> url != [] && !IsAlltrailsUrl(url)
    ensures ValidateHikeUrl(url).1 == BadFormatMessage <==>
      IsAlltrailsUrl(url) && !IsValidUrlFormat(url)
  {
    assert |EmptyUrlMessage| != |NotAlltrailsMessage|;
    assert |EmptyUrlMessage| != |BadFormatMessage|;
    assert |NotAlltrailsMessage| != |BadFormatMessage|;
  }

  /** The domain check ignores case. */
  lemma AlltrailsIgnoresCase(url: string)
    ensures IsAlltrailsUrl(Lower(url)) == IsAlltrailsUrl(url)
  {
    LowerIdempotent(url);
  }

  /** Any URL that mentions the domain passes the domain check. */
  lemma MentioningDomainSuffices(a: string, b: string)
    ensures IsAlltrailsUrl(a + AlltrailsDomain + b)
  {
    LowerAppend(a + AlltrailsDomain, b);
    LowerAppend(a, AlltrailsDomain);
    LowerOfLowerCase(AlltrailsDomain);
    ContainsInfix(Lower(a), AlltrailsDomain, Lower(b));
  }

  /** The whole validation ignores case. */
  lemma ValidationIgnoresCase(url: string)
    ensures ValidateHikeUrl(Lower(url)) == ValidateHikeUrl(url)
  {
    AlltrailsIgnoresCase(url);
    MatchIgnoresCase(url);
  }

  /** A URL that passes starts with "http://" or "https://" in some case, and holds no
      whitespace except possibly one final newline. */
  lemma AcceptedUrlShape(url: string)
    requires ValidateHikeUrl(url).0
    ensures StartsWith(Lower(url), "http://") || StartsWith(Lower(url), "https://")
    ensures forall i :: 0 <= i < |url| - 1 ==> !IsSpace(url[i])
    ensures url[|url| - 1] == '\n' || !IsSpace(url[|url| - 1])
  {
    MatchRequiresScheme(url);
    MatchRejectsWhitespace(url);
  }

  /** The pieces of the worked trail URL, one lemma each. Every piece is a parameter fixed by
      the precondition rather than a literal in the contract, so that the solver does not unfold
      the pattern's predicates eagerly on literal text. */
  lemma ExampleLabels(d: string)
    requires d == "www.alltrails."
    ensures DottedLabels(d)
  {
    var rest := d[4..];
    assert rest == "alltrails.";
    assert Label(rest[..9]) && rest[9] == '.';
    assert DottedLabels(rest);
    assert Label(d[..3]) && d[3] == '.';
  }

  lemma DomainHost(labels: string, tld: string)
    requires DottedLabels(labels) && Tld(tld)
    ensures Host(labels + tld)
  {
    var h := labels + tld;
    assert h[..|labels|] == labels && h[|labels|..|h|] == tld;
  }

  lemma ExamplePath(path: string)
    requires path == "/trail/us/california/example"
    ensures Path(path)
  {
  }

  lemma FormatOfParts(scheme: string, host: string, path: string)
    requires Scheme(scheme) && Host(host) && Path(path)
    ensures IsValidUrlFormat(scheme + host + path)
  {
    ComposeMatches(scheme, host, "", path);
    assert scheme + host + "" + path == scheme + host + path;
  }

  lemma PassesBothChecks(url: string)
    requires IsAlltrailsUrl(url) && IsValidUrlFormat(url)
    ensures ValidateHikeUrl(url) == (true, "")
  {
  }

  lemma ExampleHost(labels: string, tld: string)
    requires labels == "www.alltrails." && tld == "com"
    ensures Host(labels + tld)
  {
    ExampleLabels(labels);
    ExampleTld(tld);
    DomainHost(labels, tld);
  }

  lemma ExampleTld(tld: string)
    requires tld == "com"
    ensures Tld(tld)
  {
  }

  lemma ExampleScheme(scheme: string)
    requires scheme == "https://"
    ensures Scheme(scheme)
  {
    LowerOfLowerCase(scheme);
  }

  lemma ExampleFormat(scheme: string, host: string, path: string)
    requires scheme == "https://" && host == "www.alltrails.com" && path == "/trail/us/california/example"
    ensures IsValidUrlFormat(scheme + host + path)
  {
    var labels, tld := "www.alltrails.", "com";
    assert host == labels + tld;
    ExampleHost(labels, tld);
    ExamplePath(path);
    ExampleScheme(scheme);
    FormatOfParts(scheme, host, path);
  }

  lemma ExampleDomain(scheme: string, host: string, path: string)
    requires scheme == "https://" && host == "www.alltrails.com" && path == "/trail/us/california/example"
    ensures IsAlltrailsUrl(scheme + host + path)
  {
    assert host == "www." + AlltrailsDomain;
    assert scheme + host + path == (scheme + "www.") + AlltrailsDomain + path;
    MentioningDomainSuffices(scheme + "www.", path);
  }

  /** The trail page URL "https://www.alltrails.com/trail/us/california/example" passes. It is
      written as scheme, host and path, the pieces its proof assembles. */
  lemma AcceptsTrailUrl()
    ensures ValidateHikeUrl("https://" + "www.alltrails.com" + "/trail/us/california/example") == (true, "")
  {
    var scheme, host, path := "https://", "www.alltrails.com", "/trail/us/california/example";
    ExampleFormat(scheme, host, path);
    ExampleDomain(scheme, host, path);
    PassesBothChecks(scheme + host + path);
  }

  /** A string with exactly two l's, each followed by an l-free stretch or the end, never has
      two l's in a row. */
  lemma NoDoubleL(a: string, b: string)
    requires 'l' !in a && 'l' !in b && b != []
    ensures !Contains(a + ['l'] + b + ['l'], "ll")
  {
    var url := a + ['l'] + b + ['l'];
    forall i | 0 <= i <= |url| - 2
      ensures !OccursAt(url, "ll", i)
    {
      assert url[i..i + 2][0] == url[i] && url[i..i + 2][1] == url[i + 1];
      if i < |a| {
        assert url[i] == a[i];
      } else if i == |a| {
        assert url[i + 1] == b[0];
      } else {
        assert url[i] == b[i - |a| - 1];
      }
    }
  }

  /** A non-empty URL with no "ll" in any case cannot mention "alltrails.com", so the domain
      check turns it away with its message. */
  lemma RejectsWithoutDoubleL(url: string)
    requires url != [] && !Contains(Lower(url), "ll")
    ensures ValidateHikeUrl(url) == (false, NotAlltrailsMessage)
  {
    assert AlltrailsDomain[1..3] == "ll";
    assert OccursAt(AlltrailsDomain, "ll", 1);
    NotContainsWithoutPiece(Lower(url), AlltrailsDomain, "ll", 1);
  }

  /** "https://www.example.com/trail" is turned away by the domain check, with its message. */
  lemma RejectsOtherSite()
    ensures ValidateHikeUrl("https://www.example.com/trail") == (false, NotAlltrailsMessage)
  {
    var a, b := "https://www.examp", "e.com/trai";
    var url := a + ['l'] + b + ['l'];
    assert url == "https://www.example.com/trail";
    assert forall i :: 0 <= i < |url| ==> !('A' <= url[i] <= 'Z');
    LowerOfLowerCase(url);
    assert 'l' !in a && 'l' !in b;
    NoDoubleL(a, b);
    RejectsWithoutDoubleL(url);
  }
}
