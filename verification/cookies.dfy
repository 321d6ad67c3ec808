/**
 * `parse_cookies`: turns the `X_COOKIES` string into the cookie records the
 * browser context is seeded with.
 */
module Cookies {
  import opened Wrappers
  import opened Text

  /** Every cookie is scoped to the whole `x.com` site. */
  const Domain: string := ".x.com"
  const Path: string := "/"

  datatype Cookie = Cookie(name: string, value: string, domain: string, path: string)

  /**
   * The unpacking `name, value = ...split('=', 1)` raises on a segment with
   * no `=`; `position` is the index of that segment among the `;`-pieces.
   */
  datatype CookieError = MissingEquals(position: nat)

  /** `segment` has an `=` once stripped, so that it can be unpacked. */
  predicate HasEquals(segment: string) {
    '=' in Strip(segment)
  }

  /** `c` is the cookie `parse_cookies` builds from the `;`-segment `segment`. */
  predicate CookieOf(segment: string, c: Cookie) {
    && Strip(segment) == c.name + "=" + c.value
    && '=' !in c.name
    && c.domain == Domain
    && c.path == Path
  }

  /** One segment: strip it, cut at the first `=`, fix domain and path. */
  function ParseCookie(segment: string): (r: Option<Cookie>)
    ensures r.None? <==> !HasEquals(segment)
    ensures r.Some? ==> CookieOf(segment, r.value)
  {
    match SplitOnce(Strip(segment), '=')
    case None => None
    case Some((name, value)) => Some(Cookie(name, value, Domain, Path))
  }

  /** A segment determines its cookie: there is at most one `c` with `CookieOf(segment, c)`. */
  lemma CookieOfUnique(segment: string, a: Cookie, b: Cookie)
    requires CookieOf(segment, a) && CookieOf(segment, b)
    ensures a == b
  {
    SplitOnceUnique(Strip(segment), '=', a.name, a.value);
    SplitOnceUnique(Strip(segment), '=', b.name, b.value);
  }

  /** The loop over the segments, stopping at the first one without `=`. */
  function ParseAll(segments: seq<string>): (r: Result<seq<Cookie>, CookieError>)
    ensures (forall k :: 0 <= k < |segments| ==> HasEquals(segments[k])) ==> r.Success?
    ensures r.Success? ==> |r.value| == |segments|
    ensures r.Success? ==> forall k :: 0 <= k < |segments| ==> CookieOf(segments[k], r.value[k])
    ensures r.Failure? ==> r.error.position < |segments|
    ensures r.Failure? ==> !HasEquals(segments[r.error.position])
    ensures r.Failure? ==> forall k :: 0 <= k < r.error.position ==> HasEquals(segments[k])
    decreases |segments|
  {
    if |segments| == 0 then Success([])
    else
      var head := ParseCookie(segments[0]);
      if head.None? then Failure(MissingEquals(0))
      else
        var rest := ParseAll(segments[1..]);
        ShiftIndex(segments);
        if rest.Failure? then Failure(MissingEquals(rest.error.position + 1))
        else
          ShiftIndex([head.value] + rest.value);
          Success([head.value] + rest.value)
  }

  /** Element `k` of `s` is element `k - 1` of its tail. */
  lemma ShiftIndex<T>(s: seq<T>)
    ensures forall k :: 1 <= k < |s| ==> s[k] == s[1..][k - 1]
  {
  }

  /**
   * `parse_cookies(cookie_string)`: one cookie per `;`-separated segment, in
   * order, or a failure naming the first segment that has no `=`.
   */
  function ParseCookies(s: string): (r: Result<seq<Cookie>, CookieError>)
    ensures (forall k :: 0 <= k < |Split(s, ';')| ==> HasEquals(Split(s, ';')[k])) ==> r.Success?
    ensures r.Success? ==> forall k :: 0 <= k < |Split(s, ';')| ==> HasEquals(Split(s, ';')[k])
    ensures r.Success? ==> |r.value| == |Split(s, ';')|
    ensures r.Success? ==> forall k :: 0 <= k < |r.value| ==> CookieOf(Split(s, ';')[k], r.value[k])
    ensures r.Failure? ==> r.error.position < |Split(s, ';')|
    ensures r.Failure? ==> !HasEquals(Split(s, ';')[r.error.position])
    ensures r.Failure? ==> forall k :: 0 <= k < r.error.position ==> HasEquals(Split(s, ';')[k])
  {
    ParseAll(Split(s, ';'))
  }

  /**
   * Every parsed cookie: a name with no `=` (the cut is at the first one),
   * a value that may contain `=` but no `;`, domain `.x.com` and path `/`.
   */
  lemma ParsedCookieShape(s: string)
    requires ParseCookies(s).Success?
    ensures forall k :: 0 <= k < |ParseCookies(s).value| ==>
              var c := ParseCookies(s).value[k];
              '=' !in c.name && ';' !in c.name && ';' !in c.value && c.domain == Domain && c.path == Path
  {
    var segments := Split(s, ';');
    var cs := ParseCookies(s).value;
    SplitShape(s, ';');
    forall k | 0 <= k < |cs|
      ensures '=' !in cs[k].name && ';' !in cs[k].name && ';' !in cs[k].value
      ensures cs[k].domain == Domain && cs[k].path == Path
    {
      var c := cs[k];
      assert CookieOf(segments[k], c);
      StripKeeps(segments[k], ';');
      var st := Strip(segments[k]);
      assert ';' !in st;
      assert st[..|c.name|] == c.name;
      assert st[|c.name| + 1..] == c.value;
    }
  }

  /** A string ending in `;` leaves an empty last segment, so parsing fails on it. */
  lemma TrailingSemicolonFails(s: string)
    requires |s| > 0 && s[|s| - 1] == ';'
    ensures ParseCookies(s).Failure?
  {
    SplitTrailing(s, ';');
    var segments := Split(s, ';');
    assert Strip(segments[|segments| - 1]) == "";
  }

  /** The `name=value` text of one cookie. */
  function Pair(c: Cookie): string {
    c.name + "=" + c.value
  }

  /**
   * A cookie the browser could have sent: no `;` anywhere, no `=` in the
   * name, nothing `strip()` would eat at the ends, and the fixed domain and path.
   */
  predicate Sendable(c: Cookie) {
    && ';' !in c.name && ';' !in c.value && '=' !in c.name
    && (c.name == [] || !IsSpace(c.name[0]))
    && (c.value == [] || !IsSpace(c.value[|c.value| - 1]))
    && c.domain == Domain && c.path == Path
  }

  /** The pieces of a `document.cookie`-style string: `"a=1"`, `" b=2"`, ... */
  function Pieces(cs: seq<Cookie>): seq<string> {
    seq(|cs|, k requires 0 <= k < |cs| => if k == 0 then Pair(cs[k]) else " " + Pair(cs[k]))
  }

  /** Renders cookies as `"a=1; b=2"`, the format `parse_cookies` reads. */
  function FormatCookies(cs: seq<Cookie>): string
    requires |cs| >= 1
  {
    Join(Pieces(cs), ';')
  }

  /** Parsing a rendered list of sendable cookies gives the list back. */
  lemma ParseFormatRoundTrip(cs: seq<Cookie>)
    requires |cs| >= 1
    requires forall k :: 0 <= k < |cs| ==> Sendable(cs[k])
    ensures ParseCookies(FormatCookies(cs)) == Success(cs)
  {
    var pieces := Pieces(cs);
    forall k | 0 <= k < |cs|
      ensures ';' !in pieces[k]
      ensures CookieOf(pieces[k], cs[k])
    {
      var p := Pair(cs[k]);
      assert p[|cs[k].name|] == '=';
      assert p[0] == if cs[k].name == [] then '=' else cs[k].name[0];
      assert p[|p| - 1] == if cs[k].value == [] then '=' else cs[k].value[|cs[k].value| - 1];
      StripClean(p);
      if k > 0 {
        StripLeadingBlank(p);
      }
    }
    SplitJoin(pieces, ';');
    var s := FormatCookies(cs);
    assert Split(s, ';') == pieces;
    forall k | 0 <= k < |pieces|
      ensures HasEquals(pieces[k])
    {
      assert CookieOf(pieces[k], cs[k]);
      assert Strip(pieces[k])[|cs[k].name|] == '=';
    }
    var r := ParseCookies(s);
    assert r.Success?;
    forall k | 0 <= k < |cs|
      ensures r.value[k] == cs[k]
    {
      CookieOfUnique(pieces[k], r.value[k], cs[k]);
    }
    assert r.value == cs;
  }
}
