/**
 * The record the scraper stores for each liked post, and the two strings
 * derived from its username and id: the permalink and the screenshot path.
 */
module Likes {
  import opened Wrappers

  /**
   * What the scraper reads from one rendered `article`: the `href` of its
   * first `a[href*="/analytics"]` link and the inner text of its tweet-text
   * element, each `None` when the element is missing, and its `time`
   * element: `None` when there is none, `Some(None)` when it has no
   * `datetime` attribute, `Some(Some(d))` otherwise.
   */
  datatype Article = Article(link: Option<string>, text: Option<string>, time: Option<Option<string>>)

  /**
   * One liked post, with the fields in the order the JSON output lists them;
   * a `timestamp` of `None` is the JSON `null` written for a `time` element
   * without a `datetime` attribute.
   */
  datatype Like = Like(
    id: string,
    username: string,
    text: string,
    timestamp: Option<string>,
    screenshot: string,
    permalink: string)

  const PermalinkPrefix: string := "https://x.com/"
  const StatusPath: string := "/status/"
  const ScreenshotDir: string := "screenshots/"
  const ScreenshotExt: string := ".png"


  /** The id a screenshot path names, if it has the `screenshots/….png` shape. */
  function ScreenshotId(path: string): (r: Option<string>)
    ensures r.Some? ==> ScreenshotDir + r.value + ScreenshotExt == path
  {
    var lo := |ScreenshotDir|;
    var hi := |path| - |ScreenshotExt|;
    if lo <= hi && path[..lo] == ScreenshotDir && path[hi..] == ScreenshotExt then
      assert path == path[..lo] + path[lo..hi] + path[hi..];
      Some(path[lo..hi])
    else None
  }

  /**
   * The screenshot path relative to the output directory,
   * `screenshots/{tweet_id}.png`; the id can be read back from it.
   */
  function ScreenshotPath(id: string): (r: string)
    ensures ScreenshotId(r) == Some(id)
  {
    var p := ScreenshotDir + id + ScreenshotExt;
    assert p[..|ScreenshotDir|] == ScreenshotDir;
    assert p[|ScreenshotDir|..|p| - |ScreenshotExt|] == id;
    assert p[|p| - |ScreenshotExt|..] == ScreenshotExt;
    p
  }

  /** Distinct ids never share a screenshot file. */
  lemma ScreenshotPathInjective(a: string, b: string)
    requires ScreenshotPath(a) == ScreenshotPath(b)
    ensures a == b
  {
    assert ScreenshotId(ScreenshotPath(a)) == Some(a);
  }

  /** Splits `s` at its last `c`: the text before it and the `c`-free text after it. */
  function SplitLast(s: string, c: char): (r: Option<(string, string)>)
    ensures r.None? <==> c !in s
    ensures r.Some? ==> c !in r.value.1 && s == r.value.0 + [c] + r.value.1
    decreases |s|
  {
    if |s| == 0 then None
    else if s[|s| - 1] == c then Some((s[..|s| - 1], []))
    else
      var last := SplitLast(s[..|s| - 1], c);
      if last.None? then None
      else
        assert s == s[..|s| - 1] + [s[|s| - 1]];
        Some((last.value.0, last.value.1 + [s[|s| - 1]]))
  }

  /** The split at the last `c` is the only split whose right part has no `c`. */
  lemma {:induction false} SplitLastUnique(s: string, c: char, a: string, b: string)
    requires c !in b && s == a + [c] + b
    ensures SplitLast(s, c) == Some((a, b))
    decreases |b|
  {
    if |b| == 0 {
      assert s[..|s| - 1] == a;
    } else {
      var b' := b[..|b| - 1];
      assert s[|s| - 1] == b[|b| - 1] != c;
      assert s[..|s| - 1] == a + [c] + b';
      SplitLastUnique(s[..|s| - 1], c, a, b');
      assert b == b' + [b[|b| - 1]];
    }
  }

  /**
   * The username and id a permalink names: after the `https://x.com/`
   * prefix, the id is the text after the last `/`, and the username is what
   * precedes `/status/` there.
   */
  function PermalinkParts(p: string): (r: Option<(string, string)>)
    ensures r.Some? ==> PermalinkPrefix + r.value.0 + StatusPath + r.value.1 == p && '/' !in r.value.1
  {
    var n := |PermalinkPrefix|;
    if |p| < n || p[..n] != PermalinkPrefix then None
    else
      var rest := p[n..];
      assert p == PermalinkPrefix + rest;
      match SplitLast(rest, '/')
      case None => None
      case Some((before, id)) =>
        var m := |StatusPath| - 1;
        if |before| < m || before[|before| - m..] != StatusPath[..m] then None
        else
          var username := before[..|before| - m];
          assert before == username + StatusPath[..m];
          assert StatusPath == StatusPath[..m] + "/";
          Some((username, id))
  }

  /**
   * `f"https://x.com/{tweet_username}/status/{tweet_id}"`. A permalink
   * identifies its post: it reads back as the username and id it was built
   * from, for any id without `/` (every parsed id is digits).
   */
  function Permalink(username: string, id: string): (r: string)
    ensures '/' !in id ==> PermalinkParts(r) == Some((username, id))
  {
    var p := PermalinkPrefix + username + StatusPath + id;
    if '/' in id then p
    else
      var n := |PermalinkPrefix|;
      var m := |StatusPath| - 1;
      assert p[..n] == PermalinkPrefix;
      var rest := p[n..];
      var before := username + StatusPath[..m];
      assert rest == before + ['/'] + id;
      SplitLastUnique(rest, '/', before, id);
      assert before[|before| - m..] == StatusPath[..m];
      assert before[..|before| - m] == username;
      p
  }

  /** Distinct posts never share a permalink. */
  lemma PermalinkInjective(u1: string, d1: string, u2: string, d2: string)
    requires '/' !in d1 && '/' !in d2
    requires Permalink(u1, d1) == Permalink(u2, d2)
    ensures u1 == u2 && d1 == d2
  {
    assert PermalinkParts(Permalink(u1, d1)) == Some((u1, d1));
  }

  /**
   * The record built for a newly seen post; missing text and timestamp
   * elements give empty strings.
   */
  function MakeLike(username: string, id: string, a: Article): Like {
    Like(id, username, a.text.GetOr(""), if a.time.None? then Some("") else a.time.value,
         ScreenshotPath(id), Permalink(username, id))
  }

  /**
   * A record names its own post twice over: its permalink reads back as its
   * username and id, and its screenshot path as its id; its text and
   * timestamp are the article's, or empty when the element is missing.
   */
  lemma MakeLikeFields(username: string, id: string, a: Article)
    requires '/' !in id
    ensures var l := MakeLike(username, id, a);
            && PermalinkParts(l.permalink) == Some((username, id))
            && ScreenshotId(l.screenshot) == Some(id)
            && (a.text.Some? ==> l.text == a.text.value)
            && (a.text.None? ==> l.text == "")
            && (a.time.None? ==> l.timestamp == Some(""))
            && (a.time.Some? ==> l.timestamp == a.time.value)
  {
  }
}
