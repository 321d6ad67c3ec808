/**
 * The id extraction applied to each article's analytics link:
 * `re.search(r'/(.+)/status/(\d+)/analytics', href)` and its two groups.
 *
 * A match is located by the index `start` of the leading `/` and the index
 * `split` where group 1 ends (the `/` of `/status/`). Group 2 then runs from
 * `split + 8` over the longest run of digits, which is the only way `\d+`
 * can be followed by `/analytics`.
 */
module Href {
  import opened Wrappers

  const StatusMark: string := "/status/"
  const AnalyticsMark: string := "/analytics"

  /** `\d`, restricted to ASCII decimal digits. */
  predicate IsDigit(c: char) {
    '0' <= c <= '9'
  }

  predicate AllDigits(s: string) {
    forall k :: 0 <= k < |s| ==> IsDigit(s[k])
  }

  /** The end of the longest run of digits in `h` starting at `p`. */
  function DigitRunEnd(h: string, p: nat): (k: nat)
    requires p <= |h|
    ensures p <= k <= |h|
    ensures forall q :: p <= q < k ==> IsDigit(h[q])
    ensures k == |h| || !IsDigit(h[k])
    decreases |h| - p
  {
    if p < |h| && IsDigit(h[p]) then DigitRunEnd(h, p + 1) else p
  }

  /** A digit run that is followed by a non-digit is the longest one. */
  lemma {:induction false} DigitRunEndAt(h: string, p: nat, k: nat)
    requires p <= k <= |h|
    requires forall q :: p <= q < k ==> IsDigit(h[q])
    requires k == |h| || !IsDigit(h[k])
    ensures DigitRunEnd(h, p) == k
    decreases k - p
  {
    if p < k {
      DigitRunEndAt(h, p + 1, k);
    }
  }

  /**
   * The pattern matches at `start` with group 1 ending at `split`:
   * `/`, then one or more non-newline characters (`.+`), then `/status/`,
   * one or more digits, and `/analytics`.
   */
  predicate MatchAt(h: string, start: nat, split: nat) {
    && start + 1 < split && split + |StatusMark| <= |h|
    && h[start] == '/'
    && '\n' !in h[start + 1..split]
    && h[split..split + |StatusMark|] == StatusMark
    && var k := DigitRunEnd(h, split + |StatusMark|);
       && split + |StatusMark| < k
       && k + |AnalyticsMark| <= |h|
       && h[k..k + |AnalyticsMark|] == AnalyticsMark
  }

  /**
   * Greedy `.+`: the largest split at most `split` that matches from `start`;
   * the regex engine tries the longest group 1 first and backs off one
   * character at a time.
   */
  function LongestSplit(h: string, start: nat, split: nat): (r: Option<nat>)
    ensures r.Some? ==> r.value <= split && MatchAt(h, start, r.value)
    ensures r.Some? ==> forall j :: r.value < j <= split ==> !MatchAt(h, start, j)
    ensures r.None? ==> forall j: nat :: j <= split ==> !MatchAt(h, start, j)
    decreases split
  {
    if split <= start + 1 then None
    else if MatchAt(h, start, split) then Some(split)
    else LongestSplit(h, start, split - 1)
  }

  /** A located match: the leading `/` and the end of group 1. */
  datatype Match = Match(start: nat, split: nat)

  /**
   * `re.search`: the leftmost start with any match, and for it the longest
   * group 1.
   */
  function SearchFrom(h: string, from: nat): (r: Option<Match>)
    ensures r.Some? ==> from <= r.value.start && MatchAt(h, r.value.start, r.value.split)
    ensures r.Some? ==> forall i, j :: from <= i < r.value.start ==> !MatchAt(h, i, j)
    ensures r.Some? ==> forall j :: r.value.split < j ==> !MatchAt(h, r.value.start, j)
    ensures r.None? ==> forall i, j :: from <= i ==> !MatchAt(h, i, j)
    decreases |h| - from
  {
    if from >= |h| then None
    else
      match LongestSplit(h, from, |h|)
      case Some(j) => Some(Match(from, j))
      case None => SearchFrom(h, from + 1)
  }

  /** The two groups of a located match: the username and the id. */
  function Groups(h: string, m: Match): (string, string)
    requires MatchAt(h, m.start, m.split)
  {
    (h[m.start + 1..m.split], h[m.split + |StatusMark|..DigitRunEnd(h, m.split + |StatusMark|)])
  }

  /**
   * `match.groups()` of `re.search(...)` on `href`, or `None` when it does
   * not match. A parsed username and id are capturable and appear in the
   * href as `"/" + u + "/status/" + d + "/analytics"`.
   */
  function ParseHref(h: string): (r: Option<(string, string)>)
    ensures r.Some? ==> Capturable(r.value.0, r.value.1) && exists i: nat :: Embeds(h, i, r.value.0, r.value.1)
  {
    match SearchFrom(h, 0)
    case None => None
    case Some(m) =>
      MatchAtEmbeds(h, m.start, m.split);
      Some(Groups(h, m))
  }

  /**
   * The article's analytics link: `None` when there is no link, and
   * otherwise as `ParseHref` reads its `href`.
   */
  function ParseLink(link: Option<string>): (r: Option<(string, string)>)
    ensures link.None? ==> r.None?
    ensures r.Some? ==> Capturable(r.value.0, r.value.1) && exists i: nat :: Embeds(link.value, i, r.value.0, r.value.1)
  {
    match link
    case None => None
    case Some(h) => ParseHref(h)
  }

  /** The text `"/" + u + "/status/" + d + "/analytics"` the pattern recognises. */
  function Needle(u: string, d: string): string {
    "/" + u + StatusMark + d + AnalyticsMark
  }

  /** `h` holds `Needle(u, d)` at index `i`. */
  predicate Embeds(h: string, i: nat, u: string, d: string) {
    i + |Needle(u, d)| <= |h| && h[i..i + |Needle(u, d)|] == Needle(u, d)
  }

  /** A username and id the pattern can capture: `.+` and `\d+`. */
  predicate Capturable(u: string, d: string) {
    |u| > 0 && '\n' !in u && |d| > 0 && AllDigits(d)
  }

  /** Adjacent slices join. */
  lemma SliceConcat(h: string, a: nat, b: nat, c: nat)
    requires a <= b <= c <= |h|
    ensures h[a..b] + h[b..c] == h[a..c]
  {
    assert forall q :: 0 <= q < c - a ==> (h[a..b] + h[b..c])[q] == h[a + q];
  }

  /** Consecutive slices holding the fixed parts of a needle make up that needle. */
  lemma NeedleFromSlices(h: string, a: nat, j: nat, p: nat, k: nat, e: nat)
    requires a < j <= p <= k <= e <= |h|
    requires h[a] == '/' && h[j..p] == StatusMark && h[k..e] == AnalyticsMark
    ensures h[a..e] == Needle(h[a + 1..j], h[p..k])
  {
    assert h[a..a + 1] == "/";
    SliceConcat(h, a, a + 1, j);
    SliceConcat(h, a, j, p);
    SliceConcat(h, a, p, k);
    SliceConcat(h, a, k, e);
  }

  /** A match at `(start, split)` is exactly an embedded needle built from its groups. */
  lemma MatchAtEmbeds(h: string, start: nat, split: nat)
    requires MatchAt(h, start, split)
    ensures var (u, d) := Groups(h, Match(start, split));
            Capturable(u, d) && Embeds(h, start, u, d)
  {
    var p := split + |StatusMark|;
    var k := DigitRunEnd(h, p);
    var e := k + |AnalyticsMark|;
    var u := h[start + 1..split];
    var d := h[p..k];
    assert forall q :: 0 <= q < |d| ==> d[q] == h[p + q];
    NeedleFromSlices(h, start, split, p, k, e);
    assert |Needle(u, d)| == e - start;
    assert Embeds(h, start, u, d);
    assert Groups(h, Match(start, split)) == (u, d);
  }

  /** A slice of a slice is a slice. */
  lemma SliceOfSlice(h: string, a: nat, b: nat, c: nat, d: nat)
    requires a <= b <= |h| && c <= d <= b - a
    ensures h[a..b][c..d] == h[a + c..a + d]
  {
    assert forall q :: 0 <= q < d - c ==> h[a..b][c..d][q] == h[a + c + q];
  }

  /** The pieces of an embedded needle, as slices of `h`. */
  lemma EmbedsParts(h: string, i: nat, u: string, d: string)
    requires Embeds(h, i, u, d)
    ensures var j := i + 1 + |u|;
            var p := j + |StatusMark|;
            var k := p + |d|;
            && k + |AnalyticsMark| <= |h|
            && h[i] == '/'
            && h[i + 1..j] == u
            && h[j..p] == StatusMark
            && h[p..k] == d
            && h[k..k + |AnalyticsMark|] == AnalyticsMark
  {
    var n := Needle(u, d);
    var j := 1 + |u|;
    var p := j + |StatusMark|;
    var k := p + |d|;
    var e := i + |n|;
    assert h[i] == h[i..e][0] == n[0];
    assert n[1..j] == u;
    SliceOfSlice(h, i, e, 1, j);
    assert n[j..p] == StatusMark;
    SliceOfSlice(h, i, e, j, p);
    assert n[p..k] == d;
    SliceOfSlice(h, i, e, p, k);
    assert n[k..|n|] == AnalyticsMark;
    SliceOfSlice(h, i, e, k, |n|);
  }

  /** An embedded needle with capturable parts is a match at its position. */
  lemma EmbedsMatchAt(h: string, i: nat, u: string, d: string)
    requires Embeds(h, i, u, d) && Capturable(u, d)
    ensures MatchAt(h, i, i + 1 + |u|)
    ensures Groups(h, Match(i, i + 1 + |u|)) == (u, d)
  {
    var p := i + 1 + |u| + |StatusMark|;
    var k := p + |d|;
    EmbedsParts(h, i, u, d);
    assert forall q :: p <= q < k ==> h[q] == d[q - p];
    DigitRunEndAt(h, p, k);
  }

  /**
   * Completeness: an href holding any capturable needle yields a match, and
   * the match starts no later than that needle.
   */
  lemma ParseHrefComplete(h: string, i: nat, u: string, d: string)
    requires Embeds(h, i, u, d) && Capturable(u, d)
    ensures ParseHref(h).Some?
    ensures SearchFrom(h, 0).Some? && SearchFrom(h, 0).value.start <= i
  {
    EmbedsMatchAt(h, i, u, d);
  }

  /** Where the characters of a needle come from. */
  lemma NeedleChars(u: string, d: string)
    ensures var h := Needle(u, d);
            var j := 1 + |u|;
            var k := j + |StatusMark| + |d|;
            && |h| == k + |AnalyticsMark|
            && h[0] == '/'
            && h[1..j] == u
            && h[j..j + |StatusMark|] == StatusMark
            && h[j + |StatusMark|..k] == d
            && h[k..] == AnalyticsMark
  {
  }

  /** After the username of a needle, `/status/` occurs only where it was put. */
  lemma NoLaterStatus(u: string, d: string, j: nat)
    requires Capturable(u, d)
    requires 1 + |u| < j && j + |StatusMark| <= |Needle(u, d)|
    ensures Needle(u, d)[j..j + |StatusMark|] != StatusMark
  {
    var h := Needle(u, d);
    var p := 1 + |u| + |StatusMark|;
    var k := p + |d|;
    NeedleChars(u, d);
    var w := h[j..j + |StatusMark|];
    if j < p - 1 {
      assert w[0] == h[j] == StatusMark[j - 1 - |u|];
    } else if j == p - 1 {
      assert w[1] == h[p] == d[0];
    } else if j < k {
      assert w[0] == h[j] == d[j - p];
    } else if j == k {
      assert w[1] == h[k + 1] == AnalyticsMark[1];
    } else {
      assert w[0] == h[j] == AnalyticsMark[j - k];
    }
  }

  /**
   * A lone needle is read back exactly: on `"/" + u + "/status/" + d + "/analytics"`
   * the search yields the groups `(u, d)`, even when `u` itself holds `/`
   * or `/status/`, since greedy `.+` takes the last `/status/` that can match.
   */
  lemma ParseNeedle(u: string, d: string)
    requires Capturable(u, d)
    ensures ParseHref(Needle(u, d)) == Some((u, d))
  {
    var h := Needle(u, d);
    assert Embeds(h, 0, u, d) by {
      assert h[0..|h|] == h;
    }
    EmbedsMatchAt(h, 0, u, d);
    forall j: nat | 1 + |u| < j
      ensures !MatchAt(h, 0, j)
    {
      if j + |StatusMark| <= |h| {
        NoLaterStatus(u, d, j);
      }
    }
  }
}
