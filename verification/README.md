# X likes scraper — a Dafny model

`twitter-likes-scraper.py` signs in to X with cookies taken from the
`X_COOKIES` string. It walks a user's likes page, scrolling until it holds
`max_likes` records or the page stops growing. It takes a screenshot of every
newly seen liked post, writes the records as JSON, and writes a markdown digest
alongside them.

This project models the pure logic of that script:

| module | file | models |
|---|---|---|
| `Wrappers` | wrappers.dfy | `Option` and `Result` |
| `Text` | text.dfy | Python's `str.strip()`, `str.split(sep)` and `str.split(sep, 1)` on `seq<char>` |
| `Cookies` | cookies.dfy | `parse_cookies` |
| `Href` | href.dfy | `re.search(r'/(.+)/status/(\d+)/analytics', href)` and its groups, exactly: leftmost start, greedy `.+`, `.` not matching a newline |
| `Likes` | likes.dfy | the record built for a post, its permalink and screenshot path, and readers that recover the id and username from them |
| `Harvest` | harvest.dfy | the `while` loop of `scrape_likes` with its inner `for post in posts` loop |
| `Digest` | digest.dfy | the markdown digest and the `MOST_RECENT_TWEET` value |

The browser is a finite script (`Harvest.Trace`) with two parts:

- the page height measured before the loop;
- for each iteration, the articles on the page (`Likes.Article`: link, text, time element) and the height measured after the scroll.

`Harvest.Run` is the loop over that script. `Harvest.FirstSeen` is an independent reference for what the loop collects: the first `max_likes` candidates with distinct ids, in encounter order. `Harvest.RunIsFirstSeen` proves the two agree.

## Model

| member | source | states |
|---|---|---|
| Text.Strip | twitter-likes-scraper.py:104 | `strip()` never lengthens the segment, and what it keeps neither starts nor ends with whitespace |
| Text.StripShape | twitter-likes-scraper.py:104 | `strip()` keeps one infix of the segment; everything before and after it is whitespace, and the infix neither starts nor ends with whitespace |
| Text.StripIdempotent | twitter-likes-scraper.py:104 | stripping twice is stripping once |
| Text.Split | twitter-likes-scraper.py:103 | `split(';')` always yields at least one segment, even for the empty string |
| Text.SplitShape | twitter-likes-scraper.py:103 | `split(';')` yields pieces without `;` that join back, with `;`, to the input |
| Text.SplitJoin | twitter-likes-scraper.py:103 | `split` undoes `join` when no piece holds the separator |
| Text.SplitNone | twitter-likes-scraper.py:103 | a string without `;` is one segment |
| Text.SplitTrailing | twitter-likes-scraper.py:103 | a string ending in `;` has an empty last segment |
| Text.SplitOnce | twitter-likes-scraper.py:104 | `split('=', 1)` unpacks into two parts exactly when there is an `=`; the first part has no `=`, and the parts rebuild the segment around that `=` |
| Text.SplitOnceUnique | twitter-likes-scraper.py:104 | the cut is at the first `=`: any split whose left part has no `=` is the one returned |
| Cookies.ParseCookie | twitter-likes-scraper.py:104-110 | a segment yields a cookie exactly when its stripped text has an `=`; the name is the text before the first `=`, the value is the rest, the domain is `.x.com` and the path is `/` |
| Cookies.CookieOfUnique | twitter-likes-scraper.py:104-110 | a segment determines its cookie |
| Cookies.ParseAll | twitter-likes-scraper.py:103-111 | succeeds when every segment has an `=`, with one cookie per segment in order; otherwise fails at the first segment without one, with all earlier segments valid |
| Cookies.ParseCookies | twitter-likes-scraper.py:101-111 | `parse_cookies`: one cookie per `;`-segment in order, or a failure naming the first segment without `=` (the unpacking `ValueError`) |
| Cookies.ParsedCookieShape | twitter-likes-scraper.py:103-110 | every parsed name has no `=` and no `;`; every value has no `;` but may have `=`; the domain and path are fixed |
| Cookies.TrailingSemicolonFails | twitter-likes-scraper.py:103-104 | a cookie string ending in `;` makes the whole parse fail |
| Cookies.ParseFormatRoundTrip | twitter-likes-scraper.py:101-111 | parsing `"a=1; b=2"`, rendered from any list of sendable cookies, gives that list back |
| Href.DigitRunEnd | twitter-likes-scraper.py:39 | `\d+` reaches the end of the digit run: every character before it is a digit and the one at it is not |
| Href.LongestSplit | twitter-likes-scraper.py:39 | greedy `.+`: the split found matches, and no larger split matches from the same start |
| Href.SearchFrom | twitter-likes-scraper.py:39 | `re.search`: the match found starts at the leftmost position where any match starts, and is the greedy match there; with no result, nothing matches anywhere |
| Href.MatchAtEmbeds | twitter-likes-scraper.py:39-41 | a match is a needle `"/" + u + "/status/" + d + "/analytics"` embedded at its start, with `u` non-empty and newline-free and `d` non-empty digits |
| Href.EmbedsMatchAt | twitter-likes-scraper.py:39-41 | an embedded needle with such parts is a match at its position, with groups `(u, d)` |
| Href.ParseHref | twitter-likes-scraper.py:39-41 | a parsed username is non-empty and newline-free, the id is non-empty digits, and the href holds them as a needle `"/" + u + "/status/" + d + "/analytics"` |
| Href.ParseLink | twitter-likes-scraper.py:36-45 | an article without an analytics link is skipped; a parsed link yields groups with the same guarantees as `ParseHref` |
| Href.ParseHrefComplete | twitter-likes-scraper.py:39-45 | an href holding any capturable needle is not skipped, and the match starts no later than that needle |
| Href.ParseNeedle | twitter-likes-scraper.py:39-41 | a lone needle reads back as exactly its username and id, even when the username holds `/` or `/status/` |
| Likes.ScreenshotId | twitter-likes-scraper.py:52 | reading an id out of a `screenshots/{id}.png` path: rebuilding the path from it gives the same path |
| Likes.ScreenshotPath | twitter-likes-scraper.py:52 | the id read back from a screenshot path is the id it was built from |
| Likes.ScreenshotPathInjective | twitter-likes-scraper.py:52-53 | distinct ids never share a screenshot file |
| Likes.PermalinkParts | twitter-likes-scraper.py:61 | reading a username and id out of a permalink: rebuilding it from them gives the same permalink, and the id has no `/` |
| Likes.Permalink | twitter-likes-scraper.py:61 | a permalink reads back as the username and id it was built from, for an id without `/` |
| Likes.PermalinkInjective | twitter-likes-scraper.py:61 | distinct posts never share a permalink |
| Likes.MakeLikeFields | twitter-likes-scraper.py:48-62 | a record's permalink and screenshot name its username and id; its text is the article's text or `""` without that element; its timestamp is `""` without a time element and otherwise the `datetime` attribute, which may be missing |
| Harvest.AdmitConsistent | twitter-likes-scraper.py:47-62 | appending a well-formed record with a fresh id, together with its screenshot, keeps the state consistent |
| Harvest.Batch | twitter-likes-scraper.py:34-65 | the inner loop keeps ids unique, keeps one screenshot per record, keeps every record well formed, and never goes past `max_likes` |
| Harvest.Loop | twitter-likes-scraper.py:31-77 | the outer loop stops with `max_likes` records, or on the first scroll that did not grow the page, or when the script ends; every earlier scroll grew the page; the screenshot and bound invariants hold |
| Harvest.Run | twitter-likes-scraper.py:21-77 | `scrape_likes` from the first height on: unique ids, one screenshot per record, well-formed records, at most `max_likes` and none when `max_likes <= 0`; it stops on the bound exactly when it holds `max_likes` records, and then every batch but the last was followed by a scroll and the last was not; stops at the first scroll that leaves the height unchanged |
| Harvest.StopsByFirstStall | twitter-likes-scraper.py:71-77 | a scroll that leaves the height unchanged ends the run there at the latest; if no earlier scroll stalled and the bound was not hit, the run stops exactly there, on `NoGrowth` |
| Harvest.CandidateShape | twitter-likes-scraper.py:36-62 | an article yields one record exactly when its analytics link matches, and that record is well formed and carries the captured username and id |
| Harvest.FirstSeenUnique | twitter-likes-scraper.py:47 | the reference keeps no two candidates with the same id |
| Harvest.FirstSeenCovers | twitter-likes-scraper.py:47 | the reference loses no id: every candidate id is among the kept ones |
| Harvest.FirstSeenConcat | twitter-likes-scraper.py:34-47 | deduplicating two batches is deduplicating the first, then the second against everything seen so far |
| Harvest.BatchIsFirstSeen | twitter-likes-scraper.py:34-65 | one inner loop appends exactly the first `max_likes - len(likes)` new-id candidates of its batch |
| Harvest.SkipUnmatched | twitter-likes-scraper.py:36-45 | an article with no analytics link, or with a non-matching href, changes nothing |
| Harvest.SkipDuplicate | twitter-likes-scraper.py:47 | an article whose id is already held, or was met earlier in the batch, changes nothing, whatever its username |
| Harvest.LoopIsFirstSeen | twitter-likes-scraper.py:31-77 | from any iteration on, the loop's records are the reference over every article visited, cut at `max_likes` |
| Harvest.RunIsFirstSeen | twitter-likes-scraper.py:21-77 | the records of a run are the first `max_likes` distinct-id candidates of the visited articles, in first-encounter order |
| Harvest.LoopStartsUnderBound | twitter-likes-scraper.py:31-68 | from any iteration on, every batch the loop visits is started with fewer than `max_likes` distinct-id candidates in the batches before it |
| Harvest.RunStopsAtBound | twitter-likes-scraper.py:31-68 | the bound stops a run in the first batch that reaches it: every visited batch starts under `max_likes`, and a run stopped on the bound holds `max_likes` candidates after its last batch |
| Digest.Entry | twitter-likes-scraper.py:93-95 | every record writes a non-empty entry, so a record never vanishes from the digest |
| Digest.Markdown | twitter-likes-scraper.py:92-95 | the digest is empty exactly when there are no records |
| Digest.MarkdownConcat | twitter-likes-scraper.py:92-95 | the digest of `a + b` is the digest of `a` followed by the digest of `b` |
| Digest.MarkdownAt | twitter-likes-scraper.py:92-95 | record `k`'s three blocks sit right after the blocks of the records before it |
| Digest.WriteMarkdown | twitter-likes-scraper.py:91-95 | the `for like in likes` loop writes exactly the digest |
| Digest.MostRecent | twitter-likes-scraper.py:98-99 | `MOST_RECENT_TWEET` is set exactly when there is a record, and to a collected id |
| Digest.MostRecentIsFirstCandidate | twitter-likes-scraper.py:98-99 | the published id is the id of the first matching article the run met |

## Left out

- Playwright: launching the browser, setting cookies, navigating, `query_selector_all`, `query_selector`, `inner_text`, `get_attribute`, `screenshot` (and its `scale=2`) and `evaluate`. These are foreign calls. A scripted trace of articles and heights stands in for them, and a screenshot is modelled as the path it is written to.
- `wait_for_timeout(2000)`: it only waits.
- The `tqdm` progress bar: it only reports progress.
- `json.dump`, creating directories and writing files. The JSON file is the record list itself. The markdown file is `Digest.Markdown`.
- `os.environ['MOST_RECENT_TWEET']`: the process environment is not modelled. `Digest.MostRecent` is the value it would receive.
- `main`: `argparse`, `load_dotenv` and the check that `X_COOKIES` is set and non-empty. This is command-line glue, so `Cookies.ParseCookies` also accepts the empty string, which fails on its single empty segment.
- Exceptions raised by the browser or the file system: the script does not handle them.
- Harvest.Loop: the loop also stops when the script runs out of iterations (`TraceExhausted`). The real loop would keep querying a page whose height keeps changing, and a finite trace cannot describe that.
- Href.IsDigit: `\d` is ASCII `0`-`9`. Python's `str` patterns also accept other Unicode decimal digits.
- Likes.ScreenshotPath: the path relative to the output directory is written with `/`. On Windows, `str(Path)` would use `\`.
- Likes.MakeLikeFields: a `time` element without a `datetime` attribute gives the timestamp `None` (JSON `null`), as `get_attribute` returns it. It is not `""`, which is given only for a missing `time` element.
