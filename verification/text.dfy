/**
 * The few pieces of Python's `str` API the scraper relies on: `strip()`,
 * `split(sep)` and `split(sep, 1)`, modelled on `seq<char>`.
 */
module Text {
  import opened Wrappers

  /**
   * Python's `str.isspace()` for one character: the characters `strip()`
   * with no argument removes.
   */
  predicate IsSpace(c: char) {
    || c == ' ' || c == '\t' || c == '\n' || c == '\r'
    || c == '\U{000B}' || c == '\U{000C}'
    || ('\U{001C}' <= c <= '\U{001F}')
    || c == '\U{0085}' || c == '\U{00A0}' || c == '\U{1680}'
    || ('\U{2000}' <= c <= '\U{200A}')
    || c == '\U{2028}' || c == '\U{2029}' || c == '\U{202F}' || c == '\U{205F}' || c == '\U{3000}'
  }

  /** `s.lstrip()`: `s` without its leading whitespace. */
  function StripLeft(s: string): (r: string)
    ensures |r| <= |s|
    decreases |s|
  {
    if |s| > 0 && IsSpace(s[0]) then StripLeft(s[1..]) else s
  }

  /** `lstrip()` keeps the longest suffix of `s` that does not start with whitespace. */
  lemma {:induction false} StripLeftShape(s: string)
    ensures s[|s| - |StripLeft(s)|..] == StripLeft(s)
    ensures forall k :: 0 <= k < |s| - |StripLeft(s)| ==> IsSpace(s[k])
    ensures StripLeft(s) == [] || !IsSpace(StripLeft(s)[0])
    decreases |s|
  {
    if |s| > 0 && IsSpace(s[0]) {
      StripLeftShape(s[1..]);
    }
  }

  /** `s.rstrip()`: `s` without its trailing whitespace. */
  function StripRight(s: string): (r: string)
    ensures |r| <= |s|
    decreases |s|
  {
    if |s| > 0 && IsSpace(s[|s| - 1]) then StripRight(s[..|s| - 1]) else s
  }

  /** `rstrip()` keeps the longest prefix of `s` that does not end with whitespace. */
  lemma {:induction false} StripRightShape(s: string)
    ensures s[..|StripRight(s)|] == StripRight(s)
    ensures forall k :: |StripRight(s)| <= k < |s| ==> IsSpace(s[k])
    ensures StripRight(s) == [] || !IsSpace(StripRight(s)[|StripRight(s)| - 1])
    decreases |s|
  {
    if |s| > 0 && IsSpace(s[|s| - 1]) {
      StripRightShape(s[..|s| - 1]);
    }
  }

  /** The number of whitespace characters `s.lstrip()` removes. */
  function LeadingBlanks(s: string): (n: nat)
    ensures n <= |s|
  {
    |s| - |StripLeft(s)|
  }

  /** `s.strip()`: `s` without its leading and trailing whitespace. */
  function Strip(s: string): (r: string)
    ensures |r| <= |s|
    ensures r == [] || (!IsSpace(r[0]) && !IsSpace(r[|r| - 1]))
  {
    StripLeftShape(s);
    StripRightShape(StripLeft(s));
    StripRight(StripLeft(s))
  }

  /**
   * What `strip()` keeps: the infix of `s` starting at `LeadingBlanks(s)`.
   * Everything outside it is whitespace, and it neither starts nor ends
   * with whitespace.
   */
  lemma StripShape(s: string)
    ensures LeadingBlanks(s) + |Strip(s)| <= |s|
    ensures s[LeadingBlanks(s)..LeadingBlanks(s) + |Strip(s)|] == Strip(s)
    ensures forall k :: 0 <= k < LeadingBlanks(s) ==> IsSpace(s[k])
    ensures forall k :: LeadingBlanks(s) + |Strip(s)| <= k < |s| ==> IsSpace(s[k])
    ensures Strip(s) == [] || (!IsSpace(Strip(s)[0]) && !IsSpace(Strip(s)[|Strip(s)| - 1]))
  {
    var l := StripLeft(s);
    var r := StripRight(l);
    var lo := |s| - |l|;
    StripLeftShape(s);
    StripRightShape(l);
    assert s[lo..lo + |r|] == l[..|r|];
  }

  /** Stripping a string that has no surrounding whitespace changes nothing. */
  lemma StripClean(s: string)
    requires s != [] && !IsSpace(s[0]) && !IsSpace(s[|s| - 1])
    ensures Strip(s) == s
  {
    assert StripLeft(s) == s;
    assert StripRight(s) == s;
  }

  /** A single leading blank, as in the `"; "` separator, is stripped away. */
  lemma StripLeadingBlank(s: string)
    requires s != [] && !IsSpace(s[0]) && !IsSpace(s[|s| - 1])
    ensures Strip(" " + s) == s
  {
    assert (" " + s)[1..] == s;
    assert StripLeft(" " + s) == StripLeft(s) == s;
    assert StripRight(s) == s;
  }

  /** Stripping only removes characters: whatever is in `Strip(s)` is in `s`. */
  lemma StripKeeps(s: string, ch: char)
    ensures ch in Strip(s) ==> ch in s
  {
    StripShape(s);
    if ch in Strip(s) {
      var k :| 0 <= k < |Strip(s)| && Strip(s)[k] == ch;
      assert s[LeadingBlanks(s) + k] == ch;
    }
  }

  /** Stripping is idempotent. */
  lemma StripIdempotent(s: string)
    ensures Strip(Strip(s)) == Strip(s)
  {
    StripShape(s);
    if Strip(s) != [] {
      StripClean(Strip(s));
    }
  }

  /** Joins `pieces` with the separator `c`: Python's `c.join(pieces)`. */
  function Join(pieces: seq<string>, c: char): string
    requires |pieces| >= 1
    decreases |pieces|
  {
    if |pieces| == 1 then pieces[0] else pieces[0] + [c] + Join(pieces[1..], c)
  }

  /**
   * `s.split(c)` for a one-character separator: the maximal runs between
   * separators, so there is always one more piece than there are separators,
   * and joining the pieces back gives `s`.
   */
  function Split(s: string, c: char): (r: seq<string>)
    ensures |r| >= 1
    decreases |s|
  {
    if |s| == 0 then [""]
    else
      var t := Split(s[1..], c);
      if s[0] == c then [""] + t else [[s[0]] + t[0]] + t[1..]
  }

  /** No piece contains the separator, and joining the pieces back gives `s`. */
  lemma {:induction false} SplitShape(s: string, c: char)
    ensures forall k :: 0 <= k < |Split(s, c)| ==> c !in Split(s, c)[k]
    ensures Join(Split(s, c), c) == s
    decreases |s|
  {
    if |s| > 0 {
      var t := Split(s[1..], c);
      SplitShape(s[1..], c);
      var r := Split(s, c);
      if s[0] == c {
        assert r[1..] == t;
      } else {
        assert r[1..] == t[1..];
        assert |t| > 1 ==> Join(t, c) == t[0] + [c] + Join(t[1..], c);
        assert s == [s[0]] + s[1..];
      }
    }
  }

  /** Splitting a string with no separator gives the string itself. */
  lemma {:induction false} SplitNone(s: string, c: char)
    requires c !in s
    ensures Split(s, c) == [s]
  {
    var r := Split(s, c);
    SplitShape(s, c);
    JoinShowsSeparator(r, c);
  }

  /** Joining two or more pieces puts a separator into the result. */
  lemma JoinShowsSeparator(pieces: seq<string>, c: char)
    requires |pieces| >= 1
    ensures |pieces| > 1 ==> c in Join(pieces, c)
  {
    if |pieces| > 1 {
      assert Join(pieces, c)[|pieces[0]|] == c;
    }
  }

  /** A separator after a separator-free prefix splits off exactly that prefix. */
  lemma {:induction false} SplitCons(a: string, c: char, b: string)
    requires c !in a
    ensures Split(a + [c] + b, c) == [a] + Split(b, c)
    decreases |a|
  {
    var s := a + [c] + b;
    if |a| == 0 {
      assert s[1..] == b;
    } else {
      assert s[1..] == a[1..] + [c] + b;
      SplitCons(a[1..], c, b);
      assert [a[0]] + a[1..] == a;
    }
  }

  /** `split` undoes `join` when no piece contains the separator. */
  lemma {:induction false} SplitJoin(pieces: seq<string>, c: char)
    requires |pieces| >= 1
    requires forall k :: 0 <= k < |pieces| ==> c !in pieces[k]
    ensures Split(Join(pieces, c), c) == pieces
    decreases |pieces|
  {
    if |pieces| == 1 {
      SplitNone(pieces[0], c);
    } else {
      SplitJoin(pieces[1..], c);
      SplitCons(pieces[0], c, Join(pieces[1..], c));
      assert [pieces[0]] + pieces[1..] == pieces;
    }
  }

  /** A string that ends with the separator splits into a last piece that is empty. */
  lemma {:induction false} SplitTrailing(s: string, c: char)
    requires |s| > 0 && s[|s| - 1] == c
    ensures Split(s, c)[|Split(s, c)| - 1] == ""
    decreases |s|
  {
    if |s| == 1 {
      assert s[1..] == "";
    } else {
      var t := Split(s[1..], c);
      assert s[1..][|s| - 2] == c;
      SplitTrailing(s[1..], c);
      SplitShape(s[1..], c);
    }
  }

  /**
   * `s.split(c, 1)` destructured into two names: the text before the first
   * `c` and everything after it, or `None` when `s` has no `c` (the unpacking
   * `name, value = ...` then raises `ValueError`).
   */
  function SplitOnce(s: string, c: char): (r: Option<(string, string)>)
    ensures r.None? <==> c !in s
    ensures r.Some? ==> c !in r.value.0 && s == r.value.0 + [c] + r.value.1
    decreases |s|
  {
    if |s| == 0 then None
    else if s[0] == c then Some(([], s[1..]))
    else
      match SplitOnce(s[1..], c)
      case None => None
      case Some((n, v)) => Some(([s[0]] + n, v))
  }

  /** The split at the first `c` is the only split whose left part has no `c`. */
  lemma {:induction false} SplitOnceUnique(s: string, c: char, n: string, v: string)
    requires c !in n && s == n + [c] + v
    ensures SplitOnce(s, c) == Some((n, v))
    decreases |n|
  {
    if |n| > 0 {
      assert s[1..] == n[1..] + [c] + v;
      SplitOnceUnique(s[1..], c, n[1..], v);
      assert [n[0]] + n[1..] == n;
    }
  }
}
