/**
 * The scroll/extract/stop loop of `scrape_likes`, run against a scripted
 * browser: the page height measured before the loop, then, per iteration,
 * the articles visible at that moment and the height measured after the
 * scroll that follows them.
 */
module Harvest {
  import opened Wrappers
  import opened Href
  import opened Likes

  /** One loop iteration as the browser plays it. */
  datatype Step = Step(articles: seq<Article>, heightAfter: int)

  /** A scripted browser session; it plays at most `|steps|` iterations. */
  datatype Trace = Trace(initialHeight: int, steps: seq<Step>)

  /**
   * Why the loop ended: `max_likes` reached, a scroll that did not grow the
   * page, or (a modelling artifact) the script ran out of iterations.
   */
  datatype Stop = MaxReached | NoGrowth | TraceExhausted

  /** The collected records and the screenshots taken, in order. */
  datatype Acc = Acc(likes: seq<Like>, shots: seq<string>)

  /**
   * The end state: the records, the screenshot paths written, how many
   * article batches were queried, how many scrolls were made, and why it stopped.
   */
  datatype Outcome = Outcome(likes: seq<Like>, shots: seq<string>, batches: nat, scrolls: nat, stop: Stop)

  function IdSet(likes: seq<Like>): set<string> {
    set l | l in likes :: l.id
  }

  predicate UniqueIds(likes: seq<Like>) {
    forall i, j :: 0 <= i < j < |likes| ==> likes[i].id != likes[j].id
  }

  function Screenshots(likes: seq<Like>): seq<string> {
    seq(|likes|, k requires 0 <= k < |likes| => likes[k].screenshot)
  }

  /** A record as the extraction builds it from a matched analytics link. */
  predicate WellFormed(l: Like) {
    && Capturable(l.username, l.id)
    && l.permalink == Permalink(l.username, l.id)
    && l.screenshot == ScreenshotPath(l.id)
  }

  /**
   * What holds of the collected state throughout: ids are unique, every
   * record is well formed, and exactly one screenshot was taken per record,
   * in record order.
   */
  predicate Consistent(acc: Acc) {
    && UniqueIds(acc.likes)
    && acc.shots == Screenshots(acc.likes)
    && forall k :: 0 <= k < |acc.likes| ==> WellFormed(acc.likes[k])
  }

  /** The state after taking the screenshot of `like` and appending its record. */
  function Admitted(acc: Acc, like: Like): Acc {
    Acc(acc.likes + [like], acc.shots + [like.screenshot])
  }

  /** Admitting a record with a fresh id keeps the state consistent. */
  lemma AdmitConsistent(acc: Acc, like: Like)
    requires WellFormed(like) && like.id !in IdSet(acc.likes)
    ensures Consistent(acc) ==> Consistent(Admitted(acc, like))
  {
    var likes := acc.likes + [like];
    forall i | 0 <= i < |acc.likes|
      ensures likes[i].id != like.id
    {
      assert acc.likes[i] in acc.likes;
    }
    assert Screenshots(likes) == Screenshots(acc.likes) + [like.screenshot];
  }

  /**
   * The inner `for post in posts` loop over one batch of articles. An
   * article without a matching link, or whose id was already collected, is
   * skipped; otherwise its screenshot is taken and its record appended, and
   * the batch is abandoned as soon as `max` records are held.
   */
  function Batch(acc: Acc, articles: seq<Article>, max: int): (r: Acc)
    ensures Consistent(acc) ==> Consistent(r)
    ensures |acc.likes| < max ==> |r.likes| <= max
    decreases |articles|
  {
    if |articles| == 0 then acc
    else
      var parsed := ParseLink(articles[0].link);
      if parsed.None? then Batch(acc, articles[1..], max)
      else
        var (username, id) := parsed.value;
        if id in IdSet(acc.likes) then Batch(acc, articles[1..], max)
        else
          var like := MakeLike(username, id, articles[0]);
          var next := Admitted(acc, like);
          AdmitConsistent(acc, like);
          if |next.likes| >= max then next
          else Batch(next, articles[1..], max)
  }

  /** `last_height` at the start of iteration `n`: the height measured just before it. */
  function Height(t: Trace, n: nat): int
    requires n <= |t.steps|
  {
    if n == 0 then t.initialHeight else t.steps[n - 1].heightAfter
  }

  /** The scroll after batch `n` leaves the page height where it was. */
  predicate Stalls(t: Trace, n: nat)
    requires n < |t.steps|
  {
    t.steps[n].heightAfter == Height(t, n)
  }

  /**
   * The `while` loop from iteration `n` on, entered (as the `while` guard
   * demands) with fewer than `max` records: query the batch, process it,
   * stop if `max` is reached, otherwise scroll, re-measure and stop if the
   * height did not change.
   */
  function Loop(t: Trace, max: int, n: nat, acc: Acc): (o: Outcome)
    requires n <= |t.steps| && |acc.likes| < max
    ensures n <= o.batches <= |t.steps|
    ensures Consistent(acc) ==> Consistent(Acc(o.likes, o.shots))
    ensures |o.likes| <= max
    ensures o.stop == MaxReached <==> |o.likes| == max
    ensures o.stop == MaxReached ==> n < o.batches && o.scrolls + 1 == o.batches
    ensures o.stop != MaxReached ==> o.scrolls == o.batches
    ensures forall i :: n <= i < o.batches - 1 ==> !Stalls(t, i)
    ensures o.stop == NoGrowth ==> n < o.batches && Stalls(t, o.batches - 1)
    ensures o.stop == TraceExhausted ==> o.batches == |t.steps| && forall i :: n <= i < |t.steps| ==> !Stalls(t, i)
    decreases |t.steps| - n
  {
    if n == |t.steps| then Outcome(acc.likes, acc.shots, n, n, TraceExhausted)
    else
      var next := Batch(acc, t.steps[n].articles, max);
      if |next.likes| >= max then Outcome(next.likes, next.shots, n + 1, n, MaxReached)
      else if t.steps[n].heightAfter == Height(t, n) then Outcome(next.likes, next.shots, n + 1, n + 1, NoGrowth)
      else Loop(t, max, n + 1, next)
  }

  /**
   * `scrape_likes` from the first height measurement to the end of the
   * loop. The records have unique ids, are well formed and never exceed
   * `max`; one screenshot is taken per record and none otherwise; every
   * iteration but the last scrolled and grew the page; the loop stops on
   * `max`, on the first scroll that did not grow the page, or when the
   * script ends.
   */
  function Run(t: Trace, max: int): (o: Outcome)
    ensures o.batches <= |t.steps|
    ensures UniqueIds(o.likes)
    ensures o.shots == Screenshots(o.likes)
    ensures forall k :: 0 <= k < |o.likes| ==> WellFormed(o.likes[k])
    ensures max <= 0 ==> o.likes == [] && o.batches == 0 && o.scrolls == 0
    ensures max >= 0 ==> |o.likes| <= max
    ensures o.stop == MaxReached <==> |o.likes| >= max
    ensures o.stop == MaxReached && max > 0 ==> o.scrolls + 1 == o.batches
    ensures o.stop != MaxReached ==> o.scrolls == o.batches
    ensures forall i :: 0 <= i < o.batches - 1 ==> !Stalls(t, i)
    ensures o.stop == NoGrowth ==> 0 < o.batches && Stalls(t, o.batches - 1)
    ensures o.stop == TraceExhausted ==> o.batches == |t.steps| && forall i :: 0 <= i < |t.steps| ==> !Stalls(t, i)
  {
    if max <= 0 then Outcome([], [], 0, 0, MaxReached)
    else Loop(t, max, 0, Acc([], []))
  }

  /**
   * Termination: once the scroll after batch `k` fails to grow the page,
   * the loop has stopped, either on that scroll or earlier on `max`.
   */
  lemma StopsByFirstStall(t: Trace, max: int, k: nat)
    requires k < |t.steps| && Stalls(t, k)
    ensures Run(t, max).batches <= k + 1
    ensures Run(t, max).stop != TraceExhausted
    ensures (forall i :: 0 <= i < k ==> !Stalls(t, i)) && Run(t, max).stop != MaxReached ==>
              Run(t, max).stop == NoGrowth && Run(t, max).batches == k + 1
  {
  }

  /*
   * A reference description of what the loop collects, independent of its
   * control flow: every matched article yields a candidate record; the
   * first candidate for each id is kept, in encounter order; the result is
   * cut at `max`.
   */

  /** The record an article would yield, if its link matches. */
  function Candidate(a: Article): seq<Like> {
    var parsed := ParseLink(a.link);
    if parsed.None? then [] else [MakeLike(parsed.value.0, parsed.value.1, a)]
  }

  /**
   * An article yields at most one record: exactly one when its analytics
   * link matches, well formed and carrying the username and id the link
   * captures.
   */
  lemma CandidateShape(a: Article)
    ensures |Candidate(a)| <= 1
    ensures |Candidate(a)| == 1 <==> ParseLink(a.link).Some?
    ensures |Candidate(a)| == 1 ==> (Candidate(a)[0].username, Candidate(a)[0].id) == ParseLink(a.link).value
    ensures |Candidate(a)| == 1 ==> WellFormed(Candidate(a)[0])
  {
  }

  function Candidates(articles: seq<Article>): seq<Like>
    decreases |articles|
  {
    if |articles| == 0 then [] else Candidate(articles[0]) + Candidates(articles[1..])
  }

  lemma {:induction false} CandidatesConcat(a: seq<Article>, b: seq<Article>)
    ensures Candidates(a + b) == Candidates(a) + Candidates(b)
    decreases |a|
  {
    if |a| == 0 {
      assert a + b == b;
    } else {
      assert (a + b)[0] == a[0];
      assert (a + b)[1..] == a[1..] + b;
      CandidatesConcat(a[1..], b);
    }
  }

  /**
   * The candidates whose id is neither in `seen` nor carried by an earlier
   * candidate, in order.
   */
  function FirstSeen(seen: set<string>, cands: seq<Like>): seq<Like>
    decreases |cands|
  {
    if |cands| == 0 then []
    else if cands[0].id in seen then FirstSeen(seen, cands[1..])
    else [cands[0]] + FirstSeen(seen + {cands[0].id}, cands[1..])
  }

  /** The kept candidates have unique ids, none of them in `seen`. */
  lemma {:induction false} FirstSeenUnique(seen: set<string>, cands: seq<Like>)
    ensures UniqueIds(FirstSeen(seen, cands))
    ensures forall k :: 0 <= k < |FirstSeen(seen, cands)| ==> FirstSeen(seen, cands)[k].id !in seen
    decreases |cands|
  {
    if |cands| > 0 {
      var c := cands[0];
      if c.id in seen {
        FirstSeenUnique(seen, cands[1..]);
      } else {
        var rest := FirstSeen(seen + {c.id}, cands[1..]);
        FirstSeenUnique(seen + {c.id}, cands[1..]);
        var r := [c] + rest;
        assert forall k :: 1 <= k < |r| ==> r[k] == rest[k - 1];
      }
    }
  }

  lemma IdSetCons(l: Like, s: seq<Like>)
    ensures IdSet([l] + s) == {l.id} + IdSet(s)
  {
    assert forall x :: x in [l] + s <==> x == l || x in s;
  }

  /** Nothing is lost but repeats: with `seen`, the kept ids cover every candidate id. */
  lemma {:induction false} FirstSeenCovers(seen: set<string>, cands: seq<Like>)
    ensures seen + IdSet(FirstSeen(seen, cands)) == seen + IdSet(cands)
    decreases |cands|
  {
    if |cands| > 0 {
      var c := cands[0];
      assert cands == [c] + cands[1..];
      IdSetCons(c, cands[1..]);
      if c.id in seen {
        FirstSeenCovers(seen, cands[1..]);
      } else {
        FirstSeenCovers(seen + {c.id}, cands[1..]);
        IdSetCons(c, FirstSeen(seen + {c.id}, cands[1..]));
      }
    }
  }

  /** Deduplicating a concatenation: the second part sees every id of the first. */
  lemma {:induction false} FirstSeenConcat(seen: set<string>, a: seq<Like>, b: seq<Like>)
    ensures FirstSeen(seen, a + b) == FirstSeen(seen, a) + FirstSeen(seen + IdSet(a), b)
    decreases |a|
  {
    if |a| == 0 {
      assert a + b == b;
      assert FirstSeen(seen, a) == [];
      assert seen + IdSet(a) == seen;
    } else {
      FirstSeenConcat(seen + {a[0].id}, a[1..], b);
      FirstSeenConcatStep(seen, a, b);
    }
  }

  /** The inductive step of `FirstSeenConcat`, for a non-empty first part. */
  lemma FirstSeenConcatStep(seen: set<string>, a: seq<Like>, b: seq<Like>)
    requires |a| > 0
    requires var s := seen + {a[0].id};
             FirstSeen(s, a[1..] + b) == FirstSeen(s, a[1..]) + FirstSeen(s + IdSet(a[1..]), b)
    ensures FirstSeen(seen, a + b) == FirstSeen(seen, a) + FirstSeen(seen + IdSet(a), b)
  {
    assert (a + b)[1..] == a[1..] + b;
    FirstSeenHead(seen, a + b);
    FirstSeenHead(seen, a);
    SeenAfterHead(seen, a);
  }

  /** One step of `FirstSeen`, with the first id added to `seen` in both cases. */
  lemma FirstSeenHead(seen: set<string>, cands: seq<Like>)
    requires |cands| > 0
    ensures FirstSeen(seen, cands)
         == (if cands[0].id in seen then [] else [cands[0]]) + FirstSeen(seen + {cands[0].id}, cands[1..])
  {
    if cands[0].id in seen {
      assert seen + {cands[0].id} == seen;
    }
  }

  lemma SeenAfterHead(seen: set<string>, a: seq<Like>)
    requires |a| > 0
    ensures seen + {a[0].id} + IdSet(a[1..]) == seen + IdSet(a)
  {
    assert a == [a[0]] + a[1..];
    IdSetCons(a[0], a[1..]);
  }

  /** The first `n` elements of `s` (all of them if there are fewer). */
  function Take<T>(s: seq<T>, n: int): seq<T> {
    if n <= 0 then [] else if |s| <= n then s else s[..n]
  }

  lemma TakeConcat<T>(a: seq<T>, b: seq<T>, n: int)
    requires |a| <= n
    ensures Take(a + b, n) == a + Take(b, n - |a|)
  {
    if |a| < n && |b| > n - |a| {
      assert (a + b)[..n] == a + b[..n - |a|];
    }
  }

  /**
   * One batch against the reference: the records it appends are the first
   * `max - |acc.likes|` new ids among the batch's candidates.
   */
  lemma {:induction false} BatchIsFirstSeen(acc: Acc, articles: seq<Article>, max: int)
    requires |acc.likes| < max
    ensures Batch(acc, articles, max).likes
         == acc.likes + Take(FirstSeen(IdSet(acc.likes), Candidates(articles)), max - |acc.likes|)
    decreases |articles|, 1
  {
    if |articles| == 0 {
      assert Candidates(articles) == [];
      assert acc.likes + [] == acc.likes;
    } else {
      var c := Candidate(articles[0]);
      if |c| == 0 || c[0].id in IdSet(acc.likes) {
        BatchSkips(acc, articles, max);
      } else {
        BatchTakes(acc, articles, max);
      }
    }
  }

  /** The case of `BatchIsFirstSeen` where the first article adds nothing. */
  lemma {:induction false} BatchSkips(acc: Acc, articles: seq<Article>, max: int)
    requires |acc.likes| < max && |articles| > 0
    requires |Candidate(articles[0])| == 0 || Candidate(articles[0])[0].id in IdSet(acc.likes)
    ensures Batch(acc, articles, max).likes
         == acc.likes + Take(FirstSeen(IdSet(acc.likes), Candidates(articles)), max - |acc.likes|)
    decreases |articles|, 0
  {
    var seen := IdSet(acc.likes);
    var c := Candidate(articles[0]);
    BatchIsFirstSeen(acc, articles[1..], max);
    BatchUnfold(acc, articles, max);
    if |c| == 0 {
      assert Candidates(articles) == Candidates(articles[1..]);
    } else {
      FirstSeenHead(seen, Candidates(articles));
      assert seen + {c[0].id} == seen;
    }
  }

  /** The case of `BatchIsFirstSeen` where the first article's record is admitted. */
  lemma {:induction false} BatchTakes(acc: Acc, articles: seq<Article>, max: int)
    requires |acc.likes| < max && |articles| > 0
    requires |Candidate(articles[0])| == 1 && Candidate(articles[0])[0].id !in IdSet(acc.likes)
    ensures Batch(acc, articles, max).likes
         == acc.likes + Take(FirstSeen(IdSet(acc.likes), Candidates(articles)), max - |acc.likes|)
    decreases |articles|, 0
  {
    var next := Admitted(acc, Candidate(articles[0])[0]);
    if |next.likes| < max {
      BatchIsFirstSeen(next, articles[1..], max);
    }
    BatchAdmits(acc, articles, max);
  }

  lemma BatchUnfold(acc: Acc, articles: seq<Article>, max: int)
    requires |articles| > 0
    ensures Candidates(articles) == Candidate(articles[0]) + Candidates(articles[1..])
    ensures |Candidate(articles[0])| <= 1
    ensures var c := Candidate(articles[0]);
            |c| == 0 || c[0].id in IdSet(acc.likes) ==>
              Batch(acc, articles, max) == Batch(acc, articles[1..], max)
    ensures var c := Candidate(articles[0]);
            |c| == 1 && c[0].id !in IdSet(acc.likes) && |acc.likes| + 1 >= max ==>
              Batch(acc, articles, max) == Admitted(acc, c[0])
    ensures var c := Candidate(articles[0]);
            |c| == 1 && c[0].id !in IdSet(acc.likes) && |acc.likes| + 1 < max ==>
              Batch(acc, articles, max) == Batch(Admitted(acc, c[0]), articles[1..], max)
  {
  }

  /** The case of `BatchIsFirstSeen` where the first article is admitted. */
  lemma BatchAdmits(acc: Acc, articles: seq<Article>, max: int)
    requires |acc.likes| < max && |articles| > 0
    requires |Candidate(articles[0])| == 1 && Candidate(articles[0])[0].id !in IdSet(acc.likes)
    requires var next := Admitted(acc, Candidate(articles[0])[0]);
             |next.likes| < max ==>
               (Batch(next, articles[1..], max).likes
             == next.likes + Take(FirstSeen(IdSet(next.likes), Candidates(articles[1..])), max - |next.likes|))
    ensures Batch(acc, articles, max).likes
         == acc.likes + Take(FirstSeen(IdSet(acc.likes), Candidates(articles)), max - |acc.likes|)
  {
    var like := Candidate(articles[0])[0];
    BatchUnfold(acc, articles, max);
    assert Candidates(articles) == [like] + Candidates(articles[1..]);
    TakeAdmitted(IdSet(acc.likes), like, Candidates(articles[1..]), max - |acc.likes|);
    AdmittedLikes(acc, like);
  }

  /** Cutting the kept candidates after a fresh first one. */
  lemma TakeAdmitted(seen: set<string>, like: Like, rest: seq<Like>, m: int)
    requires like.id !in seen && m >= 1
    ensures Take(FirstSeen(seen, [like] + rest), m)
         == [like] + Take(FirstSeen(seen + {like.id}, rest), m - 1)
  {
    FirstSeenHead(seen, [like] + rest);
    assert ([like] + rest)[1..] == rest;
    TakeConcat([like], FirstSeen(seen + {like.id}, rest), m);
  }

  /** The records and ids after admitting `like`. */
  lemma AdmittedLikes(acc: Acc, like: Like)
    ensures Admitted(acc, like).likes == acc.likes + [like]
    ensures IdSet(Admitted(acc, like).likes) == IdSet(acc.likes) + {like.id}
    ensures forall t: seq<Like> :: Admitted(acc, like).likes + t == acc.likes + ([like] + t)
  {
    IdSetCons(like, []);
    assert IdSet(acc.likes + [like]) == IdSet(acc.likes) + IdSet([like]);
  }

  /**
   * An article without a matching analytics link changes nothing: the
   * batch collects the same records with or without it.
   */
  lemma SkipUnmatched(acc: Acc, a: seq<Article>, x: Article, b: seq<Article>, max: int)
    requires |acc.likes| < max && ParseLink(x.link).None?
    ensures Batch(acc, a + [x] + b, max).likes == Batch(acc, a + b, max).likes
  {
    BatchIsFirstSeen(acc, a + [x] + b, max);
    BatchIsFirstSeen(acc, a + b, max);
    CandidatesSkip(a, x, b);
    assert Candidate(x) == [];
    assert Candidates(a) + Candidate(x) == Candidates(a);
  }

  lemma CandidatesSkip(a: seq<Article>, x: Article, b: seq<Article>)
    ensures Candidates(a + [x] + b) == Candidates(a) + Candidate(x) + Candidates(b)
    ensures Candidates(a + b) == Candidates(a) + Candidates(b)
  {
    CandidatesConcat(a + [x], b);
    CandidatesConcat(a, [x]);
    CandidatesConcat(a, b);
    assert Candidates([x]) == Candidate(x) + Candidates([]);
  }

  /**
   * An article whose id is already held, or was met earlier in the batch,
   * changes nothing either, whatever username its link carries.
   */
  lemma SkipDuplicate(acc: Acc, a: seq<Article>, x: Article, b: seq<Article>, max: int)
    requires |acc.likes| < max && |Candidate(x)| > 0
    requires Candidate(x)[0].id in IdSet(acc.likes) + IdSet(Candidates(a))
    ensures Batch(acc, a + [x] + b, max).likes == Batch(acc, a + b, max).likes
  {
    BatchIsFirstSeen(acc, a + [x] + b, max);
    BatchIsFirstSeen(acc, a + b, max);
    CandidatesSkip(a, x, b);
    assert |Candidate(x)| == 1;
    FirstSeenSkip(IdSet(acc.likes), Candidates(a), Candidate(x)[0], Candidates(b));
  }

  /** A candidate whose id is already known is dropped without trace. */
  lemma FirstSeenSkip(seen: set<string>, ca: seq<Like>, c: Like, cb: seq<Like>)
    requires c.id in seen + IdSet(ca)
    ensures FirstSeen(seen, ca + [c] + cb) == FirstSeen(seen, ca + cb)
  {
    assert ca + [c] + cb == ca + ([c] + cb);
    FirstSeenConcat(seen, ca, [c] + cb);
    FirstSeenConcat(seen, ca, cb);
    FirstSeenHead(seen + IdSet(ca), [c] + cb);
    assert ([c] + cb)[1..] == cb;
    assert seen + IdSet(ca) + {c.id} == seen + IdSet(ca);
  }

  /** The articles of the first `n` batches, in the order they were visited. */
  function Visited(t: Trace, n: nat): seq<Article>
    requires n <= |t.steps|
  {
    if n == 0 then [] else Visited(t, n - 1) + t.steps[n - 1].articles
  }

  /** The loop against the reference, from an iteration whose state is the reference so far. */
  lemma {:induction false} LoopIsFirstSeen(t: Trace, max: int, n: nat, acc: Acc)
    requires n <= |t.steps| && |acc.likes| < max
    requires acc.likes == FirstSeen({}, Candidates(Visited(t, n)))
    ensures Loop(t, max, n, acc).likes
         == Take(FirstSeen({}, Candidates(Visited(t, Loop(t, max, n, acc).batches))), max)
    decreases |t.steps| - n
  {
    if n == |t.steps| {
      assert Loop(t, max, n, acc).likes == acc.likes;
      assert Take(acc.likes, max) == acc.likes;
    } else {
      var next := Batch(acc, t.steps[n].articles, max);
      if |next.likes| >= max || t.steps[n].heightAfter == Height(t, n) {
        LoopStopsFirstSeen(t, max, n, acc);
      } else {
        LoopGoesOn(t, max, n, acc);
        LoopIsFirstSeen(t, max, n + 1, next);
      }
    }
  }

  /** The case of `LoopIsFirstSeen` where batch `n` is the last one. */
  lemma LoopStopsFirstSeen(t: Trace, max: int, n: nat, acc: Acc)
    requires n < |t.steps| && |acc.likes| < max
    requires acc.likes == FirstSeen({}, Candidates(Visited(t, n)))
    requires var next := Batch(acc, t.steps[n].articles, max);
             |next.likes| >= max || t.steps[n].heightAfter == Height(t, n)
    ensures Loop(t, max, n, acc).likes
         == Take(FirstSeen({}, Candidates(Visited(t, Loop(t, max, n, acc).batches))), max)
  {
    LoopUnfold(t, max, n, acc);
    NextIsFirstSeen(t, max, n, acc);
  }

  /** The case of `LoopIsFirstSeen` where the loop goes on to batch `n + 1`. */
  lemma LoopGoesOn(t: Trace, max: int, n: nat, acc: Acc)
    requires n < |t.steps| && |acc.likes| < max
    requires acc.likes == FirstSeen({}, Candidates(Visited(t, n)))
    requires var next := Batch(acc, t.steps[n].articles, max);
             |next.likes| < max && t.steps[n].heightAfter != Height(t, n)
    ensures var next := Batch(acc, t.steps[n].articles, max);
            && next.likes == FirstSeen({}, Candidates(Visited(t, n + 1)))
            && Loop(t, max, n, acc) == Loop(t, max, n + 1, next)
  {
    LoopUnfold(t, max, n, acc);
    NextIsFirstSeen(t, max, n, acc);
  }

  /** One iteration of the loop: it stops after batch `n`, or goes on from `n + 1`. */
  lemma LoopUnfold(t: Trace, max: int, n: nat, acc: Acc)
    requires n < |t.steps| && |acc.likes| < max
    ensures var next := Batch(acc, t.steps[n].articles, max);
            if |next.likes| >= max || t.steps[n].heightAfter == Height(t, n)
            then Loop(t, max, n, acc).likes == next.likes && Loop(t, max, n, acc).batches == n + 1
            else Loop(t, max, n, acc) == Loop(t, max, n + 1, next)
  {
  }

  /** One iteration of the loop extends the reference by the batch it visits. */
  lemma NextIsFirstSeen(t: Trace, max: int, n: nat, acc: Acc)
    requires n < |t.steps| && |acc.likes| < max
    requires acc.likes == FirstSeen({}, Candidates(Visited(t, n)))
    ensures Batch(acc, t.steps[n].articles, max).likes
         == Take(FirstSeen({}, Candidates(Visited(t, n + 1))), max)
  {
    var before := Candidates(Visited(t, n));
    var batch := Candidates(t.steps[n].articles);
    BatchIsFirstSeen(acc, t.steps[n].articles, max);
    CandidatesConcat(Visited(t, n), t.steps[n].articles);
    FirstSeenConcat({}, before, batch);
    FirstSeenCovers({}, before);
    assert IdSet(acc.likes) == {} + IdSet(before);
    TakeConcat(acc.likes, FirstSeen({} + IdSet(before), batch), max);
  }

  /**
   * Every batch the loop starts, it starts under the bound: before batch
   * `i`, the reference over the articles of batches `0 .. i - 1` holds fewer
   * than `max` records. So no batch is visited once the bound is reached.
   */
  lemma {:induction false} LoopStartsUnderBound(t: Trace, max: int, n: nat, acc: Acc)
    requires n <= |t.steps| && |acc.likes| < max
    requires acc.likes == FirstSeen({}, Candidates(Visited(t, n)))
    ensures forall i :: n <= i < Loop(t, max, n, acc).batches ==> |FirstSeen({}, Candidates(Visited(t, i)))| < max
    decreases |t.steps| - n, 1
  {
    if n == |t.steps| {
      assert Loop(t, max, n, acc).batches == n;
    } else {
      var next := Batch(acc, t.steps[n].articles, max);
      if |next.likes| >= max || t.steps[n].heightAfter == Height(t, n) {
        LastStartsUnderBound(t, max, n, acc);
      } else {
        GoesOnUnderBound(t, max, n, acc);
      }
    }
  }

  /** The case of `LoopStartsUnderBound` where the loop goes on to batch `n + 1`. */
  lemma GoesOnUnderBound(t: Trace, max: int, n: nat, acc: Acc)
    requires n < |t.steps| && |acc.likes| < max
    requires acc.likes == FirstSeen({}, Candidates(Visited(t, n)))
    requires var next := Batch(acc, t.steps[n].articles, max);
             |next.likes| < max && t.steps[n].heightAfter != Height(t, n)
    ensures forall i :: n <= i < Loop(t, max, n, acc).batches ==> |FirstSeen({}, Candidates(Visited(t, i)))| < max
    decreases |t.steps| - n, 0
  {
    var next := Batch(acc, t.steps[n].articles, max);
    LoopGoesOn(t, max, n, acc);
    LoopStartsUnderBound(t, max, n + 1, next);
    var last := Loop(t, max, n + 1, next).batches;
    forall i | n <= i < last
      ensures |FirstSeen({}, Candidates(Visited(t, i)))| < max
    {
      if i == n {
        assert |acc.likes| < max;
      }
    }
  }

  /** The case of `LoopStartsUnderBound` where batch `n` is the last one. */
  lemma LastStartsUnderBound(t: Trace, max: int, n: nat, acc: Acc)
    requires n < |t.steps| && |acc.likes| < max
    requires acc.likes == FirstSeen({}, Candidates(Visited(t, n)))
    requires var next := Batch(acc, t.steps[n].articles, max);
             |next.likes| >= max || t.steps[n].heightAfter == Height(t, n)
    ensures forall i :: n <= i < Loop(t, max, n, acc).batches ==> |FirstSeen({}, Candidates(Visited(t, i)))| < max
  {
    LoopUnfold(t, max, n, acc);
    var last := Loop(t, max, n, acc).batches;
    assert last == n + 1;
    forall i | n <= i < last
      ensures |FirstSeen({}, Candidates(Visited(t, i)))| < max
    {
      assert i == n;
    }
  }

  /**
   * A run that stops on the bound stops in the first batch that reaches it:
   * the reference before each visited batch is under `max_likes`, and the
   * reference after the last one is not.
   */
  lemma RunStopsAtBound(t: Trace, max: int)
    ensures forall i :: 0 <= i < Run(t, max).batches ==> |FirstSeen({}, Candidates(Visited(t, i)))| < max
    ensures Run(t, max).stop == MaxReached && max > 0
        ==> |FirstSeen({}, Candidates(Visited(t, Run(t, max).batches)))| >= max
  {
    if max > 0 {
      assert Visited(t, 0) == [];
      LoopStartsUnderBound(t, max, 0, Acc([], []));
      RunIsFirstSeen(t, max);
    }
  }

  /**
   * The records of a run are exactly the first `max` distinct-id candidates
   * of the articles in the batches it visited, in first-encounter order: a
   * later article with a known id is dropped whatever its username.
   */
  lemma RunIsFirstSeen(t: Trace, max: int)
    ensures Run(t, max).likes == Take(FirstSeen({}, Candidates(Visited(t, Run(t, max).batches))), max)
  {
    if max > 0 {
      LoopIsFirstSeen(t, max, 0, Acc([], []));
    }
  }
}
