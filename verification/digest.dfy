/**
 * What `scrape_likes` does with the records once the loop is over: the
 * markdown digest written next to the JSON file, and the id it publishes as
 * the most recent tweet.
 */
module Digest {
  import opened Wrappers
  import opened Likes
  import Harvest

  /** The three blocks written for one record: image, permalink, rule. */
  function Entry(l: Like): (r: string)
    ensures |r| > 0
  {
    "![Tweet by " + l.username + "](" + l.screenshot + ")\n\n"
      + "[Permalink to tweet](" + l.permalink + ")\n\n"
      + "---\n\n"
  }

  /** The blocks written one after another, in order. */
  function Concat(blocks: seq<string>): (r: string)
    decreases |blocks|
  {
    if |blocks| == 0 then "" else blocks[0] + Concat(blocks[1..])
  }

  lemma {:induction false} ConcatAppend(a: seq<string>, b: seq<string>)
    ensures Concat(a + b) == Concat(a) + Concat(b)
    decreases |a|
  {
    if |a| == 0 {
      assert a + b == b;
    } else {
      assert (a + b)[0] == a[0];
      assert (a + b)[1..] == a[1..] + b;
      ConcatAppend(a[1..], b);
    }
  }

  /** One entry per record, in record order. */
  function Entries(likes: seq<Like>): (r: seq<string>)
    ensures |r| == |likes|
    ensures forall k :: 0 <= k < |likes| ==> r[k] == Entry(likes[k])
    decreases |likes|
  {
    if |likes| == 0 then [] else [Entry(likes[0])] + Entries(likes[1..])
  }

  /** The markdown file: the records' entries, in record order. */
  function Markdown(likes: seq<Like>): (r: string)
    ensures |likes| == 0 <==> r == ""
  {
    var blocks := Entries(likes);
    if |likes| == 0 then "" else
      assert blocks == [blocks[0]] + blocks[1..];
      ConcatAppend([blocks[0]], blocks[1..]);
      Concat(blocks)
  }

  lemma EntriesAppend(a: seq<Like>, b: seq<Like>)
    ensures Entries(a + b) == Entries(a) + Entries(b)
  {
    assert forall k :: 0 <= k < |a + b| ==> Entries(a + b)[k] == (Entries(a) + Entries(b))[k] by {
      forall k | 0 <= k < |a + b|
        ensures Entries(a + b)[k] == (Entries(a) + Entries(b))[k]
      {
        if k < |a| { assert (a + b)[k] == a[k]; } else { assert (a + b)[k] == b[k - |a|]; }
      }
    }
  }

  /** The digest of a concatenation is the concatenation of the digests. */
  lemma MarkdownConcat(a: seq<Like>, b: seq<Like>)
    ensures Markdown(a + b) == Markdown(a) + Markdown(b)
  {
    EntriesAppend(a, b);
    ConcatAppend(Entries(a), Entries(b));
  }

  /** Appending a record appends exactly its entry. */
  lemma MarkdownSnoc(likes: seq<Like>, l: Like)
    ensures Markdown(likes + [l]) == Markdown(likes) + Entry(l)
  {
    MarkdownConcat(likes, [l]);
    assert Entries([l]) == [Entry(l)];
    assert Concat([Entry(l)]) == Entry(l) + Concat([]);
  }

  /**
   * Record `k`'s entry sits in the file right after the entries of the
   * records before it, and the entries of the records after it follow.
   */
  lemma MarkdownAt(likes: seq<Like>, k: nat)
    requires k < |likes|
    ensures Markdown(likes) == Markdown(likes[..k]) + Entry(likes[k]) + Markdown(likes[k + 1..])
  {
    assert likes == likes[..k] + [likes[k]] + likes[k + 1..];
    MarkdownConcat(likes[..k] + [likes[k]], likes[k + 1..]);
    MarkdownSnoc(likes[..k], likes[k]);
  }

  /** One more record of the list, one more entry of the file. */
  lemma MarkdownPrefix(likes: seq<Like>, i: nat)
    requires i < |likes|
    ensures Markdown(likes[..i + 1]) == Markdown(likes[..i]) + Entry(likes[i])
  {
    assert likes[..i + 1] == likes[..i] + [likes[i]];
    MarkdownSnoc(likes[..i], likes[i]);
  }

  /** The `for like in likes` loop writing the file, one entry per record. */
  method WriteMarkdown(likes: seq<Like>) returns (out: string)
    ensures out == Markdown(likes)
  {
    out := "";
    var i := 0;
    while i < |likes|
      invariant 0 <= i <= |likes|
      invariant out == Markdown(likes[..i])
    {
      MarkdownPrefix(likes, i);
      out := out + Entry(likes[i]);
      i := i + 1;
    }
    assert likes[..i] == likes;
  }

  /** `MOST_RECENT_TWEET`: the id of the first record, set only when there is one. */
  function MostRecent(likes: seq<Like>): (r: Option<string>)
    ensures r.None? <==> |likes| == 0
    ensures r.Some? ==> exists k :: 0 <= k < |likes| && likes[k].id == r.value
  {
    if |likes| == 0 then None else Some(likes[0].id)
  }

  /**
   * The published id is the id of the first matching article the run met:
   * the first batch's first parsed link, whatever came later.
   */
  lemma MostRecentIsFirstCandidate(t: Harvest.Trace, max: int)
    ensures var o := Harvest.Run(t, max);
            var cands := Harvest.Candidates(Harvest.Visited(t, o.batches));
            MostRecent(o.likes).Some? ==> |cands| > 0 && MostRecent(o.likes).value == cands[0].id
  {
    var o := Harvest.Run(t, max);
    var cands := Harvest.Candidates(Harvest.Visited(t, o.batches));
    Harvest.RunIsFirstSeen(t, max);
    if |o.likes| > 0 {
      assert |cands| > 0;
      assert o.likes[0] == Harvest.FirstSeen({}, cands)[0];
    }
  }
}
