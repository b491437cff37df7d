/**
 * Post-processing of the tags scraped from a book's search page. The browser
 * automation that finds the tag elements is not modelled: their texts are an
 * input, and so is the order in which Python's `set` yields the distinct tags.
 */
module Crawling {
  import opened Text

  /** `(category, hashtags)` on success, `(None, None)` when post-processing raised. */
  datatype CrawlResult = NoTags | Tags(category: string, hashtags: seq<string>)

  predicate Distinct(xs: seq<string>) {
    forall i, j :: 0 <= i < j < |xs| ==> xs[i] != xs[j]
  }

  function Elements(xs: seq<string>): set<string> {
    set x | x in xs
  }

  /** `list(set(xs))` may be any duplicate-free listing of the distinct elements of `xs`. */
  predicate ListsSetOf(listing: seq<string>, xs: seq<string>) {
    Distinct(listing) && Elements(listing) == Elements(xs)
  }

  /** Every tag with all of its "#" characters removed, in order: one cleaned tag per tag, none with a "#". */
  function StripHashes(tags: seq<string>): (cleaned: seq<string>)
    ensures |cleaned| == |tags|
    ensures forall i :: 0 <= i < |tags| ==> cleaned[i] == Replace(tags[i], "#", "")
    ensures forall i :: 0 <= i < |cleaned| ==> '#' !in cleaned[i]
    ensures forall i, x :: 0 <= i < |tags| && x != '#' ==> multiset(cleaned[i])[x] == multiset(tags[i])[x]
  {
    var cleaned := seq(|tags|, i requires 0 <= i < |tags| => Replace(tags[i], "#", ""));
    assert forall i :: 0 <= i < |cleaned| ==>
      '#' !in cleaned[i] && forall x :: x != '#' ==> multiset(cleaned[i])[x] == multiset(tags[i])[x] by {
      forall i | 0 <= i < |cleaned|
        ensures '#' !in cleaned[i]
        ensures forall x :: x != '#' ==> multiset(cleaned[i])[x] == multiset(tags[i])[x]
      {
        RemoveCharSpec(tags[i], '#');
      }
    }
    cleaned
  }

  /** A duplicate-free list has as many distinct elements as entries. */
  lemma {:induction false} DistinctCardinality(xs: seq<string>)
    requires Distinct(xs)
    ensures |Elements(xs)| == |xs|
    decreases |xs|
  {
    if |xs| > 0 {
      var tail := xs[1..];
      assert Distinct(tail);
      DistinctCardinality(tail);
      assert Elements(xs) == {xs[0]} + Elements(tail);
      assert xs[0] !in Elements(tail);
    }
  }

  /**
   * Lines 20-24 with the exception path of lines 26-28: strip "#", take the
   * first tag as the category, de-duplicate the remaining tags and drop the
   * first of them in set order. An empty tag list raises at index 0 and yields
   * `(None, None)`.
   */
  function PostProcessTags(scraped: seq<string>, setOrder: seq<string>): (r: CrawlResult)
    requires |scraped| > 0 ==> ListsSetOf(setOrder, StripHashes(scraped)[1..])
    ensures r.NoTags? <==> |scraped| == 0
    ensures r.Tags? ==> r.category == Replace(scraped[0], "#", "")
    ensures r.Tags? ==> '#' !in r.category
    ensures r.Tags? ==> forall i :: 0 <= i < |r.hashtags| ==> '#' !in r.hashtags[i]
    ensures r.Tags? ==> Distinct(r.hashtags)
    ensures r.Tags? ==> forall h :: h in r.hashtags ==> h in StripHashes(scraped)[1..]
    ensures r.Tags? ==>
      var distinct := |Elements(StripHashes(scraped)[1..])|;
      |r.hashtags| == if distinct == 0 then 0 else distinct - 1
  {
    if |scraped| == 0 then NoTags
    else
      var cleaned := StripHashes(scraped);
      RemoveCharSpec(scraped[0], '#');
      DistinctCardinality(setOrder);
      var hashtags := if |setOrder| == 0 then [] else setOrder[1..];
      assert forall h :: h in hashtags ==> h in setOrder;
      assert forall h :: h in setOrder ==> h in Elements(cleaned[1..]);
      assert forall h :: h in Elements(cleaned[1..]) ==> '#' !in h by {
        forall h | h in Elements(cleaned[1..]) ensures '#' !in h {
          var k :| 0 <= k < |cleaned[1..]| && cleaned[1..][k] == h;
          RemoveCharSpec(scraped[k + 1], '#');
        }
      }
      Tags(cleaned[0], hashtags)
  }
}
