/**
 * Link discovery in scrape_articles: which anchors of the search results
 * page become article URLs (`is_valid_article_link` and the comprehension
 * around it), and the cap on how many of them are visited.
 */
module LinkFilter {
  import opened Text
  import opened Selection
  import opened Oracle

  /** Substrings that disqualify a link, matched against the lower-cased URL. */
  const ExclusionPatterns: seq<string> :=
    ["help", "support", "contact", "accessibility", "google.com", "forum", "advertisement", "login"]

  /** At most this many filtered links are visited per query. */
  const MaxArticles: nat := 5

  predicate MatchesExclusion(url: string)
  {
    exists k :: 0 <= k < |ExclusionPatterns| && Contains(Lower(url), ExclusionPatterns[k])
  }

  /** `is_valid_article_link`: exclusions first, then the case-sensitive accept tokens. */
  predicate IsValidArticleLink(url: string): (valid: bool)
    ensures valid ==> !MatchesExclusion(url)
    ensures valid ==> Contains(url, "article") || Contains(url, "blog")
  {
    if MatchesExclusion(url) then false
    else Contains(url, "article") || Contains(url, "blog")
  }

  /** An exclusion term anywhere in the lower-cased URL rejects it, whatever else it contains. */
  lemma ExclusionWins(url: string, k: nat, i: nat)
    requires k < |ExclusionPatterns|
    requires OccursAt(Lower(url), ExclusionPatterns[k], i)
    ensures !IsValidArticleLink(url)
  {
    ContainsIff(Lower(url), ExclusionPatterns[k]);
  }

  /**
   * With no exclusion term at any position of the lower-cased URL, the link
   * is accepted iff "article" or "blog" occurs in the URL as written.
   */
  lemma AcceptIff(url: string)
    requires forall k, i: nat :: 0 <= k < |ExclusionPatterns| ==> !OccursAt(Lower(url), ExclusionPatterns[k], i)
    ensures IsValidArticleLink(url) <==>
      (exists i: nat :: OccursAt(url, "article", i)) || (exists i: nat :: OccursAt(url, "blog", i))
  {
    forall k | 0 <= k < |ExclusionPatterns| ensures !Contains(Lower(url), ExclusionPatterns[k]) {
      ContainsIff(Lower(url), ExclusionPatterns[k]);
    }
    ContainsIff(url, "article");
    ContainsIff(url, "blog");
  }

  /** An upper-case exclusion term still rejects: "HELP" is lower-cased to "help". */
  lemma UpperCaseHelpIsExcluded()
    ensures !IsValidArticleLink("https://x.io/HELP/article")
  {
    var url := "https://x.io/HELP/article";
    assert Lower(url)[13..17] == "help";
    ExclusionWins(url, 0, 13);
  }

  /** The accept tokens are case-sensitive: "ARTICLE" alone is not accepted. */
  lemma UpperCaseArticleIsNotAccepted()
    ensures !IsValidArticleLink("ARTICLE")
  {
    var url := "ARTICLE";
    assert Lower(url) == "article";
    AbsentByCharAt(url, "article", 0);
    AbsentByCharAt(url, "blog", 0);
  }

  /**
   * Every exclusion term has one of the letters e, u, c, a, f, n; a text
   * with none of them contains no exclusion term.
   */
  lemma NoExclusionWithoutKeyLetters(low: string)
    requires 'e' !in low && 'u' !in low && 'c' !in low
    requires 'a' !in low && 'f' !in low && 'n' !in low
    ensures forall k :: 0 <= k < |ExclusionPatterns| ==> !Contains(low, ExclusionPatterns[k])
  {
    AbsentByCharAt(low, "help", 1);
    AbsentByCharAt(low, "support", 1);
    AbsentByCharAt(low, "contact", 0);
    AbsentByCharAt(low, "accessibility", 0);
    AbsentByCharAt(low, "google.com", 5);
    AbsentByCharAt(low, "forum", 0);
    AbsentByCharAt(low, "advertisement", 0);
    AbsentByCharAt(low, "login", 4);
  }

  const BlogExample := "https://x.io/blog"

  lemma BlogExampleIsLowerCase()
    ensures Lower(BlogExample) == BlogExample
  {
  }

  lemma BlogExampleHasNoExclusion()
    ensures !MatchesExclusion(BlogExample)
  {
    BlogExampleIsLowerCase();
    NoExclusionWithoutKeyLetters(BlogExample);
  }

  lemma BlogExampleNamesBlog()
    ensures Contains(BlogExample, "blog")
  {
    assert OccursAt(BlogExample, "blog", 13);
    ContainsIff(BlogExample, "blog");
  }

  /** A link that names a blog and no excluded term is accepted. */
  lemma BlogLinkIsAccepted()
    ensures IsValidArticleLink(BlogExample)
  {
    BlogExampleHasNoExclusion();
    BlogExampleNamesBlog();
  }

  /** What the comprehension in scrape_articles asks of an anchor's href. */
  predicate Admissible(href: Option<string>)
  {
    href.Some? && href.value != "" && Contains(href.value, "http") && IsValidArticleLink(href.value)
  }

  /**
   * `article_urls`: the hrefs of the anchors (None where an anchor has none)
   * that are non-empty, contain "http" and pass the filter, in page order.
   */
  function SelectArticleUrls(hrefs: seq<Option<string>>): (urls: seq<string>)
    ensures |urls| <= |hrefs|
    ensures forall k :: 0 <= k < |urls| ==>
      && Some(urls[k]) in hrefs && urls[k] != "" && Contains(urls[k], "http") && IsValidArticleLink(urls[k])
  {
    var kept := Filter(hrefs, Admissible);
    seq(|kept|, k requires 0 <= k < |kept| => kept[k].value)
  }

  /** `article_urls[:5]`: the links the per-link loop visits. */
  function VisitedUrls(hrefs: seq<Option<string>>): (urls: seq<string>)
    ensures urls <= SelectArticleUrls(hrefs)
    ensures |urls| == if |SelectArticleUrls(hrefs)| <= MaxArticles then |SelectArticleUrls(hrefs)| else MaxArticles
  {
    var urls := SelectArticleUrls(hrefs);
    if |urls| <= MaxArticles then urls else urls[..MaxArticles]
  }

  /**
   * The selected URLs are exactly the admissible hrefs: the k-th URL is the
   * href of the k-th admissible anchor, positions strictly increase (page
   * order, duplicates kept), and no admissible anchor is skipped.
   */
  lemma SelectArticleUrlsExact(hrefs: seq<Option<string>>)
    ensures var urls := SelectArticleUrls(hrefs);
      var idx := KeptPositions(hrefs, Admissible);
      && |urls| == |idx|
      && StrictlyIncreasing(idx)
      && (forall k :: 0 <= k < |idx| ==> idx[k] < |hrefs| && hrefs[idx[k]] == Some(urls[k]))
      && (forall j :: 0 <= j < |hrefs| ==> (Admissible(hrefs[j]) <==> j in idx))
  {
    FilterIsSubsequence(hrefs, Admissible);
  }

  /**
   * At most five links are visited, and they are the first admissible hrefs
   * in page order, each of which passes the filter and contains "http".
   */
  lemma VisitedAreFirstAdmissible(hrefs: seq<Option<string>>)
    ensures var urls := VisitedUrls(hrefs);
      var idx := KeptPositions(hrefs, Admissible);
      && |urls| <= MaxArticles
      && |urls| == (if |idx| <= MaxArticles then |idx| else MaxArticles)
      && (forall k :: 0 <= k < |urls| ==>
            idx[k] < |hrefs| && hrefs[idx[k]] == Some(urls[k])
            && urls[k] != "" && Contains(urls[k], "http") && IsValidArticleLink(urls[k]))
  {
    SelectArticleUrlsExact(hrefs);
    var idx := KeptPositions(hrefs, Admissible);
    forall k | 0 <= k < |VisitedUrls(hrefs)|
      ensures Admissible(hrefs[idx[k]])
    {
      assert idx[k] in idx;
    }
  }
}
