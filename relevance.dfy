/**
 * `check_relevance`: one question to the language model about the first
 * 1000 characters of the article, and a verdict that is true iff the
 * lower-cased answer contains "yes" anywhere.
 */
module Relevance {
  import opened Text
  import opened Oracle

  /** Only this many leading characters of the article reach the prompt. */
  const ExcerptLength: nat := 1000

  /** `content[:1000]`. */
  function Excerpt(content: string): (excerpt: string)
    ensures |excerpt| <= ExcerptLength
    ensures excerpt <= content
    ensures |content| <= ExcerptLength ==> excerpt == content
    ensures |excerpt| == if |content| <= ExcerptLength then |content| else ExcerptLength
  {
    if |content| <= ExcerptLength then content else content[..ExcerptLength]
  }

  /** The decision rule: `"yes" in response.lower()`. */
  predicate IsAffirmative(response: string): (affirmative: bool)
    ensures affirmative <==> exists i: nat :: OccursAt(Lower(response), "yes", i)
  {
    ContainsIff(Lower(response), "yes");
    Contains(Lower(response), "yes")
  }

  /** The relevance verdict, or Raised when the model call raises. */
  function CheckRelevance(query: string, content: string, llm: Llm): (verdict: Outcome<bool>)
    ensures verdict.Raised? <==> llm(RelevanceQuestion(query, Excerpt(content))).Failed?
    ensures verdict.Returned? ==> verdict.value == IsAffirmative(llm(RelevanceQuestion(query, Excerpt(content))).text)
  {
    match llm(RelevanceQuestion(query, Excerpt(content)))
    case Failed => Raised
    case Answer(text) => Returned(IsAffirmative(text))
  }

  /**
   * The verdict is relevant iff "yes" occurs, at some position and in any
   * letter case, in the answer to the one question asked; a failed call
   * gives no verdict.
   */
  lemma CheckRelevanceIff(query: string, content: string, llm: Llm)
    ensures var reply := llm(RelevanceQuestion(query, Excerpt(content)));
      && (CheckRelevance(query, content, llm).Raised? <==> reply.Failed?)
      && (CheckRelevance(query, content, llm) == Returned(true) <==>
            reply.Answer? && exists i: nat :: OccursAt(Lower(reply.text), "yes", i))
  {
    var reply := llm(RelevanceQuestion(query, Excerpt(content)));
    if reply.Answer? {
      ContainsIff(Lower(reply.text), "yes");
    }
  }

  /** Two articles that agree on their first 1000 characters get the same verdict. */
  lemma VerdictSeesOnlyExcerpt(query: string, a: string, b: string, llm: Llm)
    requires |a| >= ExcerptLength && |b| >= ExcerptLength
    requires a[..ExcerptLength] == b[..ExcerptLength]
    ensures RelevanceQuestion(query, Excerpt(a)) == RelevanceQuestion(query, Excerpt(b))
    ensures CheckRelevance(query, a, llm) == CheckRelevance(query, b, llm)
  {
    assert Excerpt(a) == a[..ExcerptLength];
    assert Excerpt(b) == b[..ExcerptLength];
  }

  /** Text appended after the first 1000 characters never changes the verdict. */
  lemma AppendedTextIsUnseen(query: string, content: string, tail: string, llm: Llm)
    requires |content| >= ExcerptLength
    ensures CheckRelevance(query, content + tail, llm) == CheckRelevance(query, content, llm)
  {
    assert (content + tail)[..ExcerptLength] == content[..ExcerptLength];
    VerdictSeesOnlyExcerpt(query, content + tail, content, llm);
  }

  /** The verdict ignores letter case in the answer. */
  lemma AffirmativeIgnoresCase(response: string)
    ensures IsAffirmative(Lower(response)) == IsAffirmative(response)
  {
    assert Lower(Lower(response)) == Lower(response);
  }

  /** "Yes, highly relevant" is a yes. */
  lemma YesAnswerIsRelevant()
    ensures IsAffirmative("Yes, highly relevant")
  {
    assert Lower("Yes, highly relevant")[..3] == "yes";
    assert OccursAt(Lower("Yes, highly relevant"), "yes", 0);
  }

  /** A plain "No" is not. */
  lemma NoAnswerIsNotRelevant()
    ensures !IsAffirmative("No")
  {
    assert Lower("No") == "no";
    AbsentByCharAt("no", "yes", 0);
  }

  /**
   * The permissive match: an answer that is really a no but mentions "yes"
   * in its explanation counts as relevant.
   */
  lemma HedgedNoIsRelevant()
    ensures IsAffirmative("No, not a definitive yes")
  {
    var low := Lower("No, not a definitive yes");
    assert low[21..24] == "yes";
    assert OccursAt(low, "yes", 21);
    ContainsIff(low, "yes");
  }
}
