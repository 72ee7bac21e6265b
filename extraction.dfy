/**
 * `extract_relevant_information`: one model call per chunk, the non-blank
 * answers kept in chunk order, and one final call that organises them.
 * The text splitter is not modelled: the chunks are an input.
 */
module Extraction {
  import opened Text
  import opened Selection
  import opened Oracle

  /** `response.strip()` is truthy. */
  predicate HasContent(response: string)
  {
    Strip(response) != ""
  }

  /** Every per-chunk call answers (none raises). */
  predicate AllAnswered(query: string, chunks: seq<string>, llm: Llm)
  {
    forall j :: 0 <= j < |chunks| ==> llm(ExtractionRequest(query, chunks[j])).Answer?
  }

  /** The answers to the per-chunk prompts, in chunk order. */
  function ChunkAnswers(query: string, chunks: seq<string>, llm: Llm): seq<string>
    requires AllAnswered(query, chunks, llm)
  {
    seq(|chunks|, j requires 0 <= j < |chunks| && AllAnswered(query, chunks, llm) =>
      llm(ExtractionRequest(query, chunks[j])).text)
  }

  /** `relevant_chunks` once every chunk is answered: the answers with content, unstripped. */
  function KeptResponses(query: string, chunks: seq<string>, llm: Llm): seq<string>
    requires AllAnswered(query, chunks, llm)
  {
    Filter(ChunkAnswers(query, chunks, llm), HasContent)
  }

  /** What extract_relevant_information returns (None or the synthesis) or whether it raises. */
  function ExtractionResult(query: string, chunks: seq<string>, llm: Llm): (result: Outcome<Option<string>>)
    ensures result.Returned? ==> AllAnswered(query, chunks, llm)
    ensures result == Returned(None) <==> AllAnswered(query, chunks, llm) && KeptResponses(query, chunks, llm) == []
  {
    if !AllAnswered(query, chunks, llm) then Raised
    else
      var kept := KeptResponses(query, chunks, llm);
      if kept == [] then Returned(None)
      else match llm(SynthesisRequest(query, Join(" ", kept)))
        case Failed => Raised
        case Answer(document) => Returned(Some(document))
  }

  lemma KeptSnoc(query: string, chunks: seq<string>, i: nat, llm: Llm)
    requires i < |chunks|
    requires AllAnswered(query, chunks[..i + 1], llm)
    ensures AllAnswered(query, chunks[..i], llm)
    ensures var answer := llm(ExtractionRequest(query, chunks[i])).text;
      KeptResponses(query, chunks[..i + 1], llm)
        == KeptResponses(query, chunks[..i], llm) + (if HasContent(answer) then [answer] else [])
  {
    var answer := llm(ExtractionRequest(query, chunks[i])).text;
    assert chunks[..i + 1][..i] == chunks[..i];
    assert ChunkAnswers(query, chunks[..i + 1], llm) == ChunkAnswers(query, chunks[..i], llm) + [answer];
    FilterSnoc(ChunkAnswers(query, chunks[..i], llm), answer, HasContent);
  }

  /**
   * The loop over the chunks, then the synthesis call. `calls` lists the
   * prompts in the order they were sent: one per chunk up to the first that
   * raises, and the synthesis request only when some answer was kept.
   */
  method ExtractRelevantInformation(query: string, chunks: seq<string>, llm: Llm)
    returns (result: Outcome<Option<string>>, calls: seq<Prompt>)
    ensures result == ExtractionResult(query, chunks, llm)
    ensures forall j :: 0 <= j < |calls| && j < |chunks| ==> calls[j] == ExtractionRequest(query, chunks[j])
    ensures AllAnswered(query, chunks, llm) ==>
      var kept := KeptResponses(query, chunks, llm);
      && |calls| == |chunks| + (if kept == [] then 0 else 1)
      && (kept != [] ==> calls[|chunks|] == SynthesisRequest(query, Join(" ", kept)))
    ensures !AllAnswered(query, chunks, llm) ==>
      && 0 < |calls| <= |chunks|
      && llm(calls[|calls| - 1]).Failed?
      && forall j :: 0 <= j < |calls| - 1 ==> llm(calls[j]).Answer?
  {
    var relevant: seq<string> := [];
    calls := [];
    var i := 0;
    while i < |chunks|
      invariant 0 <= i <= |chunks|
      invariant |calls| == i
      invariant forall j :: 0 <= j < i ==> calls[j] == ExtractionRequest(query, chunks[j])
      invariant AllAnswered(query, chunks[..i], llm)
      invariant relevant == KeptResponses(query, chunks[..i], llm)
    {
      var prompt := ExtractionRequest(query, chunks[i]);
      var reply := llm(prompt);
      calls := calls + [prompt];
      if reply.Failed? {
        result := Raised;
        return;
      }
      KeptSnoc(query, chunks, i, llm);
      if HasContent(reply.text) {
        relevant := relevant + [reply.text];
      }
      i := i + 1;
    }
    assert chunks[..i] == chunks;
    if relevant == [] {
      result := Returned(None);
      return;
    }
    var prompt := SynthesisRequest(query, Join(" ", relevant));
    var reply := llm(prompt);
    calls := calls + [prompt];
    match reply {
      case Failed => result := Raised;
      case Answer(document) => result := Returned(Some(document));
    }
  }

  /** No document (None) iff every chunk was answered and every answer is whitespace only. */
  lemma NoneIffAllBlank(query: string, chunks: seq<string>, llm: Llm)
    ensures ExtractionResult(query, chunks, llm) == Returned(None) <==>
      forall j :: 0 <= j < |chunks| ==>
        var reply := llm(ExtractionRequest(query, chunks[j]));
        reply.Answer? && IsBlank(reply.text)
  {
    if AllAnswered(query, chunks, llm) {
      var answers := ChunkAnswers(query, chunks, llm);
      FilterEmptyIff(answers, HasContent);
      assert forall j :: 0 <= j < |chunks| ==> answers[j] == llm(ExtractionRequest(query, chunks[j])).text;
      forall j | 0 <= j < |chunks| ensures HasContent(answers[j]) <==> !IsBlank(answers[j]) {
        StripEmptyIffBlank(answers[j]);
      }
    }
  }

  /**
   * The kept responses are an order-preserving subsequence of the answers,
   * stored as answered (not stripped): the k-th kept response is the answer
   * to chunk idx[k], positions strictly increase, and an answer is kept iff
   * it is not whitespace only.
   */
  lemma KeptAreOrderedSubsequence(query: string, chunks: seq<string>, llm: Llm)
    requires AllAnswered(query, chunks, llm)
    ensures var kept := KeptResponses(query, chunks, llm);
      var idx := KeptPositions(ChunkAnswers(query, chunks, llm), HasContent);
      && |kept| == |idx|
      && StrictlyIncreasing(idx)
      && (forall k :: 0 <= k < |idx| ==>
            idx[k] < |chunks| && kept[k] == llm(ExtractionRequest(query, chunks[idx[k]])).text)
      && (forall j :: 0 <= j < |chunks| ==>
            (!IsBlank(llm(ExtractionRequest(query, chunks[j])).text) <==> j in idx))
  {
    var answers := ChunkAnswers(query, chunks, llm);
    FilterIsSubsequence(answers, HasContent);
    forall j | 0 <= j < |chunks| ensures HasContent(answers[j]) <==> !IsBlank(answers[j]) {
      StripEmptyIffBlank(answers[j]);
    }
  }

  /**
   * A document comes back iff every chunk was answered, some answer was
   * kept and the synthesis call answered; it is that answer unchanged, and
   * the synthesis prompt carries every kept response.
   */
  lemma DocumentIsSynthesis(query: string, chunks: seq<string>, llm: Llm)
    ensures ExtractionResult(query, chunks, llm).Returned? && ExtractionResult(query, chunks, llm).value.Some? <==>
      && AllAnswered(query, chunks, llm)
      && KeptResponses(query, chunks, llm) != []
      && llm(SynthesisRequest(query, Join(" ", KeptResponses(query, chunks, llm)))).Answer?
    ensures AllAnswered(query, chunks, llm) && KeptResponses(query, chunks, llm) != [] ==>
      var kept := KeptResponses(query, chunks, llm);
      var material := Join(" ", kept);
      && (forall k :: 0 <= k < |kept| ==> Contains(material, kept[k]))
      && (llm(SynthesisRequest(query, material)).Answer? ==>
            ExtractionResult(query, chunks, llm) == Returned(Some(llm(SynthesisRequest(query, material)).text)))
  {
    if AllAnswered(query, chunks, llm) && KeptResponses(query, chunks, llm) != [] {
      var kept := KeptResponses(query, chunks, llm);
      forall k | 0 <= k < |kept| ensures Contains(Join(" ", kept), kept[k]) {
        JoinContainsParts(" ", kept, k);
      }
    }
  }
}
