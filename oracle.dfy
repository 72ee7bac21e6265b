/**
 * The boundary to the language model and the shape of Python's
 * return-or-raise. The model (`OllamaLLM.invoke`) is a total function from
 * prompt to reply; the exact prompt wording is not part of the model, only
 * which text each prompt carries.
 */
module Oracle {

  datatype Option<T> = None | Some(value: T)

  /** A Python call that either returns a value or raises. */
  datatype Outcome<T> = Returned(value: T) | Raised

  /** The three prompts import.py builds, with the text each one embeds. */
  datatype Prompt =
    | RelevanceQuestion(query: string, excerpt: string)   // check_relevance
    | ExtractionRequest(query: string, chunk: string)     // one per chunk in extract_relevant_information
    | SynthesisRequest(query: string, material: string)   // the final organise-and-structure call

  /** What `llm.invoke(prompt)` does: answers with text, or raises. */
  datatype Reply = Answer(text: string) | Failed

  type Llm = Prompt -> Reply
}
