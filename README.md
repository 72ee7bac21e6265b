# RAG-Basic ingestion pipeline, modelled in Dafny

This project models the ingestion half of RAG-Basic (`import.py`): for one search
query it picks article links from the search results page, visits the first five,
saves each page's paragraph text as a raw article, asks a language model whether the
article is relevant, and if so extracts the relevant material chunk by chunk and has
the model organise it into a processed article saved in a folder named after the
query.

The browser, the HTML parser, the text splitter and the language model are inputs:

- the model is a total function from `Prompt` to `Reply` (`Answer(text)` or `Failed`, the
  latter standing for an exception from `invoke`);
- the browser plus BeautifulSoup is a function from URL to `Fetch` (`Page(paragraphs)` or
  `FetchError`);
- the splitter is a function from text to its chunk list.

The file system is a map from `Path` to file text. The raw file of the link at 0-based
position i is `RawArticle(output_folder, i + 1)`, that is `article_{i+1}.txt`. Its processed
file is `ProcessedArticle(processed_folder, topic, i + 1)`, that is
`{topic}/processed_article_{i+1}.txt`. Python's exceptions are the `Outcome` datatype
(`Returned(v)` or `Raised`). The `except` around each link's visit is `LinkVisit`, which
returns the files written so far and an `Errored` report.

Modules: `Text`, `Selection` and `Oracle` support the others, and each of the rest renders one component of `import.py`:

- `Text`: the Python string operations used: `in`, `lower()`, `isalnum()`, `strip()` and
  `join`, plus `split` as the reference inverse of `join`.
- `Selection`: the order-preserving filter behind a list comprehension with an `if`.
- `LinkFilter`: `is_valid_article_link`, the `article_urls` comprehension and `[:5]`.
- `Sanitize`: `sanitize_filename`.
- `Oracle`: prompts, replies, `Option`, `Outcome`.
- `Relevance`: `check_relevance`.
- `Extraction`: `extract_relevant_information`. It is an imperative loop that also
  returns the prompts it sent, in order.
- `Pipeline`: the per-link loop of `scrape_articles`, as an imperative loop over the
  store.

Behaviour of the code worth noting:

- A failed model call while extracting one chunk raises out of `extract_relevant_information`.
  That ends the whole link's visit; the chunk is not treated as empty. The raw file stays
  written.
- A failed relevance call likewise ends the link's visit with the raw file written and no
  processed file.
- The kept chunk answers are joined with a single space for the synthesis prompt, not
  simply concatenated.
- A synthesis answer that is the empty string is falsy in `if relevant_content:`, so no
  processed file is written for it.

## Model

| member | source | states |
|---|---|---|
| `Text.ContainsIff` | import.py:94-96 | Python's `p in s` (the left-to-right scan) holds iff p occurs in s at some position |
| `Text.StripEmptyIffBlank` | import.py:146 | `s.strip()` is empty iff every character of s is Python whitespace |
| `Text.JoinContainsParts` | import.py:154 | every part is a substring of `sep.join(parts)` |
| `Text.SplitJoinRoundTrip` | import.py:61 | splitting the `"\n"`-join of a non-empty list of newline-free paragraphs on the newline gives that list back (non-empty, because a page with no paragraphs and a page with one empty paragraph give the same raw file) |
| `Selection.FilterIsSubsequence` | import.py:35-40 | a comprehension with `if` keeps exactly the satisfying elements, at strictly increasing positions, none skipped |
| `Selection.FilterEmptyIff` | import.py:150 | the kept list is empty iff no element satisfies the condition |
| `LinkFilter.IsValidArticleLink` | import.py:89-98 | `is_valid_article_link`: exclusions are tested first on the lower-cased URL, then "article" or "blog" on the URL as written; a valid link has no exclusion term and one of the two tokens |
| `LinkFilter.SelectArticleUrls` | import.py:35-40 | the `article_urls` comprehension: no more URLs than anchors, each the href of some anchor, non-empty, containing "http" and passing the filter |
| `LinkFilter.VisitedUrls` | import.py:53 | `article_urls[:5]`: a prefix of the selected URLs, of length min(5, n) |
| `LinkFilter.ExclusionWins` | import.py:90-95 | any exclusion term at any position of the lower-cased URL makes the link invalid, even when it contains "article" or "blog" |
| `LinkFilter.AcceptIff` | import.py:94-98 | with no exclusion term anywhere in the lower-cased URL, the link is valid iff "article" or "blog" occurs in the URL as written (case-sensitive) |
| `LinkFilter.UpperCaseHelpIsExcluded` | import.py:94-95 | "HELP" in a URL excludes it, even when "article" is also present |
| `LinkFilter.UpperCaseArticleIsNotAccepted` | import.py:96-98 | "ARTICLE" alone is not accepted |
| `LinkFilter.BlogLinkIsAccepted` | import.py:96-97 | "https://x.io/blog", which names a blog and holds no exclusion term, is accepted |
| `LinkFilter.SelectArticleUrlsExact` | import.py:35-40 | `article_urls` holds exactly the hrefs that are present, non-empty, contain "http" and pass the filter, in page order with duplicates kept |
| `LinkFilter.VisitedAreFirstAdmissible` | import.py:53 | at most 5 links are visited: the first min(5, n) admissible hrefs, each containing "http" and passing the filter |
| `Sanitize.ReplaceNonAlnum` | import.py:87 | the generator before `.lower()`: same length; a character is kept iff it is alphanumeric or already '_', and every other becomes '_' |
| `Sanitize.SanitizeFilename` | import.py:85-87 | the folder name has the query's length and only lower-case letters, digits and '_' |
| `Sanitize.SanitizeAt` | import.py:87 | position by position: lower-case letters and digits are kept, upper-case letters are lowered, everything else becomes '_' |
| `Sanitize.SanitizeFixedPoints` | import.py:87 | a name is unchanged by sanitising iff it already uses only the safe characters |
| `Sanitize.SanitizeIdempotent` | import.py:87 | sanitising twice equals sanitising once |
| `Sanitize.SanitizeConcat` | import.py:87 | sanitising works character by character: the folder of a concatenation is the concatenation of the folders |
| `Sanitize.FaqQueryFolder` | import.py:173-177 | the query "FAQs for IT clients" gets the topic folder "faqs_for_it_clients" |
| `Relevance.Excerpt` | import.py:110 | `content[:1000]`: a prefix of the content of exactly min(1000, length) characters, all of it when it is that short |
| `Relevance.IsAffirmative` | import.py:115 | the decision rule: true iff "yes" occurs at some position of the lower-cased answer |
| `Relevance.CheckRelevance` | import.py:100-115 | `check_relevance`: one question about the excerpt; it raises iff that call fails, otherwise the verdict is the decision rule on the answer |
| `Relevance.CheckRelevanceIff` | import.py:100-115 | one question is asked; the verdict is relevant iff "yes" occurs at some position of the lower-cased answer; a failed call raises |
| `Relevance.VerdictSeesOnlyExcerpt` | import.py:110 | two articles that agree on their first 1000 characters send the identical prompt and so get the same verdict |
| `Relevance.AppendedTextIsUnseen` | import.py:110 | text after the first 1000 characters never changes the verdict |
| `Relevance.AffirmativeIgnoresCase` | import.py:115 | the decision does not depend on the letter case of the answer |
| `Relevance.YesAnswerIsRelevant` | import.py:115 | "Yes, highly relevant" is judged relevant |
| `Relevance.NoAnswerIsNotRelevant` | import.py:115 | "No" is judged not relevant |
| `Relevance.HedgedNoIsRelevant` | import.py:115 | "No, not a definitive yes" is judged relevant: the permissive substring match |
| `Extraction.ExtractionResult` | import.py:117-166 | what `extract_relevant_information` returns: it returns only when every chunk call answered, and it returns None exactly when every call answered and no answer was kept |
| `Extraction.ExtractRelevantInformation` | import.py:117-166 | the loop returns the extraction result; the prompts sent are one per chunk in order, plus the synthesis request over the space-joined kept answers exactly when some answer was kept; on a failed call, the calls stop at the first failing prompt |
| `Extraction.NoneIffAllBlank` | import.py:145-166 | None is returned iff every chunk is answered and every answer is whitespace only |
| `Extraction.KeptAreOrderedSubsequence` | import.py:145-147 | the kept answers are an order-preserving subsequence of the chunk answers, stored unstripped, holding exactly the answers that are not whitespace only |
| `Extraction.DocumentIsSynthesis` | import.py:150-164 | a document is returned iff all chunks are answered, some answer is kept and the synthesis call answers; it is that answer unchanged, and the synthesis prompt contains every kept answer |
| `Pipeline.LinkVisit` | import.py:54-81 | one pass of the loop body with its `except`: the raw file is written iff the page was fetched, only this link's two files can be written, and the report says ProcessedSaved iff the processed file was written |
| `Pipeline.PageVisit` | import.py:61-77 | after the fetch: the raw file always holds the page text, only this link's two files can be written, and the report says ProcessedSaved iff the processed file was written |
| `Pipeline.ExtractedVisit` | import.py:69-77 | `if relevant_content:` after extraction: the processed file is added iff extraction returned a non-empty document; otherwise the files stay as they were |
| `Pipeline.RunWrites` | import.py:53-81 | the files written by visiting the links in order; every one is numbered between 1 and the number of links |
| `Pipeline.VisitLink` | import.py:54-81 | one link's try block: the store gains exactly the visit's writes, and the report says how the visit ended |
| `Pipeline.ScrapeArticles` | import.py:33-81 | the store afterwards is the old store plus exactly the files that the visits of the first five selected links write, in order; there is one report per visited link, at most five |
| `Pipeline.VisitInOrder` | import.py:53-81 | the loop over the links visits each in turn, numbered from 1: the store gains the files of every visit and the reports are the visits' reports in link order |
| `Pipeline.RunReportsAt` | import.py:53-81 | the report of the link at position i is that of its own visit, numbered i + 1, whatever the other links did |
| `Pipeline.LinkVisitWritesOwnFiles` | import.py:64-77 | a visit writes only its own link's raw file and its own link's processed file in the topic folder |
| `Pipeline.RunWritesOnlyArticleFiles` | import.py:53-81 | every path written is a raw or topic-folder processed file numbered 1 to the number of visited links; no other path changes |
| `Pipeline.RunWritesAt` | import.py:53-81 | the file numbered n depends only on the visit of link n: an exception on another link changes nothing about it |
| `Pipeline.RawArticleIff` | import.py:55-66 | `article_{i+1}.txt` is written iff the page was fetched, and it holds the newline-joined paragraphs, whatever the relevance check and extraction do afterwards |
| `Pipeline.ProcessedArticleIff` | import.py:69-77 | `processed_article_{i+1}.txt` in the topic folder is written iff the page was fetched, judged relevant and extraction returned a non-empty document; it holds that document |
| `Pipeline.ProcessedImpliesRaw` | import.py:63-77 | a processed file is only ever written alongside the raw file of the same link |

## Left out

- Selenium: the driver setup, the Google search, `time.sleep` and `driver.quit()` (import.py:17-31, 55-56, 83) are browser I/O. The search page's anchors are an input (`hrefs`, with `None` for an anchor without an `href`). Each visited page is `World.browse(url)`.
- BeautifulSoup parsing (import.py:57-60) is a foreign library. A page is the sequence of its paragraph texts; only the `"\n"` join is modelled.
- `RecursiveCharacterTextSplitter` (import.py:121-125) is library code. The chunk list is `World.split(content)`, and no size or overlap property is claimed for it.
- The exact prompt wording (import.py:102-113, 129-143, 151-161) is not modelled. Each `Prompt` records only the query and the text it embeds.
- The model and the browser are functions, so the same prompt always gets the same reply and the same URL the same page. A real model or site may answer differently on a second call.
- `os.makedirs` and the existence checks (import.py:42-50) are not modelled. File writes always succeed: an `open`/`write` error, which would end the link's visit (or, before the loop, the whole call), is not modelled.
- Failures before the loop (search page, link collection, folder creation) abort all of `scrape_articles`. They are not modelled because the link list is an input.
- The `print` messages are not modelled; the per-link `LinkReport` stands in for them.
- Sanitize.SanitizeFilename: `isalnum()` and `lower()` are modelled for ASCII only. A non-ASCII letter or digit becomes '_' in the model, whereas Python keeps it, lower-cased.
- Relevance.IsAffirmative: `response.lower()` is modelled for ASCII only. The verdict is unaffected: "yes" contains neither 'k' (the Kelvin sign's lower-case form) nor 'i' (from U+0130), the only ASCII letters a non-ASCII character lowers to.
- LinkFilter.IsValidArticleLink: `url.lower()` is modelled for ASCII only; non-ASCII characters are left as they are. The filter's verdict is unaffected: the only non-ASCII characters whose Unicode lower-case form holds ASCII are the Kelvin sign (lowered to 'k', which no exclusion term contains) and U+0130 (lowered to 'i' plus a combining dot, which cannot complete any term).
- `main` (import.py:168-177) is a driver that runs each query in turn. Only the topic folder of its last query is worked out here.
- index.py is an HTTP relay to the model, and rag.py is a retrieval chat loop over library code. Neither is part of this model.
