# ChatSKCET search augmentation, modelled in Dafny

ChatSKCET answers questions about one college (SKCET). Before it answers, it may search the
college's site. `generateResponse` works in three steps:

1. It asks a planning model whether to search. The model can call one tool, `skcet_web_search`.
2. If the tool was called, it fetches a DuckDuckGo HTML results page for
   `<query> site:skcet.ac.in` and extracts at most five results on that domain.
3. It puts those results into the system prompt of a second model call. It returns that
   model's text together with the results as `references`.

Every failure before the second model call turns into an empty reference list. Empty or
missing content from the second call is an error.

This project models that pipeline. The models, the HTTP fetch and `JSON.parse` become
function-typed parameters. The HTML page arrives as its sequence of result containers.

| file | module | models |
|---|---|---|
| `wrappers.dfy` | `Wrappers` | `Option` and `Result`, for `undefined` and for thrown errors |
| `text.dfy` | `Text` | `trim`, `includes`, `startsWith` on strings |
| `types.dfy` | `Types` | `SearchResult` and `Response` (`src/app/types.ts`) |
| `extractor.dfy` | `Extractor` | `parseSearchResults` |
| `uri_encoding.dfy` | `UriEncoding` | `encodeURIComponent`: UTF-8 (RFC 3629) and `%XX` triplets (section 2.1 of RFC 3986), with a decoder for its output |
| `search_client.dfy` | `SearchClient` | the search url and `getSearchResultsFromQuery` |
| `planner.dfy` | `Planner` | the tool-call checks of `getSearchResults` |
| `synthesizer.dfy` | `Synthesizer` | the prompt data block and `generateResponse` |

`parseSearchResults` is a method. Like the source, it loops over the containers, appends
each admitted result to a local sequence, then slices. It is proved equal to `Extract`,
which is defined from the per-container function `Admit`. The pipeline steps are methods
whose results are tied to the functions `QueryResults` and `PlannedResults`. Those
functions are the ones the lemmas talk about.

The model keeps these details of the code:

- The url test is a literal `startsWith('http')`, not a scheme check. `httpfoo.skcet.ac.in`
  is kept as it is, and `ftp://skcet.ac.in` becomes `https://ftp://skcet.ac.in`.
- The domain test runs on the trimmed raw url, before `https://` is added.
  `NormalizeUrl` proves that adding the prefix keeps the domain.
- A container without a url element is skipped too, not only one without a title or snippet.
- The synthesis call itself can throw, so `generateResponse` raises in two ways: the
  `CompletionFailed` error and the "no content" error `NoContent`.
- An unparseable tool argument makes `getSearchResultsFromQuery` raise, because the parse
  comes before its `try`. Only the `catch` in `getSearchResults` turns that into `[]`.
- If the tool arguments parse but have no `query` field, the source searches for
  `undefined site:skcet.ac.in`. `parseArgs` returns the text form of `.query`, so this
  case is covered.

## Model

| member | source | states |
|---|---|---|
| `Text.TrimStart` | src/app/ai.tsx:96-98 | the result is a suffix of the input, what was removed is all white space, and the result does not start with white space |
| `Text.TrimEnd` | src/app/ai.tsx:96-98 | the result is a prefix of the input, what was removed is all white space, and the result does not end with white space |
| `Text.Trim` | src/app/ai.tsx:96-98 | `trim` gives a contiguous middle of the input with no white space at either end, and only white space is cut off on each side |
| `Text.TrimUnique` | src/app/ai.tsx:96-98 | for any split of a string into white space, a trimmed middle and white space, that middle is what `trim` returns |
| `Text.TrimIdempotent` | src/app/ai.tsx:96-98 | trimming a trimmed text changes nothing |
| `Text.ContainsAt` | src/app/ai.tsx:100 | an occurrence at any position makes `includes` true |
| `Text.ContainsOnlyIf` | src/app/ai.tsx:100 | `includes` is true only when the text occurs at some position (with `ContainsAt`, both directions of the position-based reading) |
| `Text.ContainsAfterPrefix` | src/app/ai.tsx:100-102 | putting text in front of a string keeps every substring `includes` found in it |
| `Extractor.NormalizeUrl` | src/app/ai.tsx:102 | every normalised url starts with `http`, and it contains the domain if the raw url did |
| `Extractor.NormalizeUrlCases` | src/app/ai.tsx:102 | text starting with `http` is returned unchanged; any other text becomes `https://` + text |
| `Extractor.Admit` | src/app/ai.tsx:91-106 | a container with a missing url, title or snippet element yields nothing; an admitted result has trimmed non-empty title and snippet taken from the container, a url that contains `skcet.ac.in` and starts with `http`, and that url is the normalised trimmed raw url |
| `Extractor.AdmitExactly` | src/app/ai.tsx:95-100 | a container is admitted if and only if all three elements exist, all three trimmed texts are non-empty and the trimmed url contains `skcet.ac.in` |
| `Extractor.Kept` | src/app/ai.tsx:89-108 | the pushed results number at most the containers, and each of them is admissible |
| `Extractor.KeptAppend` | src/app/ai.tsx:89-108 | the results of a concatenated page are the results of its parts, concatenated in document order |
| `Extractor.SkippedContributesNothing` | src/app/ai.tsx:95-107 | removing a container that is not admitted (for example, one without a title or snippet element) from anywhere in the page does not change the results |
| `Extractor.KeptFromPage` | src/app/ai.tsx:100-105 | every pushed result is the admitted form of some container of the page |
| `Extractor.SliceTo` | src/app/ai.tsx:110 | `slice(0, n)` is a prefix of length `min(n, len)` for `n >= 0`, or of length `max(len + n, 0)` for negative `n` |
| `Extractor.ExtractBounds` | src/app/ai.tsx:110 | the output has at most `n` results (for `n >= 0`) and no more than the containers; every result is admissible; the output is a prefix of the kept results in document order |
| `Extractor.ExtractNothing` | src/app/ai.tsx:87-110 | a page with no admissible container (including an empty page) yields the empty list and does not fail |
| `Extractor.ParseSearchResults` | src/app/ai.tsx:82-111 | the loop-and-slice method returns exactly `Extract(page, n)`: at most `n` admissible results |
| `UriEncoding.DecodeFirst` | src/app/ai.tsx:59 | decoding one code point consumes between 1 and the available number of bytes |
| `UriEncoding.DecodeFirstOfChar` | src/app/ai.tsx:59 | the UTF-8 bytes of any code point decode back to it, whatever follows them |
| `UriEncoding.Utf8RoundTrip` | src/app/ai.tsx:59 | UTF-8 decoding inverts UTF-8 encoding for every string |
| `UriEncoding.HexDigitValue` | src/app/ai.tsx:59 | each upper-case hex digit written for a nibble reads back as that nibble |
| `UriEncoding.PercentRoundTrip` | src/app/ai.tsx:59 | percent-decoding inverts percent-encoding for every byte sequence |
| `UriEncoding.EncodeRoundTrip` | src/app/ai.tsx:59 | decoding `encodeURIComponent(s)` gives `s` back |
| `UriEncoding.EncodeInjective` | src/app/ai.tsx:59 | distinct strings have distinct encodings |
| `UriEncoding.PercentEncodeForm` | src/app/ai.tsx:59 | percent-encoding any bytes gives only unreserved characters and upper-case `%XX` triplets |
| `UriEncoding.EncodeForm` | src/app/ai.tsx:59 | the output of `encodeURIComponent` consists only of unreserved characters and upper-case `%XX` triplets |
| `UriEncoding.UnreservedUnchanged` | src/app/ai.tsx:59 | a string made only of letters, digits and `-_.!~*'()` is its own encoding |
| `SearchClient.SearchUrl` | src/app/ai.tsx:58-60 | the fetched url starts with `https://html.duckduckgo.com/html/?q=`; the rest contains only unreserved characters and `%XX` triplets, and decodes to `query + " site:skcet.ac.in"` |
| `SearchClient.SearchUrlInjective` | src/app/ai.tsx:58-60 | different queries are fetched from different urls |
| `SearchClient.GetSearchResultsFromQuery` | src/app/ai.tsx:54-80 | it raises an error exactly when the argument does not parse, since that happens before the `try`; otherwise a thrown fetch or a non-2xx status gives `[]` and a 2xx page gives `Extract(page, 5)`: at most 5 admissible results |
| `Planner.Decide` | src/app/ai.tsx:40-47 | a search is requested if and only if the call succeeded, `tool_calls` is present and non-empty, and the first call's name is exactly `skcet_web_search`, and then with that call's arguments; "no search" if and only if `tool_calls` is absent or empty; "failed" if and only if the call threw |
| `Planner.GetSearchResults` | src/app/ai.tsx:7-52 | any reply other than a valid first tool call, and the search client's parse error, gives `[]`; a non-empty result comes only from a valid tool call with parseable arguments and a 2xx fetch of `SearchUrl` of the parsed query, and equals the extraction of that page; at most 5 admissible results |
| `Synthesizer.Entry` | src/app/ai.tsx:129 | each reference's entry starts with `URL: ` |
| `Synthesizer.Entries` | src/app/ai.tsx:129 | the mapped entries correspond one to one, in order, with the references |
| `Synthesizer.JoinStartsWithFirst` | src/app/ai.tsx:129 | a join of one or more parts starts with the first part |
| `Synthesizer.JoinSnoc` | src/app/ai.tsx:129 | joining one more part appends the separator and that part |
| `Synthesizer.JoinContainsPart` | src/app/ai.tsx:129 | every part occurs in the join |
| `Synthesizer.DataBlock` | src/app/ai.tsx:129 | the block is `No search results found.` if and only if there are no references; otherwise it starts with `URL: ` (so the fallback never fires for a non-empty list) |
| `Synthesizer.DataBlockSingle` | src/app/ai.tsx:129 | one reference is shown as its entry alone |
| `Synthesizer.DataBlockAppend` | src/app/ai.tsx:129 | adding a reference adds `\n` and its entry at the end of the block |
| `Synthesizer.DataBlockShowsAll` | src/app/ai.tsx:129 | every reference's entry occurs in the block |
| `Synthesizer.SystemPrompt` | src/app/ai.tsx:126-129 | the system prompt starts with the fixed persona text; it contains every reference's entry, and the no-results marker when there are no references |
| `Synthesizer.GenerateResponse` | src/app/ai.tsx:113-149 | success if and only if the synthesis model, given `SystemPrompt(references)` and the query, returns non-empty content; on success `references` are exactly the planner's results (same elements, same order) and `content` is that non-empty text; otherwise the error is `CompletionFailed` when the call threw and `NoContent` when content was absent or empty |

## Left out

- The DOM parse by node-html-parser and the selectors `.result__body`, `.result__url`,
  `.result__title a` and `.result__snippet` are not modelled. A page arrives as its
  containers, with `None` where a selector matched nothing.
- The two chat-completion calls (model names, temperatures, the tool's JSON schema,
  `tool_choice`, the Groq base url and `GROQ_API_KEY`) are left out. They are foreign I/O,
  so the model takes the planner reply and the synthesis reply as functions of their inputs.
- `fetch` is left out, as foreign I/O. The User-Agent header, `response.text()` and
  `console.error` go with it. `fetch` is a function from url to outcome, and a thrown
  error or an unreadable body is `FetchFailed`.
- `JSON.parse(arguments).query` is a parameter returning the text form of the field. There
  is no JSON parser here.
- Text.IsWhitespace: covers only the common white-space and line-terminator characters
  (space, tab, line feed, carriage return, vertical tab, form feed, NBSP, BOM, U+2028,
  U+2029). It leaves out the other Unicode space separators that `trim` also removes.
- UriEncoding.EncodeUriComponent: does not model lone UTF-16 surrogates, which make
  `encodeURIComponent` throw `URIError`. A Dafny `char` is a Unicode scalar value, so it
  cannot hold one. If one occurred, `getSearchResults` would catch the error and return `[]`.
- UriEncoding.DecodeUriComponent: is a decoder for `encodeURIComponent` output and is
  stricter than ECMAScript `decodeURIComponent`. It rejects raw non-ASCII characters.
- Extractor.ParseSearchResults: takes an integer `n`. A fractional or NaN `n` is not
  modelled; the only caller passes 5.
- `src/app/page.tsx` (the React chat UI), `st_app.py` (a separate Streamlit front end) and
  the `Message` type of `src/app/types.ts` are not part of this model. They are UI and
  wrappers with no logic of the pipeline.
