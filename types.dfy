/** The records the search pipeline passes around and returns to the UI. */
module Types {

  /** One search hit: an absolute url, a title and a snippet. */
  datatype SearchResult = SearchResult(url: string, title: string, snippet: string)

  /** What `generateResponse` hands back: the answer text and the results it
      was grounded on, in search order. */
  datatype Response = Response(content: string, references: seq<SearchResult>)
}
