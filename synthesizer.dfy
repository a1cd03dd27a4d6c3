/** The answer synthesizer and orchestrator (`generateResponse`): the
    references are formatted into the system prompt of a second model call,
    and the model's text is returned together with those references. */
module Synthesizer {
  import opened Wrappers
  import opened Text
  import opened Types
  import opened SearchClient
  import opened Planner

  const NoResultsMarker: string := "No search results found."

  /** The fixed persona and instructions that open the system prompt. */
  const Persona: string := "You are ChatSKCET, A Bot made to help solve user queries related to SKCET. SKCET stands for Shree Krishna College of Engineering and Technology. It is located  in Kuniyamuthur, Coimbatore, Tamil Nadu, India. The campus spans over a beautiful 52-acre area. It offers various Undergraduate (UG) and Postgraduate (PG) courses. All programs are approved by AICTE and affiliated to Anna University. SKCET boasts state-of-the-art facilities including modern laboratories, a well-stocked library, smart classrooms, sports facilities, and separate hostels for boys and girls. Answer the user's query based on the data given to you. Return only plain text (No Markdown)."

  /** One reference as the prompt shows it. */
  function Entry(r: SearchResult): (e: string)
    ensures StartsWith(e, "URL: ")
  {
    var e := "URL: " + r.url + "\nTitle: " + r.title + "\nSnippet: " + r.snippet + "\n";
    assert e[..5] == "URL: ";
    e
  }

  function Entries(results: seq<SearchResult>): (es: seq<string>)
    ensures |es| == |results|
    ensures forall i :: 0 <= i < |results| ==> es[i] == Entry(results[i])
  {
    if results == [] then [] else [Entry(results[0])] + Entries(results[1..])
  }

  /** `Array.prototype.join`: the parts with `sep` between neighbours. */
  function Join(parts: seq<string>, sep: string): string
    decreases |parts|
  {
    if parts == [] then []
    else if |parts| == 1 then parts[0]
    else parts[0] + sep + Join(parts[1..], sep)
  }

  lemma JoinStartsWithFirst(parts: seq<string>, sep: string)
    requires parts != []
    ensures StartsWith(Join(parts, sep), parts[0])
  {
    if |parts| > 1 {
      assert (parts[0] + sep + Join(parts[1..], sep))[..|parts[0]|] == parts[0];
    }
  }

  /** Joining one more part adds a separator and that part at the end. */
  lemma {:induction false} JoinSnoc(parts: seq<string>, last: string, sep: string)
    requires parts != []
    ensures Join(parts + [last], sep) == Join(parts, sep) + sep + last
  {
    var all := parts + [last];
    assert all[0] == parts[0] && all[1..] == parts[1..] + [last];
    if |parts| > 1 {
      JoinSnoc(parts[1..], last, sep);
    } else {
      assert all[1..] == [last];
    }
  }

  /** Every part can be found in the joined text. */
  lemma {:induction false} JoinContainsPart(parts: seq<string>, sep: string, i: nat)
    requires i < |parts|
    ensures Contains(Join(parts, sep), parts[i])
  {
    if i == 0 {
      JoinStartsWithFirst(parts, sep);
      ContainsAt(Join(parts, sep), parts[0], 0);
    } else {
      JoinContainsPart(parts[1..], sep, i - 1);
      ContainsAfterPrefix(parts[0] + sep, Join(parts[1..], sep), parts[i]);
    }
  }

  /** The data block: the joined entries, or the marker when the join is
      empty, which happens exactly when there are no references. */
  function DataBlock(results: seq<SearchResult>): (block: string)
    ensures results == [] <==> block == NoResultsMarker
    ensures results != [] ==> StartsWith(block, "URL: ")
  {
    var joined := Join(Entries(results), "\n");
    assert results != [] ==> StartsWith(joined, "URL: ") && joined != NoResultsMarker by {
      if results != [] {
        JoinStartsWithFirst(Entries(results), "\n");
        assert joined[0] == 'U' && NoResultsMarker[0] == 'N';
      }
    }
    if joined == [] then NoResultsMarker else joined
  }

  /** One reference is shown as its entry alone. */
  lemma DataBlockSingle(r: SearchResult)
    ensures DataBlock([r]) == Entry(r)
  {
    assert Entries([r]) == [Entry(r)];
  }

  /** The block grows one entry at a time, in the order of the references. */
  lemma DataBlockAppend(results: seq<SearchResult>, r: SearchResult)
    requires results != []
    ensures DataBlock(results + [r]) == DataBlock(results) + "\n" + Entry(r)
  {
    assert Entries(results + [r]) == Entries(results) + [Entry(r)];
    JoinSnoc(Entries(results), Entry(r), "\n");
  }

  /** Every reference's entry appears in the block. */
  lemma DataBlockShowsAll(results: seq<SearchResult>, i: nat)
    requires i < |results|
    ensures Contains(DataBlock(results), Entry(results[i]))
  {
    JoinContainsPart(Entries(results), "\n", i);
  }

  /** The system message of the synthesis call. */
  function SystemPrompt(results: seq<SearchResult>): (prompt: string)
    ensures StartsWith(prompt, Persona)
    ensures results == [] ==> Contains(prompt, NoResultsMarker)
    ensures forall i :: 0 <= i < |results| ==> Contains(prompt, Entry(results[i]))
  {
    var head := Persona + "\n        \n        Data:\n        ";
    var prompt := head + DataBlock(results);
    assert prompt[..|Persona|] == Persona;
    forall i | 0 <= i < |results|
      ensures Contains(prompt, Entry(results[i]))
    {
      DataBlockShowsAll(results, i);
      ContainsAfterPrefix(head, DataBlock(results), Entry(results[i]));
    }
    assert results == [] ==> Contains(prompt, NoResultsMarker) by {
      if results == [] {
        ContainsAt(DataBlock(results), NoResultsMarker, 0);
        ContainsAfterPrefix(head, DataBlock(results), NoResultsMarker);
      }
    }
    prompt
  }

  /** The synthesis model's reply: the call threw, or it returned a message
      whose `content` may be absent. */
  datatype SynthesisReply = SynthesisCallFailed | SynthesisReplied(content: Option<string>)

  /** Why `generateResponse` raises. */
  datatype Error =
    | CompletionFailed  // the synthesis call itself threw
    | NoContent         // "We have encountered some problem."

  /** `generateResponse`: plan and search, then ask the synthesis model with
      the references in the system prompt and the query as the user turn. */
  method GenerateResponse(query: string, plannerModel: string -> PlannerReply,
                          parseArgs: string -> Option<string>, fetch: string -> FetchOutcome,
                          synthesisModel: (string, string) -> SynthesisReply)
    returns (r: Result<Response, Error>)
    ensures
      var references := PlannedResults(query, plannerModel, parseArgs, fetch);
      var reply := synthesisModel(SystemPrompt(references), query);
      && (r.Ok? <==> reply.SynthesisReplied? && reply.content.Some? && reply.content.value != [])
      && (r.Ok? ==> r.value == Response(reply.content.value, references))
      && (r.Err? ==> r.error == if reply.SynthesisCallFailed? then CompletionFailed else NoContent)
    ensures r.Ok? ==> r.value.content != [] && |r.value.references| <= ResultLimit
  {
    var references := GetSearchResults(query, plannerModel, parseArgs, fetch);
    var reply := synthesisModel(SystemPrompt(references), query);
    if reply.SynthesisCallFailed? {
      return Err(CompletionFailed);
    }
    var content := reply.content;
    if content.None? || content.value == [] {
      return Err(NoContent);
    }
    r := Ok(Response(content.value, references));
  }
}
