/** The tool-call planner (`getSearchResults`): the planning model may ask for
    one search through the `skcet_web_search` tool; anything else, and any
    failure on the way, means no references. */
module Planner {
  import opened Wrappers
  import opened Types
  import opened Extractor
  import opened SearchClient

  const ToolName: string := "skcet_web_search"

  /** One entry of `message.tool_calls`: the function name and its raw JSON
      argument text. */
  datatype ToolCall = ToolCall(name: string, arguments: string)

  /** The planning model's answer to the user query: the call threw, or it
      returned a message whose `tool_calls` may be absent. */
  datatype PlannerReply = PlannerCallFailed | PlannerReplied(toolCalls: Option<seq<ToolCall>>)

  /** The decision taken on the reply, as a tagged outcome. */
  datatype PlannerOutcome =
    | PlannerFailed
    | NoSearchRequested
    | InvalidToolCall
    | SearchRequested(arguments: string)

  /** Only the first tool call is looked at, and only an exact name match
      leads to a search. */
  function Decide(reply: PlannerReply): (o: PlannerOutcome)
    ensures o.SearchRequested? <==>
      reply.PlannerReplied? && reply.toolCalls.Some? && |reply.toolCalls.value| > 0
      && reply.toolCalls.value[0].name == ToolName
    ensures o.SearchRequested? ==> o.arguments == reply.toolCalls.value[0].arguments
    ensures o.NoSearchRequested? <==>
      reply.PlannerReplied? && (reply.toolCalls.None? || reply.toolCalls.value == [])
    ensures o.PlannerFailed? <==> reply.PlannerCallFailed?
  {
    match reply
    case PlannerCallFailed => PlannerFailed
    case PlannerReplied(toolCalls) =>
      if toolCalls.None? || |toolCalls.value| == 0 then NoSearchRequested
      else if toolCalls.value[0].name != ToolName then InvalidToolCall
      else SearchRequested(toolCalls.value[0].arguments)
  }

  /** The references the planner step produces for a user query; the error
      the search client raises is caught here and becomes `[]`. */
  function PlannedResults(query: string, plannerModel: string -> PlannerReply,
                          parseArgs: string -> Option<string>,
                          fetch: string -> FetchOutcome): seq<SearchResult>
  {
    match Decide(plannerModel(query))
    case SearchRequested(arguments) =>
      (match QueryResults(arguments, parseArgs, fetch)
       case Ok(results) => results
       case Err(_) => [])
    case _ => []
  }

  /** `getSearchResults`. A search happens only when the first tool call is
      `skcet_web_search`; every other reply and every failure, including the
      error raised for unparseable arguments, yields `[]`,
      and a non-empty result comes from one successful fetch of the url built
      from the call's parsed argument. */
  method GetSearchResults(query: string, plannerModel: string -> PlannerReply,
                          parseArgs: string -> Option<string>, fetch: string -> FetchOutcome)
    returns (results: seq<SearchResult>)
    ensures results == PlannedResults(query, plannerModel, parseArgs, fetch)
    ensures !Decide(plannerModel(query)).SearchRequested? ==> results == []
    ensures results != [] ==>
      && Decide(plannerModel(query)).SearchRequested?
      && var arguments := Decide(plannerModel(query)).arguments;
      && parseArgs(arguments).Some?
      && var outcome := fetch(SearchUrl(parseArgs(arguments).value));
      && outcome.Fetched? && IsOk(outcome.status)
      && results == Extract(outcome.page, ResultLimit)
    ensures |results| <= ResultLimit
    ensures forall k :: 0 <= k < |results| ==> Admissible(results[k])
  {
    var outcome := Decide(plannerModel(query));
    match outcome {
      case SearchRequested(arguments) =>
        var searched := GetSearchResultsFromQuery(arguments, parseArgs, fetch);
        results := if searched.Ok? then searched.value else [];
      case _ =>
        results := [];
    }
  }
}
