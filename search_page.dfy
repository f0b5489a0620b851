/**
  The search page: the answer and sources on screen, a loading flag and a
  "has searched" flag. Every search starts a fresh session; a follow-up continues
  it, keeping the sources on screen when it brings none. Each handler runs as one
  step; the service's reply is a parameter.
*/
module SearchPage {
  import opened Wrappers
  import opened Backend
  import Subfeed

  /** `searchParams.get("q") || ""`: the query in the address, "" when it is missing. */
  function QueryOf(q: Option<string>): (query: string)
    ensures Truthy(q) <==> query != ""
    ensures query != "" ==> query == q.value
  {
    Or(q, "")
  }

  class Page {
    var answer: string
    var sources: seq<Source>
    var isLoading: bool
    var hasSearched: bool
    /** The search client's module-level slot. */
    const api: Subfeed.Client

    constructor(api: Subfeed.Client)
      ensures this.api == api
      ensures answer == "" && sources == [] && !isLoading && !hasSearched
      ensures !IsEmpty()
    {
      this.api := api;
      answer := "";
      sources := [];
      isLoading := false;
      hasSearched := false;
    }

    /** `isEmpty`: a search has been made, nothing is loading, and there is neither an answer nor a source. */
    predicate IsEmpty()
      reads this
    {
      hasSearched && !isLoading && answer == "" && |sources| == 0
    }

    /**
      `performSearch`: the session is cleared before searching, so the search starts
      a new one. A success shows its answer and sources; a failure shows neither,
      and the page then reads as empty.
    */
    method PerformSearch(query: string, resp: Response)
      modifies this, api
      ensures hasSearched && !isLoading
      ensures var o := Subfeed.SearchStep(Null, query, resp);
        api.sent == old(api.sent) + [Subfeed.SearchRequest(query)] && api.currentSessionId == o.tracked &&
        if o.result.Ok? then answer == o.result.value.answer && sources == o.result.value.results
        else answer == "" && sources == []
      ensures Fails(resp) ==> IsEmpty() && api.currentSessionId == Null
      ensures !Fails(resp) ==> (IsEmpty() <==> Or(resp.answer, "") == "" && OrEmpty(resp.results) == [])
    {
      isLoading := true;
      hasSearched := true;
      api.ClearHistory();
      var r := api.Search(query, resp);
      if r.Ok? {
        answer := r.value.answer;
        sources := r.value.results;
      } else {
        answer := "";
        sources := [];
      }
      isLoading := false;
    }

    /**
      `handleFollowUp`: a success always replaces the answer, but replaces the sources
      only when it brings at least one; a failure, including a refusal for want of a
      session, changes neither.
    */
    method HandleFollowUp(message: string, resp: Response)
      modifies this, api
      ensures !isLoading && hasSearched == old(hasSearched)
      ensures var o := Subfeed.FollowUpStep(old(api.currentSessionId), message, None, resp);
        api.currentSessionId == o.tracked &&
        api.sent == old(api.sent) + (if o.request.Some? then [o.request.value] else []) &&
        if o.result.Ok? then
          answer == o.result.value.answer &&
          sources == (if |o.result.value.results| > 0 then o.result.value.results else old(sources))
        else answer == old(answer) && sources == old(sources)
    {
      isLoading := true;
      var r := api.FollowUp(message, None, resp);
      if r.Ok? {
        answer := r.value.answer;
        if |r.value.results| > 0 {
          sources := r.value.results;
        }
      }
      isLoading := false;
    }

    /**
      `handleRetry`, and the effect run when the address changes: a search runs
      exactly when the query is non-empty; otherwise nothing changes.
    */
    method HandleRetry(q: Option<string>, resp: Response)
      modifies this, api
      ensures QueryOf(q) != "" ==>
        hasSearched && !isLoading &&
        api.sent == old(api.sent) + [Subfeed.SearchRequest(QueryOf(q))] &&
        var o := Subfeed.SearchStep(Null, QueryOf(q), resp);
        api.currentSessionId == o.tracked &&
        if o.result.Ok? then answer == o.result.value.answer && sources == o.result.value.results
        else answer == "" && sources == []
      ensures QueryOf(q) == "" ==>
        answer == old(answer) && sources == old(sources) && isLoading == old(isLoading) &&
        hasSearched == old(hasSearched) && api.sent == old(api.sent) &&
        api.currentSessionId == old(api.currentSessionId)
    {
      var query := QueryOf(q);
      if query != "" {
        PerformSearch(query, resp);
      }
    }
  }

  /**
    A search that fails leaves no session, since the page cleared it first, so the
    follow-up after it is refused without a call to the service.
  */
  lemma FailedSearchRefusesFollowUp(query: string, r1: Response, message: string, r2: Response)
    requires Fails(r1)
    ensures var t := Subfeed.SearchStep(Null, query, r1).tracked;
      Subfeed.FollowUpStep(t, message, None, r2) == Subfeed.Outcome(None, Null, Err(Subfeed.NoSession))
  {
  }
}
