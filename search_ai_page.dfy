/**
  The second search page: the whole search response on screen (or none), a
  loading flag for searches and one for follow-ups, and a `hasSearched` reference
  that lets the address effect search only once per query. Unlike the first
  search page, a search here does not clear the session itself; the handlers that
  start a new search do. Each handler runs as one step; the reply is a parameter.
*/
module SearchAIPage {
  import opened Wrappers
  import opened Backend
  import Subfeed

  class Page {
    var searchResult: Option<Subfeed.SearchResponse>
    var isLoading: bool
    var followUpLoading: bool
    /** The `hasSearched` reference: not state that renders, but updated in place all the same. */
    var hasSearched: bool
    /** The search client's module-level slot. */
    const api: Subfeed.Client

    constructor(api: Subfeed.Client)
      ensures this.api == api
      ensures searchResult == None && !isLoading && !followUpLoading && !hasSearched
    {
      this.api := api;
      searchResult := None;
      isLoading := false;
      followUpLoading := false;
      hasSearched := false;
    }

    /**
      `performSearch`: the old result goes before the call; a success shows the new
      one and a failure leaves none. The session is not cleared first.
    */
    method PerformSearch(query: string, resp: Response)
      modifies this, api
      ensures !isLoading && followUpLoading == old(followUpLoading) && hasSearched == old(hasSearched)
      ensures var o := Subfeed.SearchStep(old(api.currentSessionId), query, resp);
        api.sent == old(api.sent) + [Subfeed.SearchRequest(query)] && api.currentSessionId == o.tracked &&
        searchResult == (if o.result.Ok? then Some(o.result.value) else None)
    {
      isLoading := true;
      searchResult := None;
      var r := api.Search(query, resp);
      if r.Ok? {
        searchResult := Some(r.value);
      }
      isLoading := false;
    }

    /**
      The effect run when the address changes. With a non-empty query not yet
      searched, exactly one search runs and the query counts as searched; with a
      query already searched, nothing happens; without a query, the flag resets and
      the result goes.
    */
    method QueryChanged(query: Option<string>, resp: Response)
      modifies this, api
      ensures Truthy(query) && !old(hasSearched) ==>
        hasSearched && !isLoading && followUpLoading == old(followUpLoading) &&
        api.sent == old(api.sent) + [Subfeed.SearchRequest(query.value)] &&
        var o := Subfeed.SearchStep(old(api.currentSessionId), query.value, resp);
        api.currentSessionId == o.tracked && searchResult == (if o.result.Ok? then Some(o.result.value) else None)
      ensures Truthy(query) && old(hasSearched) ==>
        hasSearched && searchResult == old(searchResult) && isLoading == old(isLoading) &&
        followUpLoading == old(followUpLoading) &&
        api.sent == old(api.sent) && api.currentSessionId == old(api.currentSessionId)
      ensures !Truthy(query) ==>
        !hasSearched && searchResult == None && isLoading == old(isLoading) &&
        followUpLoading == old(followUpLoading) &&
        api.sent == old(api.sent) && api.currentSessionId == old(api.currentSessionId)
    {
      if Truthy(query) && !hasSearched {
        PerformSearch(query.value, resp);
        hasSearched := true;
      } else if !Truthy(query) {
        hasSearched := false;
        searchResult := None;
      }
    }

    /** `handleSearch`: the next address change searches again, in a new session; the navigation itself is not modelled. */
    method HandleSearch()
      modifies this, api
      ensures !hasSearched && api.currentSessionId == Null && api.sent == old(api.sent)
      ensures searchResult == old(searchResult) && isLoading == old(isLoading) && followUpLoading == old(followUpLoading)
    {
      hasSearched := false;
      api.ClearHistory();
    }

    /**
      `handleFollowUp`: a success replaces the whole result, an empty source list
      included; a failure, including a refusal for want of a session, leaves it.
    */
    method HandleFollowUp(message: string, resp: Response)
      modifies this, api
      ensures !followUpLoading && isLoading == old(isLoading) && hasSearched == old(hasSearched)
      ensures var o := Subfeed.FollowUpStep(old(api.currentSessionId), message, None, resp);
        api.currentSessionId == o.tracked &&
        api.sent == old(api.sent) + (if o.request.Some? then [o.request.value] else []) &&
        searchResult == (if o.result.Ok? then Some(o.result.value) else old(searchResult))
    {
      followUpLoading := true;
      var r := api.FollowUp(message, None, resp);
      if r.Ok? {
        searchResult := Some(r.value);
      }
      followUpLoading := false;
    }

    /** `handleNewSearch`: the session is cleared; the navigation home is not modelled. */
    method HandleNewSearch()
      modifies api
      ensures api.currentSessionId == Null && api.sent == old(api.sent)
    {
      api.ClearHistory();
    }
  }

  /**
    This page's search does not clear the session, so after a failed search a
    follow-up still goes to the session tracked before it; on the first search
    page it would be refused.
  */
  lemma FailedSearchKeepsOldSession(tracked: JsString, query: string, r1: Response, message: string, r2: Response)
    requires Fails(r1) && Truthy(Present(tracked))
    ensures Subfeed.FollowUpStep(Subfeed.SearchStep(tracked, query, r1).tracked, message, None, r2).request ==
      Some(Subfeed.FollowUpRequest(message, tracked.value))
  {
  }
}
