/**
  The search client: one module-level slot holding the id of the search session
  the service keeps, set by a search, carried into follow-ups, and cleared when a
  fresh search starts. Each call to the service is logged as a request, so "no
  call is made" can be stated; the service's reply is a parameter.
*/
module Subfeed {
  import opened Wrappers
  import opened Backend

  /** A call to the service: a new search, or a follow-up in a session. */
  datatype Request =
    | SearchRequest(query: string)
    | FollowUpRequest(message: string, sessionId: string)

  /** What `search` and `followUp` resolve to. */
  datatype SearchResponse = SearchResponse(answer: string, results: seq<Source>, sessionId: JsString)

  /** The error thrown by `followUp` when no session id resolves. */
  const NoSession := "No active search session. Please perform a search first."

  /** One raw result as the search client keeps it. */
  function Normalize(r: RawSource): (s: Source)
    ensures s.title != ""
    ensures Truthy(r.title) ==> s.title == r.title.value
    ensures Truthy(r.url) ==> s.url == r.url.value
    ensures !Truthy(r.url) ==> s.url == Or(r.link, "")
    ensures Truthy(r.snippet) ==> s.snippet == r.snippet.value
    ensures !Truthy(r.snippet) && Truthy(r.description) ==> s.snippet == r.description.value
    ensures !Truthy(r.snippet) && !Truthy(r.description) ==> s.snippet == Or(r.content, "")
  {
    Source(Or(r.title, "Untitled"), Or(r.url, Or(r.link, "")), Or(r.snippet, Or(r.description, Or(r.content, ""))))
  }

  /** The `.map` over the raw results: one source per raw result, in the same order. */
  function NormalizeAll(raw: seq<RawSource>): (r: seq<Source>)
    ensures |r| == |raw|
    ensures forall i :: 0 <= i < |raw| ==> r[i] == Normalize(raw[i])
  {
    if raw == [] then [] else [Normalize(raw[0])] + NormalizeAll(raw[1..])
  }

  /** The resolved response of a call that did not fail. */
  function Resolved(resp: Response, sessionId: JsString): (r: SearchResponse)
    requires !Fails(resp)
    ensures r.answer == Or(resp.answer, "")
    ensures r.results == NormalizeAll(OrEmpty(resp.results))
    ensures r.sessionId == sessionId
  {
    SearchResponse(Or(resp.answer, ""), NormalizeAll(OrEmpty(resp.results)), sessionId)
  }

  /** `sessionId || currentSessionId`, when it is truthy: the id a follow-up is sent with. */
  function ActiveId(sessionId: Option<string>, tracked: JsString): (r: Option<string>)
    ensures r.Some? ==> r.value != ""
    ensures Truthy(sessionId) ==> r == sessionId
    ensures !Truthy(sessionId) ==> (r.Some? <==> Truthy(Present(tracked)))
    ensures !Truthy(sessionId) && r.Some? ==> r == Present(tracked)
  {
    if Truthy(sessionId) then sessionId else if Truthy(Present(tracked)) then Present(tracked) else None
  }

  /** `hasActiveSession` of a slot value: anything but `null`, so `undefined` counts as active. */
  predicate HasActive(tracked: JsString) {
    tracked != Null
  }

  /** What one call did: the request it sent, if any, the slot afterwards, and what it resolved to or threw. */
  datatype Outcome = Outcome(request: Option<Request>, tracked: JsString, result: Result<SearchResponse>)

  /**
    `search`: always calls the service. A failure throws and keeps the slot; a
    success stores the reply's `session_id` as it is, even when it is missing.
  */
  function SearchStep(tracked: JsString, query: string, resp: Response): (o: Outcome)
    ensures o.request == Some(SearchRequest(query))
    ensures Fails(resp) ==> o.tracked == tracked && o.result == Err(FailureMessage(resp, "Search failed"))
    ensures !Fails(resp) ==> o.tracked == resp.sessionId && o.result.Ok?
    ensures !Fails(resp) ==> o.result.value == Resolved(resp, resp.sessionId)
  {
    if Fails(resp) then Outcome(Some(SearchRequest(query)), tracked, Err(FailureMessage(resp, "Search failed")))
    else Outcome(Some(SearchRequest(query)), resp.sessionId, Ok(Resolved(resp, resp.sessionId)))
  }

  /**
    `followUp`: without an id to send it throws before any call; otherwise it calls
    the service with the explicit id if truthy, else the tracked one. A failure throws
    and keeps the slot; a success tracks and returns the reply's id, or the id sent.
  */
  function FollowUpStep(tracked: JsString, message: string, sessionId: Option<string>, resp: Response): (o: Outcome)
    ensures ActiveId(sessionId, tracked).None? ==> o == Outcome(None, tracked, Err(NoSession))
    ensures ActiveId(sessionId, tracked).Some? ==>
      o.request == Some(FollowUpRequest(message, ActiveId(sessionId, tracked).value))
    ensures ActiveId(sessionId, tracked).Some? && Fails(resp) ==>
      o.tracked == tracked && o.result == Err(FailureMessage(resp, "Follow-up failed"))
    ensures ActiveId(sessionId, tracked).Some? && !Fails(resp) ==>
      o.tracked == Str(Or(Present(resp.sessionId), ActiveId(sessionId, tracked).value)) &&
      o.result == Ok(Resolved(resp, o.tracked))
  {
    match ActiveId(sessionId, tracked)
    case None => Outcome(None, tracked, Err(NoSession))
    case Some(active) =>
      if Fails(resp) then Outcome(Some(FollowUpRequest(message, active)), tracked, Err(FailureMessage(resp, "Follow-up failed")))
      else
        var id := Str(Or(Present(resp.sessionId), active));
        Outcome(Some(FollowUpRequest(message, active)), id, Ok(Resolved(resp, id)))
  }

  /** The module's state: the tracked session id, and the calls made so far. */
  class Client {
    var currentSessionId: JsString
    var sent: seq<Request>

    /** The module as loaded: no session, no call. */
    constructor()
      ensures currentSessionId == Null && sent == []
    {
      currentSessionId := Null;
      sent := [];
    }

    method Search(query: string, resp: Response) returns (r: Result<SearchResponse>)
      modifies this
      ensures var o := SearchStep(old(currentSessionId), query, resp);
        r == o.result && currentSessionId == o.tracked && sent == old(sent) + [o.request.value]
    {
      sent := sent + [SearchRequest(query)];
      if Fails(resp) {
        return Err(FailureMessage(resp, "Search failed"));
      }
      currentSessionId := resp.sessionId;
      r := Ok(Resolved(resp, resp.sessionId));
    }

    method FollowUp(message: string, sessionId: Option<string>, resp: Response) returns (r: Result<SearchResponse>)
      modifies this
      ensures var o := FollowUpStep(old(currentSessionId), message, sessionId, resp);
        r == o.result && currentSessionId == o.tracked &&
        sent == old(sent) + (if o.request.Some? then [o.request.value] else [])
    {
      var active := ActiveId(sessionId, currentSessionId);
      if active.None? {
        return Err(NoSession);
      }
      sent := sent + [FollowUpRequest(message, active.value)];
      if Fails(resp) {
        return Err(FailureMessage(resp, "Follow-up failed"));
      }
      currentSessionId := Str(Or(Present(resp.sessionId), active.value));
      r := Ok(Resolved(resp, currentSessionId));
    }

    method ClearHistory()
      modifies this
      ensures currentSessionId == Null && !HasActive(currentSessionId) && sent == old(sent)
    {
      currentSessionId := Null;
    }

    function HasActiveSession(): (b: bool)
      reads this
      ensures b <==> currentSessionId != Null
    {
      HasActive(currentSessionId)
    }
  }

  /** After `clearHistory`, a follow-up without an explicit id throws the no-session error and calls nothing. */
  lemma ClearedRefusesFollowUp(message: string, resp: Response)
    ensures FollowUpStep(Null, message, None, resp) == Outcome(None, Null, Err(NoSession))
  {
  }

  /** Session continuity: after a follow-up succeeds, the next one without an explicit id is sent in the session it resolved to. */
  lemma FollowUpContinues(tracked: JsString, m1: string, id1: Option<string>, r1: Response, m2: string, r2: Response)
    requires FollowUpStep(tracked, m1, id1, r1).result.Ok?
    ensures var o := FollowUpStep(tracked, m1, id1, r1);
      o.tracked.Str? && o.result.value.sessionId == o.tracked &&
      FollowUpStep(o.tracked, m2, None, r2).request == Some(FollowUpRequest(m2, o.tracked.value))
  {
    var o := FollowUpStep(tracked, m1, id1, r1);
    assert ActiveId(id1, tracked).Some?;
    assert o.tracked.value != "";
  }

  /** After a search whose reply carries a non-empty id, a follow-up without an explicit id is sent in that session. */
  lemma SearchThenFollowUp(tracked: JsString, query: string, r1: Response, message: string, r2: Response)
    requires !Fails(r1) && Truthy(Present(r1.sessionId))
    ensures FollowUpStep(SearchStep(tracked, query, r1).tracked, message, None, r2).request ==
      Some(FollowUpRequest(message, r1.sessionId.value))
  {
  }

  /**
    A search whose reply has no `session_id` leaves the slot `undefined`: the
    client then reports an active session, yet a follow-up without an explicit
    id is refused before any call.
  */
  lemma MissingSessionIdLooksActive(tracked: JsString, query: string, r1: Response, message: string, r2: Response)
    requires !Fails(r1) && r1.sessionId == Undefined
    ensures var t := SearchStep(tracked, query, r1).tracked;
      HasActive(t) && FollowUpStep(t, message, None, r2) == Outcome(None, t, Err(NoSession))
  {
  }

  /** An explicit non-empty id wins over whatever is tracked. */
  lemma ExplicitIdWins(tracked: JsString, message: string, id: string, resp: Response)
    requires id != ""
    ensures FollowUpStep(tracked, message, Some(id), resp).request == Some(FollowUpRequest(message, id))
  {
  }

  /** Whatever the reply, a failed call of either kind leaves the tracked id as it was. */
  lemma FailureKeepsSession(tracked: JsString, query: string, message: string, sessionId: Option<string>, resp: Response)
    requires Fails(resp)
    ensures SearchStep(tracked, query, resp).tracked == tracked
    ensures FollowUpStep(tracked, message, sessionId, resp).tracked == tracked
  {
  }
}
