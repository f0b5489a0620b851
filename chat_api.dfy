/**
  The chat client: one module-level slot holding the id of the conversation the
  service keeps. Every message is sent with it, whatever it holds; a reply with a
  non-empty id replaces it, and starting a new chat clears it.
*/
module ChatApi {
  import opened Wrappers
  import opened Backend

  /** A message sent to the service with the tracked id, `null` included. */
  datatype Request = ChatRequest(message: string, sessionId: Option<string>)

  /** What `sendMessage` resolves to. */
  datatype ChatResponse = ChatResponse(answer: string, sessionId: string, sources: seq<Source>)

  /** One raw source as the chat client keeps it; unlike the search client, `content` is never a snippet. */
  function Normalize(r: RawSource): (s: Source)
    ensures s.title != ""
    ensures Truthy(r.title) ==> s.title == r.title.value
    ensures Truthy(r.url) ==> s.url == r.url.value
    ensures !Truthy(r.url) ==> s.url == Or(r.link, "")
    ensures Truthy(r.snippet) ==> s.snippet == r.snippet.value
    ensures !Truthy(r.snippet) ==> s.snippet == Or(r.description, "")
  {
    Source(Or(r.title, "Source"), Or(r.url, Or(r.link, "")), Or(r.snippet, Or(r.description, "")))
  }

  /** The `.map` over the raw sources: one source per raw source, in the same order. */
  function NormalizeAll(raw: seq<RawSource>): (r: seq<Source>)
    ensures |r| == |raw|
    ensures forall i :: 0 <= i < |raw| ==> r[i] == Normalize(raw[i])
  {
    if raw == [] then [] else [Normalize(raw[0])] + NormalizeAll(raw[1..])
  }

  /** The slot holds `null` or a non-empty id: it is only ever set from a truthy `session_id`. */
  predicate ValidSlot(tracked: Option<string>) {
    tracked.Some? ==> tracked.value != ""
  }

  /** What one `sendMessage` did: the slot afterwards, and what it resolved to or threw. */
  datatype Outcome = Outcome(tracked: Option<string>, result: Result<ChatResponse>)

  /**
    `sendMessage`: a failure throws and keeps the slot; a success tracks the reply's
    id when it is non-empty and keeps the slot otherwise, and resolves to the reply's
    id, else the tracked one, else "".
  */
  function SendStep(tracked: Option<string>, resp: Response): (o: Outcome)
    requires ValidSlot(tracked)
    ensures ValidSlot(o.tracked)
    ensures Fails(resp) ==> o == Outcome(tracked, Err(FailureMessage(resp, "Chat failed")))
    ensures !Fails(resp) && Truthy(Present(resp.sessionId)) ==> o.tracked == Present(resp.sessionId)
    ensures !Fails(resp) && !Truthy(Present(resp.sessionId)) ==> o.tracked == tracked
    ensures !Fails(resp) ==> (o.result.Ok? &&
      o.result.value.answer == Or(resp.answer, "") &&
      o.result.value.sources == NormalizeAll(OrEmpty(resp.sources)))
    ensures !Fails(resp) ==> o.result.value.sessionId == Or(o.tracked, "")
  {
    if Fails(resp) then Outcome(tracked, Err(FailureMessage(resp, "Chat failed")))
    else
      var t := if Truthy(Present(resp.sessionId)) then Present(resp.sessionId) else tracked;
      Outcome(t, Ok(ChatResponse(Or(resp.answer, ""), Or(Present(resp.sessionId), Or(t, "")), NormalizeAll(OrEmpty(resp.sources)))))
  }

  /** The module's state: the tracked conversation id, and the calls made so far. */
  class Client {
    var currentSessionId: Option<string>
    var sent: seq<Request>

    predicate Valid()
      reads this
    {
      ValidSlot(currentSessionId)
    }

    /** The module as loaded: no conversation, no call. */
    constructor()
      ensures Valid() && currentSessionId == None && sent == []
    {
      currentSessionId := None;
      sent := [];
    }

    method SendMessage(message: string, resp: Response) returns (r: Result<ChatResponse>)
      requires Valid()
      modifies this
      ensures Valid()
      ensures sent == old(sent) + [ChatRequest(message, old(currentSessionId))]
      ensures var o := SendStep(old(currentSessionId), resp);
        r == o.result && currentSessionId == o.tracked
    {
      sent := sent + [ChatRequest(message, currentSessionId)];
      if Fails(resp) {
        return Err(FailureMessage(resp, "Chat failed"));
      }
      if Truthy(Present(resp.sessionId)) {
        currentSessionId := Present(resp.sessionId);
      }
      r := Ok(ChatResponse(Or(resp.answer, ""), Or(Present(resp.sessionId), Or(currentSessionId, "")),
        NormalizeAll(OrEmpty(resp.sources))));
    }

    method ClearSession()
      modifies this
      ensures Valid() && currentSessionId == None && sent == old(sent)
    {
      currentSessionId := None;
    }

    function GetCurrentSessionId(): (r: Option<string>)
      requires Valid()
      reads this
      ensures ValidSlot(r) && r == currentSessionId
    {
      currentSessionId
    }
  }

  /** The slot after a run of `sendMessage` calls, one reply each, in order. */
  function Track(tracked: Option<string>, replies: seq<Response>): (r: Option<string>)
    requires ValidSlot(tracked)
    ensures ValidSlot(r)
    ensures Truthy(tracked) ==> Truthy(r)
    decreases |replies|
  {
    if replies == [] then tracked else Track(SendStep(tracked, replies[0]).tracked, replies[1..])
  }

  /** The non-empty id carried by the latest successful reply that carries one. */
  function LastId(replies: seq<Response>): (r: Option<string>)
    ensures r.Some? ==> r.value != ""
    decreases |replies|
  {
    if replies == [] then None
    else
      var last := replies[|replies| - 1];
      if !Fails(last) && Truthy(Present(last.sessionId)) then Present(last.sessionId)
      else LastId(replies[..|replies| - 1])
  }

  lemma {:induction false} TrackSnoc(tracked: Option<string>, replies: seq<Response>, resp: Response)
    requires ValidSlot(tracked)
    ensures Track(tracked, replies + [resp]) == SendStep(Track(tracked, replies), resp).tracked
    decreases |replies|
  {
    if replies == [] {
      assert [resp][1..] == [];
    } else {
      assert (replies + [resp])[1..] == replies[1..] + [resp];
      TrackSnoc(SendStep(tracked, replies[0]).tracked, replies[1..], resp);
    }
  }

  /**
    Conversation continuity over any run of calls: the slot holds the id of the
    latest successful reply that had a non-empty one, and what it held before
    when no reply had.
  */
  lemma {:induction false} TrackIsLastId(tracked: Option<string>, replies: seq<Response>)
    requires ValidSlot(tracked)
    ensures Track(tracked, replies) == (if LastId(replies).Some? then LastId(replies) else tracked)
    decreases |replies|
  {
    if replies != [] {
      var init := replies[..|replies| - 1];
      var last := replies[|replies| - 1];
      assert replies == init + [last];
      TrackSnoc(tracked, init, last);
      TrackIsLastId(tracked, init);
    }
  }

  /** Once an id is known, tracked before or carried by the reply, a successful call resolves to exactly the id it now tracks. */
  lemma ResolvedIdIsTracked(tracked: Option<string>, resp: Response)
    requires ValidSlot(tracked) && !Fails(resp)
    requires Truthy(tracked) || Truthy(Present(resp.sessionId))
    ensures var o := SendStep(tracked, resp);
      o.tracked.Some? && o.result.value.sessionId == o.tracked.value
  {
  }
}
