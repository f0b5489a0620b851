/**
  The chat page: the messages on screen, the list of past conversations, the
  conversation on screen and a loading flag, updated by the page's handlers. The
  chat client's tracked id is a separate slot that the page clears but never sets.
  Each handler runs as one step; the service's reply and the ids
  `generateMessageId` would hand out are parameters.
*/
module ChatPage {
  import opened Wrappers
  import opened JsText
  import opened Backend
  import ChatApi

  datatype Role = User | Assistant

  /** A message on screen; its timestamp is not modelled. */
  datatype Message = Message(id: string, role: Role, content: string, sources: Option<seq<Source>>)

  /** A past conversation; its creation and update times are not modelled. */
  datatype Session = Session(id: string, title: string, messages: seq<Message>)

  /** A conversation's title: its first message cut to 30 characters, with "..." exactly when something was cut. */
  function Title(content: string): (t: string)
    ensures |content| <= 30 ==> t == content
    ensures |content| > 30 ==> t == content[..30] + "..." && |t| == 33
  {
    Slice(content, 0, 30) + (if |content| > 30 then "..." else "")
  }

  /** The `.map` that adds messages to every conversation with the given id, leaving the rest and the order alone. */
  function AppendTo(sessions: seq<Session>, id: string, extra: seq<Message>): (r: seq<Session>)
    ensures |r| == |sessions|
    ensures forall i :: 0 <= i < |sessions| ==>
      r[i].id == sessions[i].id && r[i].title == sessions[i].title &&
      r[i].messages == (if sessions[i].id == id then sessions[i].messages + extra else sessions[i].messages)
  {
    if sessions == [] then []
    else
      var s := sessions[0];
      [if s.id == id then s.(messages := s.messages + extra) else s] + AppendTo(sessions[1..], id, extra)
  }

  /** The `.filter` that drops every conversation with the given id, keeping the rest in order. */
  function Without(sessions: seq<Session>, id: string): (r: seq<Session>)
    ensures forall s :: s in r <==> s in sessions && s.id != id
    ensures |r| <= |sessions|
    ensures (forall i :: 0 <= i < |sessions| ==> sessions[i].id != id) ==> r == sessions
  {
    if sessions == [] then []
    else (if sessions[0].id == id then [] else [sessions[0]]) + Without(sessions[1..], id)
  }

  /** The filter goes piece by piece: dropping from a concatenation drops from each part, keeping their order. */
  lemma {:induction false} WithoutAppend(a: seq<Session>, b: seq<Session>, id: string)
    ensures Without(a + b, id) == Without(a, id) + Without(b, id)
    decreases |a|
  {
    if a == [] {
      assert a + b == b;
    } else {
      assert (a + b)[0] == a[0];
      assert (a + b)[1..] == a[1..] + b;
      WithoutAppend(a[1..], b, id);
    }
  }

  /** On one conversation the filter keeps it exactly when its id differs. */
  lemma WithoutSingle(s: Session, id: string)
    ensures Without([s], id) == (if s.id == id then [] else [s])
  {
    assert [s][1..] == [];
  }

  /** The `.find`: the position of the first conversation with the given id, if any. */
  function FindIndex(sessions: seq<Session>, id: string): (r: Option<nat>)
    ensures r.Some? ==> r.value < |sessions| && sessions[r.value].id == id
    ensures r.Some? ==> forall j :: 0 <= j < r.value ==> sessions[j].id != id
    ensures r.None? ==> forall j :: 0 <= j < |sessions| ==> sessions[j].id != id
  {
    if sessions == [] then None
    else if sessions[0].id == id then Some(0)
    else match FindIndex(sessions[1..], id)
      case None => None
      case Some(k) => Some(k + 1)
  }

  /** The id of a new conversation: the id the reply resolved to, else a fresh one. */
  function NewSessionId(resolved: string, freshId: string): (id: string)
    requires freshId != ""
    ensures id != ""
    ensures resolved != "" ==> id == resolved
  {
    if resolved != "" then resolved else freshId
  }

  class Page {
    var messages: seq<Message>
    var sessions: seq<Session>
    var currentSessionId: Option<string>
    var isLoading: bool
    /** The chat client's module-level slot. */
    const api: ChatApi.Client

    /**
      Every conversation has an id, and the conversation on screen, when there is
      one, is in the list.
    */
    predicate Consistent()
      reads this
    {
      (forall i :: 0 <= i < |sessions| ==> sessions[i].id != "") &&
      (currentSessionId.Some? ==> FindIndex(sessions, currentSessionId.value).Some?)
    }

    constructor(api: ChatApi.Client)
      ensures this.api == api
      ensures messages == [] && sessions == [] && currentSessionId == None && !isLoading
      ensures Consistent()
    {
      this.api := api;
      messages := [];
      sessions := [];
      currentSessionId := None;
      isLoading := false;
    }

    /**
      `handleSendMessage`: the message is shown and sent. When the reply fails, it
      stays on screen alone. When it succeeds, the answer follows it; without a
      conversation on screen a new one holding both is put first and shown,
      otherwise both are added to the conversation on screen.
    */
    method HandleSendMessage(content: string, resp: Response, userId: string, assistantId: string, freshId: string)
      requires api.Valid() && freshId != ""
      modifies this, api
      ensures api.Valid()
      ensures api.sent == old(api.sent) + [ChatApi.ChatRequest(content, old(api.currentSessionId))]
      ensures var o := ChatApi.SendStep(old(api.currentSessionId), resp);
        api.currentSessionId == o.tracked && !isLoading &&
        var user := Message(userId, User, content, None);
        if o.result.Err? then
          messages == old(messages) + [user] && sessions == old(sessions) && currentSessionId == old(currentSessionId)
        else
          var answer := Message(assistantId, Assistant, o.result.value.answer, Some(o.result.value.sources));
          messages == old(messages) + [user, answer] &&
          if !Truthy(old(currentSessionId)) then
            var id := NewSessionId(o.result.value.sessionId, freshId);
            sessions == [Session(id, Title(content), [user, answer])] + old(sessions) && currentSessionId == Some(id)
          else
            sessions == AppendTo(old(sessions), old(currentSessionId).value, [user, answer]) &&
            currentSessionId == old(currentSessionId)
      ensures old(Consistent()) ==> Consistent()
    {
      var user := Message(userId, User, content, None);
      messages := messages + [user];
      isLoading := true;
      var r := api.SendMessage(content, resp);
      if r.Ok? {
        var answer := Message(assistantId, Assistant, r.value.answer, Some(r.value.sources));
        messages := messages + [answer];
        if !Truthy(currentSessionId) {
          var id := NewSessionId(r.value.sessionId, freshId);
          PrependKeepsIds(Session(id, Title(content), [user, answer]), sessions);
          sessions := [Session(id, Title(content), [user, answer])] + sessions;
          currentSessionId := Some(id);
        } else {
          AppendKeepsIds(sessions, currentSessionId.value, [user, answer]);
          sessions := AppendTo(sessions, currentSessionId.value, [user, answer]);
        }
      }
      isLoading := false;
    }

    /** `handleNewChat`: an empty screen, no conversation on it, and the client's slot cleared. */
    method HandleNewChat()
      modifies this, api
      ensures messages == [] && currentSessionId == None
      ensures sessions == old(sessions) && isLoading == old(isLoading)
      ensures api.Valid() && api.currentSessionId == None && api.sent == old(api.sent)
      ensures old(Consistent()) ==> Consistent()
    {
      messages := [];
      currentSessionId := None;
      api.ClearSession();
    }

    /**
      `handleSelectSession`: the first conversation with that id, if there is one, is
      shown and becomes current; otherwise nothing changes. The client's slot is not
      touched, so the next message still goes to the conversation the client tracks.
    */
    method HandleSelectSession(id: string)
      modifies this
      ensures sessions == old(sessions) && isLoading == old(isLoading)
      ensures match FindIndex(sessions, id)
        case Some(k) => messages == sessions[k].messages && currentSessionId == Some(id)
        case None => messages == old(messages) && currentSessionId == old(currentSessionId)
      ensures old(Consistent()) ==> Consistent()
    {
      var k := FindIndex(sessions, id);
      if k.Some? {
        messages := sessions[k.value].messages;
        currentSessionId := Some(id);
      }
    }

    /** `handleDeleteSession`: every conversation with that id goes; if it was on screen, the page starts a new chat. */
    method HandleDeleteSession(id: string)
      modifies this, api
      ensures sessions == Without(old(sessions), id) && isLoading == old(isLoading)
      ensures forall i :: 0 <= i < |sessions| ==> sessions[i].id != id
      ensures old(currentSessionId) == Some(id) ==>
        messages == [] && currentSessionId == None && api.currentSessionId == None && api.sent == old(api.sent)
      ensures old(currentSessionId) != Some(id) ==>
        messages == old(messages) && currentSessionId == old(currentSessionId) &&
        api.currentSessionId == old(api.currentSessionId) && api.sent == old(api.sent)
      ensures old(Consistent()) ==> Consistent()
    {
      var wasCurrent := currentSessionId == Some(id);
      ghost var before := sessions;
      sessions := Without(sessions, id);
      assert forall i :: 0 <= i < |sessions| ==> sessions[i] in before && sessions[i].id != id;
      if wasCurrent {
        HandleNewChat();
      } else if currentSessionId.Some? && FindIndex(before, currentSessionId.value).Some? {
        var k := FindIndex(before, currentSessionId.value).value;
        assert before[k] in sessions;
        FoundIn(sessions, before[k]);
      }
    }
  }

  /** Adding messages keeps every id where it was, so a conversation found before is found after. */
  lemma AppendKeepsIds(sessions: seq<Session>, id: string, extra: seq<Message>)
    ensures (forall i :: 0 <= i < |sessions| ==> sessions[i].id != "") ==>
      forall i :: 0 <= i < |AppendTo(sessions, id, extra)| ==> AppendTo(sessions, id, extra)[i].id != ""
    ensures FindIndex(sessions, id).Some? ==> FindIndex(AppendTo(sessions, id, extra), id).Some?
  {
    if FindIndex(sessions, id).Some? {
      var k := FindIndex(sessions, id).value;
      assert AppendTo(sessions, id, extra)[k].id == id;
    }
  }

  /** A new conversation with an id, put first, is found by that id and keeps every id non-empty. */
  lemma PrependKeepsIds(s: Session, sessions: seq<Session>)
    ensures FindIndex([s] + sessions, s.id) == Some(0)
    ensures s.id != "" && (forall i :: 0 <= i < |sessions| ==> sessions[i].id != "") ==>
      forall i :: 0 <= i < |[s] + sessions| ==> ([s] + sessions)[i].id != ""
  {
    if s.id != "" && (forall i :: 0 <= i < |sessions| ==> sessions[i].id != "") {
      forall i | 0 <= i < |[s] + sessions|
        ensures ([s] + sessions)[i].id != ""
      {
        if i > 0 { assert ([s] + sessions)[i] == sessions[i - 1]; }
      }
    }
  }

  /** A conversation that is in the list is found by its id. */
  lemma FoundIn(sessions: seq<Session>, s: Session)
    requires s in sessions
    ensures FindIndex(sessions, s.id).Some?
  {
    var k :| 0 <= k < |sessions| && sessions[k] == s;
    assert sessions[k].id == s.id;
  }
}
