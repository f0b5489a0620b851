# insightful-search in Dafny

A model of the client core of insightful-search, a web front end that asks an
answer service questions and shows cited answers. The model has two parts.

**The answer renderers.** Three components turn an answer string into a list of
display pieces: text, citation link, code block, inline code, bold span and line
break. Each does this through a chain of JavaScript `split` calls on regular
expressions.

- The search page's answer panel (`AnswerSection`) cuts the answer at citation
  markers `[n]`. A marker that names a source becomes a link showing the digits as
  written. Any other part goes through fenced-code splitting, else inline-code
  splitting (which itself does bold splitting), else is shown as it is.
- The answer card (`AnswerCard`) keeps only the digits of each marker. A digit part
  becomes a link labelled with the number's value, or nothing when no such source
  exists. Text parts are laid out as paragraphs and lines separated by breaks.
- The chat message (`ChatMessage`) does fenced code, then inline code, then bold,
  with no citation handling. It lists the first three sources.

Each regular expression has a hand-written scanner, proved equal to a declarative
description of the strings the expression matches. The ECMAScript `split` algorithm
is modelled exactly: leftmost match from the end of the previous one, with the
capture group's text in between. Each renderer keeps the source's tests
(`startsWith`/`endsWith`, `includes`) as written. Separate lemmas then prove how
every piece renders according to its position in the split.

**Session continuity.** Two client modules each keep one module-level slot with the
id of the session the service holds:

- `subfeed.ts`, for search and follow-up;
- `chat.ts`, for chat.

The three pages drive those clients through their handlers. Each slot and each page
is a class whose methods update its fields in place. The service's reply is a
parameter of every call. Every request a client makes is logged in a `sent` field,
so "no call is made" is a statement about that log. Each client call is also given
as a pure step function: the request, the new slot, and the result or thrown error.
The methods are proved equal to these step functions, and properties that span
several calls are lemmas over them.

## Model

| member | source | states |
|---|---|---|
| Patterns.MatchAtIff | src/components/search/AnswerSection.tsx:24-93 | the scanner for each of `(\[\d+\])`, `\[(\d+)\]`, the lazy fence, `` `[^`]+` `` and `\*\*[^*]+\*\*` finds a match from q to e exactly when s[q..e] is a string the expression matches; the lazy fence closes at the nearest three backticks |
| Patterns.SplitShape | src/components/search/AnswerSection.tsx:24 | `split` with one capture group gives 2k+1 parts; odd parts are captures of matches, even parts hold no match; re-inserting each match rebuilds the input; each match is the leftmost one after the previous match, since no match starts inside the gap before it |
| Patterns.SplitFromLeftmost | src/components/search/AnswerSection.tsx:24 | from any start index, every gap `split` emits ends at the leftmost match: no match of the expression starts inside it |
| Patterns.SplitFromUnique | src/components/search/AnswerSection.tsx:24 | from any start index, parts that rebuild the rest of the input, whose captures come from matches and whose gaps end at the leftmost match are exactly what `split` returns |
| Patterns.SplitUnique | src/components/search/AnswerSection.tsx:24 | the properties in `SplitShape` determine the parts: any parts that have them are the ones `split` returns |
| Patterns.SplitConcat | src/components/chat/ChatMessage.tsx:23 | when the whole match is captured, concatenating the parts gives back the input exactly |
| Patterns.SplitOfMatch | src/components/search/AnswerSection.tsx:27 | a string that is one match is found at index 0 and splits into "", its capture, "" |
| Patterns.SplitWithoutMatch | src/components/chat/ChatMessage.tsx:53 | a string holding no match splits into itself alone |
| Patterns.SplitPlain | src/components/chat/ChatMessage.tsx:23-65 | a string without the expression's opening character is not split |
| Patterns.TickGapAllTicks | src/components/chat/ChatMessage.tsx:53-57 | a piece between inline-code spans that still begins and ends with a backtick is nothing but backticks |
| Patterns.FenceGapStray | src/components/chat/ChatMessage.tsx:23-26 | a piece between fenced blocks that still begins and ends with three backticks is a run of three to five backticks |
| JsText.SplitOn | src/components/AnswerCard.tsx:37-39 | splitting on a literal separator gives at least one part; the parts joined with the separator give the input; no part contains the separator; every cut is at the leftmost occurrence, so no occurrence starts inside a part and runs into the separator after it |
| JsText.SplitOnUnique | src/components/AnswerCard.tsx:37-39 | those four properties determine the parts: any parts that have them are the ones `split` returns |
| JsText.Trim | src/components/search/AnswerSection.tsx:54 | `trim` keeps the part of the string between its leading and trailing white space: everything before and after the result is white space, and the result neither begins nor ends with it |
| JsText.DecimalString | src/components/AnswerCard.tsx:29 | the number shown is a non-empty digit string without a leading zero, and it reads back as the number |
| JsText.DecimalOfDigits | src/components/AnswerCard.tsx:18-29 | a digit string without a leading zero is shown exactly as written |
| Nodes.FencedBlockSplit | src/components/search/AnswerSection.tsx:51-55 | between the fences, a first newline past index 0 makes the trimmed first line the language and the rest after it the code; no newline, or a newline first, gives language "" and the whole text as code |
| Nodes.FencedBlockRoundTrip | src/components/search/AnswerSection.tsx:51-55 | writing a code block out as "```" + language + newline + code + "```" and reading it back gives the same language and code, when the language is one non-empty line without white space at its ends |
| Nodes.StrayFenceIsEmptyBlock | src/components/chat/ChatMessage.tsx:26-30 | three to five backticks that pass the begins-and-ends test render as an empty code block |
| Nodes.PythonBlock | src/components/chat/ChatMessage.tsx:26-30 | a block with a `python` language line yields language "python" and code "print(1)\n" |
| Nodes.SeparatedVisible | src/components/AnswerCard.tsx:37-47 | groups laid out with a separator before each but the first read back as their texts joined by the separator's text |
| Nodes.BoldMatchPiece | src/components/search/AnswerSection.tsx:95-96 | a bold match renders as one bold span of exactly what lies between its `**` delimiters |
| Nodes.BoldSpansShape | src/components/chat/ChatMessage.tsx:65-71 | bold splitting, piece by piece: each match becomes bold without its delimiters; other pieces stay text, except a gap that still passes the `**` test |
| Nodes.NoBoldText | src/components/chat/ChatMessage.tsx:65-71 | text without `**` comes out of bold splitting as one text piece |
| AnswerSection.Show | src/components/search/AnswerSection.tsx:109-117 | the placeholder is shown exactly when the answer is empty |
| AnswerSection.CitationSplit | src/components/search/AnswerSection.tsx:24 | the citation split alternates text and whole markers, odd in number, and concatenating the parts gives back the answer |
| AnswerSection.MarkerPart | src/components/search/AnswerSection.tsx:27-43 | a marker `[d]` with 1 <= parseInt(d) <= the number of sources is a link to that source's url, titled with its title and labelled d as written; any other marker stays as its own text |
| AnswerSection.GapPart | src/components/search/AnswerSection.tsx:27-31 | a part between markers never becomes a link, whatever the sources |
| AnswerSection.RenderByPosition | src/components/search/AnswerSection.tsx:22-107 | the whole answer renders part by part: markers by the citation rule, text by fenced-code, else inline-code, else verbatim handling |
| AnswerSection.LeadingZeroCitation | src/components/search/AnswerSection.tsx:29-41 | `[01]` still finds source 1 by value, and the link shows "01" |
| AnswerSection.FencePieceByPosition | src/components/search/AnswerSection.tsx:51-76 | a fenced match is a code block; text between blocks stays raw, without inline-code or bold handling, except a stray run of 3-5 backticks, which is an empty code block |
| AnswerSection.FenceSpansShape | src/components/search/AnswerSection.tsx:48-78 | the fenced-code split of a part renders piece by piece by position, and its odd pieces are fenced matches |
| AnswerSection.TickPieceByPosition | src/components/search/AnswerSection.tsx:84-101 | an inline-code match is inline code of what lies between its backticks; other pieces are bold-split when they hold `**` and stay text otherwise, except a stray run of backticks |
| AnswerSection.TickSpansShape | src/components/search/AnswerSection.tsx:81-103 | the inline-code split renders piece by piece by position; each odd piece is a match equal to a backtick, its code, a backtick |
| AnswerSection.NoBacktickVerbatim | src/components/search/AnswerSection.tsx:47-105 | in an answer without backticks every text part is shown as written, so `**x**` there is not made bold |
| AnswerSection.MarkerBreaksFence | src/components/search/AnswerSection.tsx:24-49 | a fenced block that holds a marker never survives whole inside any part of the citation split |
| AnswerCard.DigitsSplit | src/components/AnswerCard.tsx:12-17 | the split gives 2k+1 parts; the odd ones are the non-empty digit strings of the markers in order; bracketing them again rebuilds the answer |
| AnswerCard.CitationOfDigits | src/components/AnswerCard.tsx:17-33 | digits with value n from 1 to the number of sources become a link to source n's url labelled with the decimal numeral of n; any other value, 0 included, renders nothing; digits without a leading zero show as written |
| AnswerCard.LeadingZerosDropped | src/components/AnswerCard.tsx:18-29 | the digits "007" link source 7 and show "7" |
| AnswerCard.LinesVisible | src/components/AnswerCard.tsx:39-47 | the lines of a paragraph, with one break before each but the first, read back as the paragraph |
| AnswerCard.ParagraphsVisible | src/components/AnswerCard.tsx:37-51 | the paragraphs of a text part, with two breaks before each but the first, read back as the part |
| AnswerCard.NoMarkerVisible | src/components/AnswerCard.tsx:11-53 | an answer without markers reads back exactly, breaks read as newlines |
| ChatMessage.ShownSources | src/components/chat/ChatMessage.tsx:121-123 | no sources are listed when they are missing; otherwise the first min(3, n) sources, in their order |
| ChatMessage.PartsRebuildContent | src/components/chat/ChatMessage.tsx:23 | the lazy fence split concatenates back to the content, and its odd parts are fenced matches |
| ChatMessage.PartByPositionHolds | src/components/chat/ChatMessage.tsx:25-30 | a fenced match becomes a code block; other text goes through inline-code splitting, except a stray run of 3-5 backticks |
| ChatMessage.RenderByPosition | src/components/chat/ChatMessage.tsx:22-76 | the whole message renders part by part according to position in the fence split |
| ChatMessage.InlineByPositionHolds | src/components/chat/ChatMessage.tsx:56-71 | an inline-code match is inline code of what lies between its backticks; every other piece is bold-split, except a stray run of backticks |
| ChatMessage.InlineSpansShape | src/components/chat/ChatMessage.tsx:53-73 | the inline-code split renders piece by piece by position, each odd piece a match |
| ChatMessage.SameInlineAsAnswerSection | src/components/chat/ChatMessage.tsx:56-71 | an inline-code piece renders the same here as in the search page's answer panel |
| ChatMessage.NoCitations | src/components/chat/ChatMessage.tsx:22-76 | a chat message never shows a citation link; `[n]` stays text |
| ChatMessage.PlainContent | src/components/chat/ChatMessage.tsx:22-76 | content without backticks or asterisks is shown as one text piece |
| Subfeed.Normalize | src/lib/subfeed.ts:36-39 | a result's title is never empty and falls back to "Untitled"; url is url, else link, else ""; snippet is snippet, else description, else content, else "" |
| Subfeed.NormalizeAll | src/lib/subfeed.ts:70-76 | one source per raw result, same length and order |
| Subfeed.ActiveId | src/lib/subfeed.ts:48-52 | a non-empty explicit id wins; otherwise the tracked id if non-empty; otherwise there is none |
| Subfeed.SearchStep | src/lib/subfeed.ts:19-45 | a search always calls the service; a failure throws `error.message` or "Search failed" (or the body's error) and keeps the slot; a success stores the reply's session_id even when missing |
| Subfeed.FollowUpStep | src/lib/subfeed.ts:47-79 | with no id it throws the no-session error and makes no call; otherwise it sends the active id; a failure keeps the slot; a success tracks and returns session_id, else the id sent |
| Subfeed.Client.constructor | src/lib/subfeed.ts:17 | the slot starts as null and no call has been made |
| Subfeed.Client.Search | src/lib/subfeed.ts:19-45 | result, new slot and request log are those of the search step |
| Subfeed.Client.FollowUp | src/lib/subfeed.ts:47-79 | result, new slot and request log are those of the follow-up step; the log grows only when a request is sent |
| Subfeed.Client.ClearHistory | src/lib/subfeed.ts:81-83 | the slot becomes null, so no session is active; no call is made |
| Subfeed.Client.HasActiveSession | src/lib/subfeed.ts:85-87 | true exactly when the slot is not null, so `undefined` counts as active |
| Subfeed.ClearedRefusesFollowUp | src/lib/subfeed.ts:47-52 | after clearing, a follow-up without an explicit id throws the no-session error and calls nothing |
| Subfeed.FollowUpContinues | src/lib/subfeed.ts:48-66 | after a successful follow-up, the next one without an explicit id is sent in the session it resolved to |
| Subfeed.SearchThenFollowUp | src/lib/subfeed.ts:32-56 | after a search whose reply has a non-empty id, a follow-up without an explicit id is sent with that id |
| Subfeed.MissingSessionIdLooksActive | src/lib/subfeed.ts:32-87 | a search reply without session_id leaves the slot undefined: the client reports an active session, yet a follow-up is refused without a call |
| Subfeed.ExplicitIdWins | src/lib/subfeed.ts:48-56 | a non-empty explicit id is the id sent, whatever is tracked |
| Subfeed.FailureKeepsSession | src/lib/subfeed.ts:24-30 | a failed search or follow-up leaves the tracked id as it was |
| ChatApi.Normalize | src/lib/chat.ts:51-55 | title is never empty and falls back to "Source"; url is url, else link, else ""; snippet is snippet, else description, else "", never content |
| ChatApi.NormalizeAll | src/lib/chat.ts:51-55 | one source per raw source, same length and order |
| ChatApi.SendStep | src/lib/chat.ts:27-57 | a failure throws and keeps the slot; a success tracks a non-empty reply id and otherwise keeps the slot; it returns the reply's id, else the tracked one, else "", plus answer or "" and the normalised sources; the slot stays null or non-empty |
| ChatApi.Client.constructor | src/lib/chat.ts:25 | the slot starts as null and no call has been made |
| ChatApi.Client.SendMessage | src/lib/chat.ts:27-57 | every message is sent with the tracked id as it was, null included; result and new slot are those of the send step |
| ChatApi.Client.ClearSession | src/lib/chat.ts:59-61 | the slot becomes null; no call is made |
| ChatApi.Client.GetCurrentSessionId | src/lib/chat.ts:63-65 | returns the slot, which is null or non-empty |
| ChatApi.Track | src/lib/chat.ts:44-46 | over a run of calls the slot stays null or non-empty, and once non-empty it never goes back to null |
| ChatApi.TrackIsLastId | src/lib/chat.ts:44-46 | after any run of calls, the slot holds the id of the latest successful reply that had a non-empty one, or what it held before if none had |
| ChatApi.ResolvedIdIsTracked | src/lib/chat.ts:44-50 | once an id is known, a successful call resolves to exactly the id it now tracks |
| ChatPage.Title | src/pages/Chat.tsx:63 | the title is the first 30 characters, with "..." added exactly when the message is longer |
| ChatPage.AppendTo | src/pages/Chat.tsx:71-75 | every conversation with the id gets the new messages at its end; the others, the ids, titles and order stay |
| ChatPage.Without | src/pages/Chat.tsx:106 | the conversations kept are exactly those without the id; nothing changes when none has it |
| ChatPage.WithoutAppend | src/pages/Chat.tsx:106 | the filter of a concatenation is the concatenation of the filters, so the kept conversations keep their order and repeats |
| ChatPage.WithoutSingle | src/pages/Chat.tsx:106 | one conversation is kept exactly when its id differs |
| ChatPage.FindIndex | src/pages/Chat.tsx:97 | the position of the first conversation with the id, or none when no conversation has it |
| ChatPage.NewSessionId | src/pages/Chat.tsx:62 | a new conversation's id is the resolved id when non-empty, else the fresh id, so never empty |
| ChatPage.AppendKeepsIds | src/pages/Chat.tsx:70-76 | adding messages to the current conversation keeps every id non-empty and keeps the current one findable |
| ChatPage.PrependKeepsIds | src/pages/Chat.tsx:60-69 | a new conversation put first is found by its id, and every id stays non-empty when its own is |
| ChatPage.Page.constructor | src/pages/Chat.tsx:16-19 | the page starts with no messages, no conversations, none current, not loading |
| ChatPage.Page.HandleSendMessage | src/pages/Chat.tsx:33-87 | the user message is shown and sent with the client's slot. On failure it stays alone and the conversations stay. On success the answer follows; with no current conversation a new one titled from the message is put first and made current, otherwise both messages are added to the current one. Loading ends false. The page stays consistent |
| ChatPage.Page.HandleNewChat | src/pages/Chat.tsx:89-94 | no messages, no current conversation, the client's slot null, the list unchanged |
| ChatPage.Page.HandleSelectSession | src/pages/Chat.tsx:96-103 | the first conversation with the id is shown and made current; if none has it, nothing changes; the client's slot is untouched |
| ChatPage.Page.HandleDeleteSession | src/pages/Chat.tsx:105-110 | every conversation with the id is removed; the page starts a new chat exactly when it was the current one |
| SearchPage.QueryOf | src/pages/Search.tsx:16 | the query is the `q` parameter, or "" when missing; it is non-empty exactly when the parameter is truthy |
| SearchPage.Page.constructor | src/pages/Search.tsx:18-21 | no answer, no sources, not loading, not searched, so not empty |
| SearchPage.Page.PerformSearch | src/pages/Search.tsx:29-46 | marks searched and clears the session before searching; a success shows answer and sources; a failure shows "" and none, and the page reads as empty; loading ends false |
| SearchPage.Page.HandleFollowUp | src/pages/Search.tsx:52-67 | a success replaces the answer, and the sources only when it brings some; a failure or refusal changes neither; loading ends false |
| SearchPage.Page.HandleRetry | src/pages/Search.tsx:69-73 | a search runs exactly when the query is non-empty; otherwise nothing changes |
| SearchPage.FailedSearchRefusesFollowUp | src/pages/Search.tsx:29-56 | because the session is cleared before searching, a follow-up after a failed search is refused without a call |
| SearchAIPage.Page.constructor | src/pages/SearchAI.tsx:12-16 | no result, nothing loading, nothing searched |
| SearchAIPage.Page.PerformSearch | src/pages/SearchAI.tsx:41-58 | the result is the reply on success and none on failure; the session is not cleared first; loading ends false |
| SearchAIPage.Page.QueryChanged | src/pages/SearchAI.tsx:31-39 | a non-empty query not yet searched runs exactly one search and marks it searched; one already searched does nothing; no query resets the flag and drops the result |
| SearchAIPage.Page.HandleSearch | src/pages/SearchAI.tsx:60-64 | the flag resets and the session is cleared; the result stays |
| SearchAIPage.Page.HandleFollowUp | src/pages/SearchAI.tsx:66-82 | a success replaces the whole result, an empty source list included; a failure or refusal leaves it; the follow-up flag ends false |
| SearchAIPage.Page.HandleNewSearch | src/pages/SearchAI.tsx:84-87 | the session is cleared and no call is made |
| SearchAIPage.FailedSearchKeepsOldSession | src/pages/SearchAI.tsx:41-58 | this page does not clear the session before searching, so after a failed search a follow-up still goes to the earlier session |

## Left out

- The service calls (`supabase.functions.invoke`) and the edge functions behind them. Each reply is a parameter: a transport error, or a body with optional fields.
- A body's `error` that is truthy but not a string, and a `data` that is itself `null`, are not modelled. A JSON `null` in `answer`, `results`, `sources` or the source fields reads like a missing field, which is how `||` treats it. `session_id` keeps the three values missing, `null` and string, because `hasActiveSession` tells them apart.
- `extractDomain` and `getFaviconUrl` are not modelled: the `domain` and `favicon` fields of a search result depend on the URL parser. The same goes for the host-name fallback of a chat source title.
- `generateMessageId`, `Date.now`, `Math.random` and timestamps: the ids the handlers would draw are parameters, and the messages and conversations carry no times.
- Async interleaving and React batching: each handler is one atomic step. Intermediate states, such as loading being true during a call, are not observable in the model. Effects run only when their dependency changes; that scheduling is left to the caller.
- Navigation (`navigate`), toasts, console logging, clipboard copying, the mobile sheet flag, auto-scroll, keyboard shortcuts and all markup and keys.
- Strings are sequences of characters, while JavaScript strings are UTF-16 code units. `slice(0, 30)` and `length` in a conversation title differ from the model for text outside the Basic Multilingual Plane.
- `parseInt` is modelled only on strings of decimal digits, which is all the marker expressions capture. Very large numbers are read exactly, whereas JavaScript rounds them. Such numbers never index a source, so nothing shown changes.
- The search page's `isEmpty` and the chat page's consistency invariant have no contracts of their own. What they say is stated in the ensures clauses of the handlers that change what they read.
