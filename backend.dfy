/**
  What the answer service hands to the client modules through
  `supabase.functions.invoke`, and the `||` fallbacks the client applies to it.
*/
module Backend {
  import opened Wrappers

  /** A source record as the service sends it: every field may be missing. */
  datatype RawSource = RawSource(
    title: Option<string>,
    url: Option<string>,
    link: Option<string>,
    snippet: Option<string>,
    description: Option<string>,
    content: Option<string>)

  /**
    The `{ data, error }` pair returned by `supabase.functions.invoke`: either the
    invocation failed (`error` set), or `data` is the JSON body, which may itself
    carry an `error` field.
  */
  datatype Response =
    | TransportError(message: Option<string>)
    | Body(
        error: Option<string>,
        answer: Option<string>,
        results: Option<seq<RawSource>>,
        sources: Option<seq<RawSource>>,
        sessionId: JsString)

  /**
    A string-valued JSON field or variable: `undefined` (the field is missing),
    `null`, or a string. Only `!== null` tells the first two apart.
  */
  datatype JsString = Undefined | Null | Str(value: string)

  /** The slot read where only truthiness matters: `undefined` and `null` both read as absent. */
  function Present(x: JsString): (r: Option<string>)
    ensures r.Some? <==> x.Str?
    ensures x.Str? ==> r.value == x.value
  {
    if x.Str? then Some(x.value) else None
  }

  /** A source as the client keeps and shows it. */
  datatype Source = Source(title: string, url: string, snippet: string)

  /** JavaScript truthiness of an optional string: present and not empty. */
  predicate Truthy(x: Option<string>) {
    x.Some? && x.value != ""
  }

  /** `x || fallback`. */
  function Or(x: Option<string>, fallback: string): (r: string)
    ensures Truthy(x) ==> r == x.value
    ensures !Truthy(x) ==> r == fallback
  {
    if Truthy(x) then x.value else fallback
  }

  /** `list || []`. */
  function OrEmpty<T>(list: Option<seq<T>>): seq<T> {
    if list.Some? then list.value else []
  }

  /** The invocation failed, or the body carries a truthy `error`: the call throws. */
  predicate Fails(r: Response) {
    r.TransportError? || Truthy(r.error)
  }

  /** The message of the `Error` thrown for a failed response; `fallback` when the transport error has none. */
  function FailureMessage(r: Response, fallback: string): string
    requires Fails(r)
  {
    if r.TransportError? then Or(r.message, fallback) else r.error.value
  }
}
