/** `AppError`, the error type of every cache operation, its `Display`
    strings, the helper constructors, and the context wrapper. */
module Errors {
  import opened Wrappers
  import opened Text
  import JsonValue

  /** One variant per failure domain, each carrying a message. */
  datatype AppError =
    | Configuration(msg: string)
    | Cache(msg: string)
    | Proxy(msg: string)
    | Aws(msg: string)
    | Json(msg: string)
    | Http(msg: string)
    | Validation(msg: string)
    | Generic(msg: string)

  /** The fixed text `Display` writes before the message. */
  function Prefix(e: AppError): string {
    match e
    case Configuration(_) => "Configuration error: "
    case Cache(_) => "Cache error: "
    case Proxy(_) => "Proxy error: "
    case Aws(_) => "AWS error: "
    case Json(_) => "JSON error: "
    case Http(_) => "HTTP error: "
    case Validation(_) => "Validation error: "
    case Generic(_) => "Error: "
  }

  /** `impl Display for AppError`: the variant's prefix, then the message. */
  function Display(e: AppError): (r: string)
    ensures StartsWith(r, Prefix(e))
    ensures r[|Prefix(e)|..] == e.msg
  {
    Prefix(e) + e.msg
  }

  /** Recovers the error from its display text; `None` when the text starts
      with none of the eight prefixes. */
  function ParseDisplay(s: string): (r: Option<AppError>)
    ensures r.Some? ==> Display(r.value) == s
  {
    if StartsWith(s, "Configuration error: ") then Some(Configuration(s[21..]))
    else if StartsWith(s, "Cache error: ") then Some(Cache(s[13..]))
    else if StartsWith(s, "Proxy error: ") then Some(Proxy(s[13..]))
    else if StartsWith(s, "AWS error: ") then Some(Aws(s[11..]))
    else if StartsWith(s, "JSON error: ") then Some(Json(s[12..]))
    else if StartsWith(s, "HTTP error: ") then Some(Http(s[12..]))
    else if StartsWith(s, "Validation error: ") then Some(Validation(s[18..]))
    else if StartsWith(s, "Error: ") then Some(Generic(s[7..]))
    else None
  }

  /** The display text determines the error: no prefix is a prefix of
      another, so variant and message can both be read back. */
  lemma ParseDisplayRoundTrip(e: AppError)
    ensures ParseDisplay(Display(e)) == Some(e)
  {
    match e
    case Configuration(m) => RoundTripConfiguration(m);
    case Cache(m) => RoundTripCache(m);
    case Proxy(m) => RoundTripProxy(m);
    case Aws(m) => RoundTripAws(m);
    case Json(m) => RoundTripJson(m);
    case Http(m) => RoundTripHttp(m);
    case Validation(m) => RoundTripValidation(m);
    case Generic(m) => RoundTripGeneric(m);
  }

  lemma RoundTripConfiguration(m: string)
    ensures ParseDisplay(Display(Configuration(m))) == Some(Configuration(m))
  {
    var s := Display(Configuration(m));
    assert s[..21] == "Configuration error: ";
  }

  lemma RoundTripCache(m: string)
    ensures ParseDisplay(Display(Cache(m))) == Some(Cache(m))
  {
    var s := Display(Cache(m));
    assert s[..13] == "Cache error: ";
    assert s[1] == 'a';
  }

  lemma RoundTripProxy(m: string)
    ensures ParseDisplay(Display(Proxy(m))) == Some(Proxy(m))
  {
    var s := Display(Proxy(m));
    assert s[..13] == "Proxy error: ";
    assert s[0] == 'P';
  }

  lemma RoundTripAws(m: string)
    ensures ParseDisplay(Display(Aws(m))) == Some(Aws(m))
  {
    var s := Display(Aws(m));
    assert s[..11] == "AWS error: ";
    assert s[0] == 'A';
  }

  lemma RoundTripJson(m: string)
    ensures ParseDisplay(Display(Json(m))) == Some(Json(m))
  {
    var s := Display(Json(m));
    assert s[..12] == "JSON error: ";
    assert s[0] == 'J';
  }

  lemma RoundTripHttp(m: string)
    ensures ParseDisplay(Display(Http(m))) == Some(Http(m))
  {
    var s := Display(Http(m));
    assert s[..12] == "HTTP error: ";
    assert s[0] == 'H';
  }

  lemma RoundTripValidation(m: string)
    ensures ParseDisplay(Display(Validation(m))) == Some(Validation(m))
  {
    var s := Display(Validation(m));
    assert s[..18] == "Validation error: ";
    assert s[0] == 'V';
  }

  lemma RoundTripGeneric(m: string)
    ensures ParseDisplay(Display(Generic(m))) == Some(Generic(m))
  {
    var s := Display(Generic(m));
    assert s[..7] == "Error: ";
    assert s[0] == 'E';
  }

  /** Two errors with the same display text are the same error. */
  lemma DisplayInjective(a: AppError, b: AppError)
    requires Display(a) == Display(b)
    ensures a == b
  {
    ParseDisplayRoundTrip(a);
    ParseDisplayRoundTrip(b);
  }

  // ---------------------------------------------------------------------------
  // Helper constructors (`config_error`, `cache_error`, ...)

  function ConfigError(msg: string): AppError { Configuration(msg) }
  function CacheError(msg: string): AppError { Cache(msg) }
  function ProxyError(msg: string): AppError { Proxy(msg) }
  function AwsError(msg: string): AppError { Aws(msg) }
  function JsonError(msg: string): AppError { Json(msg) }
  function HttpError(msg: string): AppError { Http(msg) }
  function ValidationError(msg: string): AppError { Validation(msg) }
  function GenericError(msg: string): AppError { Generic(msg) }

  /** Every helper builds its namesake variant and keeps the message as is,
      so its display is the variant's prefix followed by the message. */
  lemma HelpersDisplay(m: string)
    ensures Display(ConfigError(m)) == "Configuration error: " + m
    ensures Display(CacheError(m)) == "Cache error: " + m
    ensures Display(ProxyError(m)) == "Proxy error: " + m
    ensures Display(AwsError(m)) == "AWS error: " + m
    ensures Display(JsonError(m)) == "JSON error: " + m
    ensures Display(HttpError(m)) == "HTTP error: " + m
    ensures Display(ValidationError(m)) == "Validation error: " + m
    ensures Display(GenericError(m)) == "Error: " + m
  {
  }

  // ---------------------------------------------------------------------------
  // Error context

  /** `ErrorContext`; the timestamp is the caller's clock reading in epoch
      seconds. */
  datatype ErrorContext = ErrorContext(operation: string, details: JsonValue.Json, timestamp: int)

  /** `ErrorContext::new(operation, details)` at time `now`. */
  function NewContext(operation: string, details: JsonValue.Json, now: int): (c: ErrorContext)
    ensures c.operation == operation && c.details == details && c.timestamp == now
  {
    ErrorContext(operation, details, now)
  }

  /** `ErrorContext::with_operation`: no details (`Null`). */
  function WithOperation(operation: string, now: int): (c: ErrorContext)
    ensures c.operation == operation
    ensures c.details == JsonValue.Null
    ensures c.timestamp == now
  {
    NewContext(operation, JsonValue.Null, now)
  }

  /** `ErrorContext::with_details`: replaces the details only. */
  function WithDetails(c: ErrorContext, details: JsonValue.Json): (r: ErrorContext)
    ensures r.details == details
    ensures r.operation == c.operation && r.timestamp == c.timestamp
  {
    c.(details := details)
  }

  datatype ContextualError = ContextualError(error: AppError, context: ErrorContext)

  /** `impl Display for ContextualError`. The details are written with
      serde_json's compact printer, `render`. */
  function ContextualDisplay(ce: ContextualError, render: JsonValue.Json -> string): (r: string)
    ensures StartsWith(r, Display(ce.error))
    ensures r[|Display(ce.error)|..] == ContextTail(ce.context, render)
    ensures EndsWith(r, ")")
  {
    Display(ce.error) + ContextTail(ce.context, render)
  }

  /** What follows the error's own display: the operation, then the details. */
  function ContextTail(c: ErrorContext, render: JsonValue.Json -> string): string {
    " (Operation: " + c.operation + ", Context: " + render(c.details) + ")"
  }

  /** Text appended to an error's display reads back as part of its message. */
  lemma ParseDisplayAppend(e: AppError, t: string)
    ensures ParseDisplay(Display(e) + t) == Some(e.(msg := e.msg + t))
  {
    var e' := e.(msg := e.msg + t);
    assert Prefix(e') == Prefix(e);
    assert Display(e) + t == Display(e');
    ParseDisplayRoundTrip(e');
  }

  /** Read as a plain error display, a contextual display names the wrapped
      error's variant, with the context appended to its message. */
  lemma ContextualDisplayRecoversError(ce: ContextualError, render: JsonValue.Json -> string)
    ensures ParseDisplay(ContextualDisplay(ce, render))
         == Some(ce.error.(msg := ce.error.msg + ContextTail(ce.context, render)))
  {
    ParseDisplayAppend(ce.error, ContextTail(ce.context, render));
  }
}
