/** The pure part of the upstream client: reading the request fields out of
    the JSON request, the header map it forwards, and when it sends a body.
    The URL construction and the network exchange are not part of this
    module. */
module Fetch {
  import opened Wrappers
  import opened Text
  import opened JsonValue
  import Errors
  import Normalize

  /** The hop-by-hop and proxy headers that are never forwarded, compared
      after lowercasing the name. */
  const ProxyHeaders: set<string> := {
    "x-forwarded-for", "x-real-ip", "x-forwarded-proto", "x-forwarded-host",
    "x-forwarded-port", "x-upstream-url", "host", "connection", "upgrade",
    "proxy-connection", "proxy-authorization"
  }

  /** `extract_headers`: the string-valued members of the request's
      `headers` object, under their own names; nothing when `headers` is
      missing or not an object. */
  function ExtractHeaders(request: Json): (r: map<string, string>)
    ensures !Index(request, "headers").Obj? ==> r == map[]
    ensures forall k :: k in r <==> Index(request, "headers").Obj?
                                    && k in Index(request, "headers").members
                                    && Index(request, "headers").members[k].Str?
    ensures forall k :: k in r ==> Index(request, "headers").members[k] == Str(r[k])
  {
    match Index(request, "headers")
    case Obj(members) => map k | k in members && members[k].Str? :: members[k].s
    case _ => map[]
  }

  /** `filter_headers`: every entry whose lowercased name is not a proxy
      header, unchanged. */
  function FilterHeaders(headers: map<string, string>): (r: map<string, string>)
    ensures forall k :: k in r ==> k in headers && r[k] == headers[k]
    ensures forall k :: k in headers ==> (k in r <==> ToLower(k) !in ProxyHeaders)
  {
    map k | k in headers && ToLower(k) !in ProxyHeaders :: headers[k]
  }

  /** Filtering twice removes nothing more. */
  lemma FilterHeadersIdempotent(headers: map<string, string>)
    ensures FilterHeaders(FilterHeaders(headers)) == FilterHeaders(headers)
  {
  }

  /** No spelling of a proxy header's name survives the filter. */
  lemma FilterHeadersDropsProxyHeaders(headers: map<string, string>, k: string)
    requires k in headers && ToLower(k) in ProxyHeaders
    ensures k !in FilterHeaders(headers)
  {
  }

  /** `!body.is_empty() && method.to_uppercase() != "GET"`. */
  predicate ForwardsBody(httpMethod: string, body: string) {
    body != [] && ToUpper(httpMethod) != "GET"
  }

  /** Whether a body is sent does not depend on the method's case. */
  lemma ForwardsBodyIgnoresCase(httpMethod: string, body: string)
    ensures ForwardsBody(httpMethod, body) == ForwardsBody(ToUpper(httpMethod), body)
    ensures ForwardsBody(httpMethod, body) == ForwardsBody(ToLower(httpMethod), body)
  {
    ToUpperIdempotent(httpMethod);
    UpperOfLower(httpMethod);
  }

  lemma UpperOfLower(s: string)
    ensures ToUpper(ToLower(s)) == ToUpper(s)
  {
  }

  /** What `fetch` sends upstream, before the URL is resolved: the method
      and path as given, the filtered headers, and the body when one is
      forwarded. */
  datatype Outgoing = Outgoing(httpMethod: string, path: string, headers: map<string, string>, body: Option<string>)

  /** The request-reading part of `fetch`: `httpMethod` and `path` must be
      strings (checked in that order); a missing or non-string `body`
      counts as empty. */
  function PrepareFetch(request: Json): (r: Result<Outgoing, Errors.AppError>)
    ensures !Index(request, "httpMethod").Str? ==> r == Failure(Errors.Proxy("Missing httpMethod"))
    ensures Index(request, "httpMethod").Str? && !Index(request, "path").Str?
            ==> r == Failure(Errors.Proxy("Missing path"))
    ensures r.Success? <==> Index(request, "httpMethod").Str? && Index(request, "path").Str?
    ensures r.Success? ==> && r.value.httpMethod == Index(request, "httpMethod").s
                           && r.value.path == Index(request, "path").s
                           && r.value.headers == FilterHeaders(ExtractHeaders(request))
    ensures r.Success? ==> (r.value.body.Some? <==> ForwardsBody(r.value.httpMethod, AsStr(Index(request, "body")).GetOr("")))
    ensures r.Success? && r.value.body.Some? ==> Index(request, "body") == Str(r.value.body.value)
  {
    match AsStr(Index(request, "httpMethod"))
    case None => Failure(Errors.Proxy("Missing httpMethod"))
    case Some(m) =>
      match AsStr(Index(request, "path"))
      case None => Failure(Errors.Proxy("Missing path"))
      case Some(p) =>
        var body := AsStr(Index(request, "body")).GetOr("");
        var headers := FilterHeaders(ExtractHeaders(request));
        Success(Outgoing(m, p, headers, if ForwardsBody(m, body) then Some(body) else None))
  }

  /** The JSON request the development server builds from a parsed request:
      method, path, headers as strings, and body. */
  function RequestJson(httpMethod: string, path: string, headers: map<string, string>, body: string): (v: Json)
    ensures v.Obj? && v.members.Keys == {"httpMethod", "path", "headers", "body"}
  {
    Obj(map["httpMethod" := Str(httpMethod), "path" := Str(path),
            "headers" := Obj(StrValues(headers)), "body" := Str(body)])
  }

  /** A header map as JSON: every value a string. */
  function StrValues(headers: map<string, string>): (r: map<string, Json>)
    ensures r.Keys == headers.Keys
    ensures forall k :: k in r ==> r[k] == Str(headers[k])
  {
    map k | k in headers :: Str(headers[k])
  }

  lemma RequestKeysDistinct()
    ensures "httpMethod" != "path" && "httpMethod" != "headers" && "httpMethod" != "body"
    ensures "path" != "headers" && "path" != "body" && "headers" != "body"
  {
    assert "httpMethod"[0] == 'h' && "headers"[1] == 'e' && "httpMethod"[1] == 't';
    assert "path"[0] == 'p' && "body"[0] == 'b';
  }

  /** Round trip: reading the headers back from a request built from a
      header map gives the map itself. */
  lemma ExtractHeadersOfRequest(httpMethod: string, path: string, headers: map<string, string>, body: string)
    ensures ExtractHeaders(RequestJson(httpMethod, path, headers, body)) == headers
  {
    RequestKeysDistinct();
  }

  /** Read directly, the JSON request the development server builds gives
      its own method and path, its headers less the proxy ones, and its
      body exactly when the method is not `GET` and the body is not empty.
      This is what the server evidently means to forward; the code
      normalises the request first (`ForwardedAsWritten`). */
  lemma PrepareFetchOfRequest(httpMethod: string, path: string, headers: map<string, string>, body: string)
    ensures PrepareFetch(RequestJson(httpMethod, path, headers, body))
         == Success(Outgoing(httpMethod, path, FilterHeaders(headers),
                             if ForwardsBody(httpMethod, body) then Some(body) else None))
  {
    RequestKeysDistinct();
    ExtractHeadersOfRequest(httpMethod, path, headers, body);
  }

  /** The upstream request `process_request` builds AS WRITTEN: the server's
      JSON request is passed through `normalize_request` and the result is
      what the upstream client reads. So the path is normalised; header
      names are trimmed and lowercased and values trimmed; and the body is
      the normalised body read back as a string, so a body that parses as
      JSON but not as a JSON string is not forwarded at all. */
  function ForwardedAsWritten(httpMethod: string, path: string, headers: map<string, string>, body: string,
                              codec: Codec): (r: Result<Outgoing, Errors.AppError>)
    ensures r.Success?
    ensures r.value.httpMethod == httpMethod
    ensures r.value.path == Normalize.NormalizePath(path)
    ensures forall k :: k in r.value.headers ==>
              && k !in ProxyHeaders
              && exists h :: h in headers && Normalize.NormalizeHeaderName(h) == k && r.value.headers[k] == Trim(headers[h])
    ensures forall h :: h in headers && Normalize.NormalizeHeaderName(h) !in ProxyHeaders
                        ==> Normalize.NormalizeHeaderName(h) in r.value.headers
    ensures (body == [] || codec.parse(body).None?) ==> r.value.body == (if ForwardsBody(httpMethod, body) then Some(body) else None)
    ensures body != [] && codec.parse(body).Some? && codec.parse(body).value.Str? ==>
              var text := Normalize.NormalizeString(codec.parse(body).value.s);
              r.value.body == (if ForwardsBody(httpMethod, text) then Some(text) else None)
    ensures body != [] && codec.parse(body).Some? && !codec.parse(body).value.Str? ==> r.value.body == None
  {
    NormalizedRequestFields(httpMethod, path, headers, body, codec);
    ForwardedHeaders(httpMethod, path, headers, body, codec);
    ForwardedBody(httpMethod, path, headers, body, codec);
    PrepareFetch(Normalized(httpMethod, path, headers, body, codec))
  }

  /** The server's JSON request after `normalize_request`. */
  function Normalized(httpMethod: string, path: string, headers: map<string, string>, body: string,
                      codec: Codec): Json
  {
    Normalize.NormalizeRequest(RequestJson(httpMethod, path, headers, body), codec).value
  }

  /** The headers sent are the normalised names that are not proxy
      headers, each with the trimmed value of a header of that name. */
  lemma ForwardedHeaders(httpMethod: string, path: string, headers: map<string, string>, body: string,
                         codec: Codec)
    ensures PrepareFetch(Normalized(httpMethod, path, headers, body, codec)).Success?
    ensures var out := PrepareFetch(Normalized(httpMethod, path, headers, body, codec)).value.headers;
            && (forall k :: k in out ==>
                  && k !in ProxyHeaders
                  && exists h :: h in headers && Normalize.NormalizeHeaderName(h) == k && out[k] == Trim(headers[h]))
            && (forall h :: h in headers && Normalize.NormalizeHeaderName(h) !in ProxyHeaders
                            ==> Normalize.NormalizeHeaderName(h) in out)
  {
    var n := Normalized(httpMethod, path, headers, body, codec);
    NormalizedRequestFields(httpMethod, path, headers, body, codec);
    var nh := Normalize.NormalizeHeaderMap(StrValues(headers));
    ExtractHeadersOfObject(n, nh);
    assert PrepareFetch(n).value.headers == FilterHeaders(StringMembers(nh));
    SentHeaders(headers);
  }

  lemma ExtractHeadersOfObject(request: Json, members: map<string, Json>)
    requires Index(request, "headers") == Obj(members)
    ensures ExtractHeaders(request) == StringMembers(members)
  {
  }

  /** The string-valued entries of a JSON object, as `extract_headers`
      keeps them. */
  function StringMembers(members: map<string, Json>): (r: map<string, string>)
    ensures forall k :: k in r <==> k in members && members[k].Str?
    ensures forall k :: k in r ==> members[k] == Str(r[k])
  {
    map k | k in members && members[k].Str? :: members[k].s
  }

  /** The header pipeline on its own: normalise, keep strings, filter. */
  lemma SentHeaders(headers: map<string, string>)
    ensures var out := FilterHeaders(StringMembers(Normalize.NormalizeHeaderMap(StrValues(headers))));
            && (forall k :: k in out ==>
                  && k !in ProxyHeaders
                  && exists h :: h in headers && Normalize.NormalizeHeaderName(h) == k && out[k] == Trim(headers[h]))
            && (forall h :: h in headers && Normalize.NormalizeHeaderName(h) !in ProxyHeaders
                            ==> Normalize.NormalizeHeaderName(h) in out)
  {
    var nh := Normalize.NormalizeHeaderMap(StrValues(headers));
    var out := FilterHeaders(StringMembers(nh));
    NormalizedHeaderStrings(headers);
    NormalizedNamesLower(headers);
    forall k | k in out
      ensures k !in ProxyHeaders
      ensures exists h :: h in headers && Normalize.NormalizeHeaderName(h) == k && out[k] == Trim(headers[h])
    {
      var h :| h in headers && Normalize.NormalizeHeaderName(h) == k && nh[k].s == Trim(headers[h]);
      assert ToLower(k) == k;
    }
    forall h | h in headers && Normalize.NormalizeHeaderName(h) !in ProxyHeaders
      ensures Normalize.NormalizeHeaderName(h) in out
    {
      var k := Normalize.NormalizeHeaderName(h);
      assert h in StrValues(headers);
      assert k in nh;
      assert ToLower(k) == k;
    }
  }

  /** The body sent: the raw text when it is not JSON, the normalised
      string when it is a JSON string, and nothing for any other JSON. */
  lemma ForwardedBody(httpMethod: string, path: string, headers: map<string, string>, body: string, codec: Codec)
    ensures PrepareFetch(Normalized(httpMethod, path, headers, body, codec)).Success?
    ensures var sent := PrepareFetch(Normalized(httpMethod, path, headers, body, codec)).value.body;
            && ((body == [] || codec.parse(body).None?) ==> sent == (if ForwardsBody(httpMethod, body) then Some(body) else None))
            && (body != [] && codec.parse(body).Some? && codec.parse(body).value.Str? ==>
                  var text := Normalize.NormalizeString(codec.parse(body).value.s);
                  sent == (if ForwardsBody(httpMethod, text) then Some(text) else None))
            && (body != [] && codec.parse(body).Some? && !codec.parse(body).value.Str? ==> sent == None)
  {
    NormalizedRequestFields(httpMethod, path, headers, body, codec);
  }

  /** The fields of the server's JSON request after `normalize_request`. */
  lemma NormalizedRequestFields(httpMethod: string, path: string, headers: map<string, string>, body: string,
                                codec: Codec)
    ensures var n := Normalize.NormalizeRequest(RequestJson(httpMethod, path, headers, body), codec).value;
            && Index(n, "httpMethod") == Str(httpMethod)
            && Index(n, "path") == Str(Normalize.NormalizePath(path))
            && Index(n, "body") == Normalize.NormalizeBody(body, codec)
            && Index(n, "headers") == Obj(Normalize.NormalizeHeaderMap(StrValues(headers)))
  {
    RequestKeysDistinct();
  }

  /** Every normalised header value of string headers is a string: the
      trimmed value of a header with that normalised name. */
  lemma NormalizedHeaderStrings(headers: map<string, string>)
    ensures var nh := Normalize.NormalizeHeaderMap(StrValues(headers));
            forall x :: x in nh ==> && nh[x].Str?
                                    && exists h :: h in headers && Normalize.NormalizeHeaderName(h) == x
                                                   && nh[x].s == Trim(headers[h])
  {
    var nh := Normalize.NormalizeHeaderMap(StrValues(headers));
    forall x | x in nh
      ensures nh[x].Str? && exists h :: h in headers && Normalize.NormalizeHeaderName(h) == x && nh[x].s == Trim(headers[h])
    {
      var h :| h in StrValues(headers) && Normalize.NormalizeHeaderName(h) == x
               && nh[x] == Normalize.NormalizeHeaderValue(StrValues(headers)[h]);
      StringHeaderValue(headers[h]);
    }
  }

  lemma StringHeaderValue(v: string)
    ensures Normalize.NormalizeHeaderValue(Str(v)) == Str(Trim(v))
  {
  }

  /** Normalised header names are already lower case. */
  lemma NormalizedNamesLower(headers: map<string, string>)
    ensures forall h :: h in headers ==> ToLower(Normalize.NormalizeHeaderName(h)) == Normalize.NormalizeHeaderName(h)
  {
    forall h | h in headers ensures ToLower(Normalize.NormalizeHeaderName(h)) == Normalize.NormalizeHeaderName(h) {
      Normalize.NormalizeHeaderNameIdempotent(h);
      ToLowerIdempotent(Trim(h));
    }
  }

  /** As written, a JSON object sent with `POST` reaches the upstream with
      no body, where the raw request would have carried it. */
  lemma JsonBodyDroppedAsWritten(path: string, headers: map<string, string>, v: Json, codec: Codec)
    requires RoundTrips(codec) && v.Obj? && codec.serialize(v) != []
    ensures ForwardedAsWritten("POST", path, headers, codec.serialize(v), codec).value.body == None
    ensures PrepareFetch(RequestJson("POST", path, headers, codec.serialize(v))).value.body == Some(codec.serialize(v))
  {
    PrepareFetchOfRequest("POST", path, headers, codec.serialize(v));
    assert ToUpper("POST") == "POST";
  }
}
