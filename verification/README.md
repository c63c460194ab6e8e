# dejafoo cache subsystem in Dafny

dejafoo is a caching proxy that sits in front of an upstream HTTP service.
This project models its cache subsystem as pure Dafny functions and proves
properties about them. The subsystem covers:

- **cache keys** (`CacheKeys`, `src/cache/key.rs`): header filtering and
  normalisation, path normalisation, body hashing, the SHA-256 preimage of
  the key, and the string form of a key;
- **the cache policy** (`Policy`, `src/cache/policy.rs`): `METHOD PATH`
  patterns, rule selection (exact key first, then the first pattern that
  matches), the per-rule settings and their global fallbacks, the
  `should_cache` decision, and the built-in default policy;
- **request and response normalisation** (`Normalize`,
  `src/proxy/normalize.rs`): header names and values, JSON bodies (nulls
  dropped, strings whitespace-collapsed), paths, sensitive-header stripping,
  and the cache headers added to a hit;
- **the tiered store** (`Store`, `src/cache/store.rs`): DynamoDB metadata
  records, S3 blobs for payloads over the size threshold, TTL expiry on
  read, `delete`, the `cleanup_expired` sweep, and the file-based variant
  used for local development;
- **the development server's pure parts** (`DevServer`, `src/main.rs`):
  `--port` parsing, subdomain extraction from `host`, the HTTP request
  parser, and the response formatter;
- **the upstream client's pure parts** (`Fetch`, `src/proxy/fetch.rs`):
  reading the request fields, filtering proxy headers, and deciding when a
  body is forwarded;
- **errors** (`Errors`, `src/utils/errors.rs`): `AppError`, its display
  text, the helper constructors, and error contexts.

Supporting modules:

- `Wrappers`: `Option` and `Result`.
- `Text`: ASCII case mapping, Rust's `trim`, `split_whitespace` and
  `lines`, `find`, `split` and `join`.
- `Decimal`: integer parsing and formatting at Rust's integer widths.
- `Maps`: insertion folds, and enumeration of a map's keys in an order.
- `StringOrder`: lexicographic order.
- `JsonValue`: the JSON value, and a serializer/parser pair treated as a
  parameter.
- `SeqFacts`: sequence lemmas.

What the model takes as parameters:

- **Hash-map iteration order.** A Rust `HashMap` iterates in no fixed order.
  Wherever the result could depend on that order, it is an explicit
  parameter `order`, constrained by `Maps.Enumerates(order, keys)`. The
  properties that matter are proved for every order.
- **serde_json objects** are `BTreeMap`s and iterate in key order; the
  model does the same.
- **SHA-256** is a function parameter `sha`. The hex-digest shape of its
  output is an assumption named `HexDigests`.
- **The clock and the serializer.** The clock reading, chrono's
  representable timestamps, serde_json's compact and pretty printers and
  its parser, and the RFC 3339 stamp are gathered in `Store.Env`.
- **AWS services** are maps, each with an availability flag.

## Model

| member | source | states |
|---|---|---|
| Errors.Display | src/utils/errors.rs:35-48 | the text starts with the variant's fixed prefix, and the message follows it unchanged |
| Errors.ParseDisplay | src/utils/errors.rs:35-48 | every error it recovers displays back as the text it was read from |
| Errors.ParseDisplayRoundTrip | src/utils/errors.rs:35-48 | reading an error's display text back gives the same variant and message; no prefix shadows another |
| Errors.DisplayInjective | src/utils/errors.rs:35-48 | two errors with the same display text are the same error |
| Errors.HelpersDisplay | src/utils/errors.rs:113-151 | each helper builds its namesake variant around the message unchanged, as the tests at lines 266-275 expect |
| Errors.NewContext | src/utils/errors.rs:161-169 | a new context keeps the operation and the details, stamped with the caller's clock |
| Errors.WithOperation | src/utils/errors.rs:171-174 | a context with only an operation has `Null` details |
| Errors.WithDetails | src/utils/errors.rs:176-180 | only the details are replaced; the operation and the timestamp are kept |
| Errors.ContextualDisplay | src/utils/errors.rs:208-212 | the error's own display comes first, then the operation and the rendered details in parentheses |
| Errors.ContextualDisplayRecoversError | src/utils/errors.rs:208-212 | read as a plain error display, a contextual display still names the wrapped variant |
| CacheKeys.NormalizeHeaderValue | src/cache/key.rs:86-88 | the value is the trimmed input with every character lowercased, position by position; it has no edge whitespace and is no longer than the input |
| CacheKeys.NormalizeHeaderValueIdempotent | src/cache/key.rs:86-88 | normalising a header value twice changes nothing more |
| CacheKeys.HeaderFold | src/cache/key.rs:69-80 | a lowercased name is present exactly when it is not excluded and some header has that lowercase; its value comes from the last such header in iteration order |
| CacheKeys.NormalizeHeaders | src/cache/key.rs:52-83 | the result's names are the lowercased names minus the excluded list; each value comes from a header with that name |
| CacheKeys.CanonicalHeaders | src/cache/key.rs:52-83 | order-free reference definition: when no two names differ only in case, every non-excluded name maps, lowercased, to its own normalised value |
| CacheKeys.NormalizeHeadersCanonical | src/cache/key.rs:52-83 | for headers whose names are distinct ignoring case, the normalised headers do not depend on the hash-map iteration order |
| CacheKeys.ExcludedHeaderInvisible | src/cache/key.rs:56-80 | adding an excluded header under any spelling, with any value, leaves the normalised headers as they are without it |
| CacheKeys.ExcludedHeaderIgnored | src/cache/key.rs:56-80 | the same for the order-free definition |
| CacheKeys.NormalizePath | src/cache/key.rs:91-107 | the result has no `?`; it is the trimmed path cut at its first `?`, less one trailing `/` unless that leaves it empty |
| CacheKeys.NormalizePathIgnoresQuery | src/cache/key.rs:95-100 | a query string never changes the key path |
| CacheKeys.HashBody | src/cache/key.rs:110-118 | an empty body gives the literal `empty`; any other body gives its digest |
| CacheKeys.HashBodyEmptyIff | src/cache/key.rs:110-118 | the body hash is `empty` exactly when the body is empty; any other body hash is a 64-digit lower-case hex digest |
| CacheKeys.GenerateKeyHash | src/cache/key.rs:121-159 | the key hash is the digest of the preimage, and it is a 64-digit lower-case hex digest whenever the hash function yields one |
| CacheKeys.Preimage | src/cache/key.rs:121-159 | the hashed text starts with the lowercased subdomain, the upper-cased method and the path, each followed by NUL, and ends with the body hash |
| CacheKeys.HeaderReachesPreimage | src/cache/key.rs:144-153 | adding a header under a new name lengthens the hashed text by that pair's name, value, colon and NUL, so the text hashed changes |
| CacheKeys.PairsLenPermutation | src/cache/key.rs:144-153 | two listings of the same header names without repeats give header blocks of the same length |
| CacheKeys.New | src/cache/key.rs:21-49 | key creation never fails; it stores the upper-cased method, the normalised path, the normalised headers and the body hash; the key hash is SHA-256 of the preimage |
| CacheKeys.NewOrderIndependent | src/cache/key.rs:145-153 | the whole key is the same for every iteration order of the header map |
| CacheKeys.NewIgnoresExcludedHeader | src/cache/key.rs:52-83 | adding an excluded header leaves the whole key, hash included, unchanged |
| CacheKeys.ExcludedValueIrrelevant | src/cache/key.rs:56-67 | two requests that differ only in an excluded header's value (two `Authorization` tokens, say) get the same key |
| CacheKeys.SubdomainCaseFolded | src/cache/key.rs:131-134 | subdomains that differ only in case give the same key hash |
| CacheKeys.RawPathIsHashed | src/cache/key.rs:40-44 | `/a/` and `/a` share a key path but hash different preimages, because the hash is fed the raw path |
| CacheKeys.ToString | src/cache/key.rs:162-164 | a key's string form is its hash |
| CacheKeys.FromString | src/cache/key.rs:167-177 | parsing never fails; it keeps the string as the hash and fills the other fields with `UNKNOWN` and no headers |
| CacheKeys.StringRoundTrip | src/cache/key.rs:162-177 | string to key to string gives back the string; key to string to key keeps the hash |
| Policy.MatchesPattern | src/cache/policy.rs:156-181 | a pattern without a space never matches; a match has method part `*` or the request method, compared ignoring case |
| Policy.ExactPatternMatches | src/cache/policy.rs:156-181 | a `METHOD PATH` pattern with a literal path matches exactly when the method is `*` or equal ignoring case, and the path is equal |
| Policy.PrefixPatternMatches | src/cache/policy.rs:156-181 | a `METHOD prefix*` pattern matches exactly the requests whose method is `METHOD` (in any case, or any method for `*`) and whose path starts with the prefix; every other path is rejected, as the test at line 295 expects |
| Policy.ExactKeyMatches | src/cache/policy.rs:138-153 | a request's own `METHOD PATH` key, used as a pattern, matches it |
| Policy.FirstMatch | src/cache/policy.rs:146-150 | the first matching rule in scan order, or none exactly when no rule matches |
| Policy.GetEndpointPolicy | src/cache/policy.rs:138-153 | an exact `METHOD PATH` rule wins; otherwise some rule is found exactly when one matches; the rule found is always an exact key or a matching pattern |
| Policy.SelectionOrderIndependent | src/cache/policy.rs:138-153 | the rule chosen does not depend on hash-map order when there is an exact rule or at most one matching pattern |
| Policy.UniqueCandidateSelected | src/cache/policy.rs:138-153 | when exactly one rule is a candidate, that rule is chosen |
| Policy.GetTtl | src/cache/policy.rs:67-73 | the selected rule's TTL, or the global default when no rule is selected or the rule has none |
| Policy.GetMaxBodySize | src/cache/policy.rs:76-82 | the selected rule's size limit, or the global one |
| Policy.GetHeadersToVary | src/cache/policy.rs:85-91 | the selected rule's vary list, or the global one |
| Policy.IsEndpointCacheable | src/cache/policy.rs:128-135 | the selected rule's flag; without a rule, exactly the `GET` requests, in any case |
| Policy.NoRuleUsesDefaults | src/cache/policy.rs:67-135 | when no rule applies, all four settings fall back to the global values |
| Policy.ScanHeaders | src/cache/policy.rs:104-115 | true exactly when some header forbids caching |
| Policy.ShouldCache | src/cache/policy.rs:94-125 | cache exactly when the status allows it, no `cache-control` header (under any spelling of the name) has a string value containing `no-cache` or `no-store`, and a string body is within the size limit |
| Policy.Default | src/cache/policy.rs:184-221 | the default policy: one hour, 10 MiB, and exactly the rules `GET /api/users` and `POST *` |
| Policy.DefaultUsers | src/cache/policy.rs:189-198 | under the default policy `GET /api/users` is cacheable for 300 s, up to 1 MiB, in every scan order |
| Policy.DefaultPostNotCacheable | src/cache/policy.rs:200-209 | under the default policy no `POST` is cacheable, on any path |
| Policy.DefaultGetUnknown | src/cache/policy.rs:211-220 | an unlisted `GET` falls back to cacheable, for one hour |
| Normalize.NormalizeString | src/proxy/normalize.rs:144-156 | the result is the whitespace-separated words joined by single spaces; it has no edge or doubled whitespace |
| Normalize.CollapseIsJoin | src/proxy/normalize.rs:148-149 | on trimmed text, collapsing each whitespace run to a space is the same as joining the words with spaces |
| Normalize.ReplacementsIdle | src/proxy/normalize.rs:152-153 | the carriage-return replacements never change single-spaced text, so they are dead code |
| Normalize.SplitJoin | src/proxy/normalize.rs:144-156 | joining words with spaces and splitting on whitespace gives the words back |
| Normalize.NormalizeStringIdempotent | src/proxy/normalize.rs:144-156 | normalising a string twice changes nothing more |
| Normalize.NormalizeJson | src/proxy/normalize.rs:109-141 | the value keeps its kind; a string becomes its normalised string; array element i becomes the normalised element i; objects lose exactly their null members and every kept member holds the normalised value; other scalars are kept |
| Normalize.NormalizeJsonIdempotent | src/proxy/normalize.rs:109-141 | normalising a JSON value twice changes nothing more |
| Normalize.NormalizeBody | src/proxy/normalize.rs:93-106 | an empty body stays an empty string; a body that does not parse stays its text; a parsed body is normalised |
| Normalize.NormalizeBodyOfSerialized | src/proxy/normalize.rs:93-106 | a serialized JSON body normalises to the normalised value itself |
| Normalize.NormalizeHeaderName | src/proxy/normalize.rs:71-73 | the name is the trimmed input with every character lowercased, position by position |
| Normalize.NormalizeHeaderNameIdempotent | src/proxy/normalize.rs:71-73 | the name has no edge whitespace and no upper-case letter, and normalising it again changes nothing |
| Normalize.NormalizeHeaderValue | src/proxy/normalize.rs:76-90 | a string is trimmed and keeps its letter case; an array is normalised element by element; any other value is kept |
| Normalize.NormalizeHeaderValueIdempotent | src/proxy/normalize.rs:76-90 | normalising a header value twice changes nothing more |
| Normalize.NormalizeHeaderMap | src/proxy/normalize.rs:14-24 | every header lands under its normalised name, and every normalised name comes from some header |
| Normalize.NormalizeHeaderMapWinner | src/proxy/normalize.rs:17-21 | when several names normalise alike, the one last in key order supplies the value |
| Normalize.NormalizePath | src/proxy/normalize.rs:159-183 | the result starts with `/` and has no `?` or `#` |
| Normalize.NormalizeFixedPath | src/proxy/normalize.rs:159-183 | an already normalised path without edge whitespace or a trailing `/` is left alone |
| Normalize.NormalizePathIdempotent | src/proxy/normalize.rs:159-183 | normalising twice changes nothing more whenever the first result is `/` or ends in neither `/` nor whitespace |
| Normalize.NormalizePathNotIdempotent | src/proxy/normalize.rs:172-175 | in general normalising twice is not the same as once: `p//` and `p ?` need a second pass |
| Normalize.NormalizeSlashEnded | src/proxy/normalize.rs:172-175 | one trailing slash is removed |
| Normalize.NormalizeCutPath | src/proxy/normalize.rs:162-170 | a query or fragment is cut off |
| Normalize.NormalizeRelativePath | src/proxy/normalize.rs:177-180 | a relative path gains a leading `/` |
| Normalize.NormalizeRootPath | src/proxy/normalize.rs:172-175 | `/` is kept |
| Normalize.NormalizeRequest | src/proxy/normalize.rs:10-41 | never fails; keeps the member names; normalises object `headers`, string `body` and string `path`, and nothing else |
| Normalize.NormalizeResponse | src/proxy/normalize.rs:44-68 | never fails; normalises object `headers` and string `body`, and nothing else |
| Normalize.RequestIsResponsePlusPath | src/proxy/normalize.rs:10-68 | request normalisation is response normalisation followed by path normalisation |
| Normalize.StripSensitiveHeaders | src/proxy/normalize.rs:186-203 | exactly the ten sensitive names, matched exactly, are removed; the other entries are kept |
| Normalize.StripSensitiveIdempotent | src/proxy/normalize.rs:186-203 | stripping twice removes nothing more |
| Normalize.AddCacheHeaders | src/proxy/normalize.rs:206-212 | adds `cache-control: public, max-age=N`, `x-cache: HIT` and `x-cache-ttl: N`, with N written in plain decimal (`3600`, as the test at line 309 expects) so that it parses back to N; other entries are kept |
| Store.CheckTtl | src/cache/store.rs:127-140 | only a numeric `ttl` attribute is checked; a bad one is a Cache error |
| Store.CheckWrittenTtl | src/cache/store.rs:127-138 | a TTL written as a decimal reads back: the entry is expired exactly when the clock is past that second |
| Store.GetFromS3 | src/cache/store.rs:253-271 | succeeds exactly when the blob tier answers, the object exists and parses; the value is what it parses to |
| Store.ReadPayload | src/cache/store.rs:143-156 | `s3_key` takes precedence over `response`; each malformed or missing case has its own Cache error |
| Store.AwsGet | src/cache/store.rs:103-159 | a missing record is a miss; a live record is answered from its payload (the value, or the payload's own Cache or Aws error) with the state unchanged; a hit or a failure leaves the state alone; a miss leaves no record for the key; no record or blob is ever added |
| Store.GetExpiredDeletes | src/cache/store.rs:134-137 | an expired record is deleted and the lookup is a miss |
| Store.Delete | src/cache/store.rs:214-250 | the record is removed exactly when the table answers; the only blob that may go is the one the record named |
| Store.PutResponse | src/cache/store.rs:180-208 | an oversized payload goes to a blob under `responses/<hash>/<ttl>` and the record points at it; otherwise the record holds the payload; other records and blobs are untouched |
| Store.AwsSetWithTtlAsWritten | src/cache/store.rs:166-211 | as written, the stored expiry is always now plus one hour |
| Store.AwsSetWithTtl | src/cache/store.rs:166-211 | corrected: the stored expiry is now plus the requested TTL, or one hour without one; it succeeds exactly when the needed tiers answer |
| Store.SetThenGet | src/cache/store.rs:103-211 | whichever tier the payload lands in, a lookup up to the expiry second returns the stored value and changes nothing |
| Store.SetThenGetExpired | src/cache/store.rs:127-137 | after the expiry second the lookup misses and the record is gone |
| Store.TtlIgnoredAsWritten | src/cache/store.rs:176-178 | as written, an entry stored with a 60 s TTL is still served 61 s later |
| Store.TtlHonoured | src/cache/store.rs:176-178 | corrected, the same entry is a miss 61 s later |
| Store.SweptHashes | src/cache/store.rs:296-316 | the sweep deletes at most one key per scanned record |
| Store.SweptHashesExact | src/cache/store.rs:299-313 | the keys swept are exactly the scanned records whose numeric TTL is below now, each once |
| Store.CleanupExpired | src/cache/store.rs:291-320 | returns the number of swept records; exactly those records are removed; the rest, and every remaining blob, are unchanged |
| Store.CleanupLeavesUnexpired | src/cache/store.rs:299-312 | after a sweep, the records left are exactly those the scan filter does not select |
| Store.GetFromFile | src/cache/store.rs:323-363 | a missing file is a miss; an unparsable file is a Cache error and changes nothing; an expired document deletes the key's file and misses; a live document changes nothing and returns its `response` member |
| Store.WrapI64 | src/cache/store.rs:380 | `u64` to `i64` keeps values up to `i64::MAX` and wraps larger ones |
| Store.SetToFileWithTtl | src/cache/store.rs:367-401 | exactly the key's file is written, holding the pretty-printed document with the expiry; other files are untouched |
| Store.FileSetThenGet | src/cache/store.rs:323-401 | round trip for the file variant: up to the expiry second the stored value comes back |
| Store.FileSetThenGetExpired | src/cache/store.rs:348-357 | after the expiry second the file is deleted and the lookup misses |
| Store.FileMaxTtlWraps | src/cache/store.rs:379-381 | a TTL of `u64::MAX` seconds wraps to an expiry one second in the past |
| Store.FileBased | src/cache/store.rs:24-40 | the file-based store is selected by its table name, sees the `.dev-cache` files already present, and has a 10 MiB threshold |
| Store.Get | src/cache/store.rs:103-107 | the file variant touches only files and the AWS variant only the backend; each answers, and leaves the state (an expired entry deleted), as its own `get` does |
| Store.SetWithTtl | src/cache/store.rs:166-178 | the file variant always succeeds, touches only files and writes the file for the requested TTL; the AWS variant touches only the backend and, whatever TTL is requested, stores an expiry one hour from now |
| Store.SetWithTtlIntended | src/cache/store.rs:166-178 | corrected: the file variant is unchanged, and the AWS variant stores an expiry the requested TTL from now |
| Store.SetWithTtlIntendedAgreesWithoutTtl | src/cache/store.rs:162-164 | without a TTL the corrected and the written `set_with_ttl` agree, so `set` is unaffected by the finding |
| Store.Set | src/cache/store.rs:162-164 | without a TTL, both variants store an expiry one hour from now |
| DevServer.PortFrom | src/main.rs:91-98 | from argument i on: any port found lies in 0..65535; when the first `--port` with a successor is at k, the result is the `u16` parse of argument k+1; with no such `--port`, there is no port |
| DevServer.ParsePort | src/main.rs:91-98 | the `u16` parse of the argument after the first `--port` that has one, and no port when there is none |
| DevServer.ParsePortFirst | src/main.rs:91-98 | the value after the first `--port` that has a successor decides, even if it does not parse |
| DevServer.ParsePortAbsent | src/main.rs:91-98 | with no `--port` followed by an argument, there is no port |
| DevServer.ParsePortOfFormat | src/main.rs:315-320 | `program --port N` gives back N for every port N |
| DevServer.SplitCount | src/main.rs:109 | splitting on a character gives one part more than its occurrences |
| DevServer.ExtractSubdomain | src/main.rs:101-116 | a subdomain exists exactly when `host` is present, does not start with `localhost` and has at least two dots; it is the first label, lowercased |
| DevServer.HeaderField | src/main.rs:142-149 | a line yields a field exactly when it has a colon; name and value are trimmed and the name has no colon |
| DevServer.FirstBlank | src/main.rs:137-141 | the index of the first empty line, or none when no line is empty |
| DevServer.HeaderFields | src/main.rs:142-149 | a field is collected exactly when some line yields it, and there are no more fields than lines |
| DevServer.HeaderFieldsAppend | src/main.rs:142-149 | the fields of two blocks of lines are the fields of the first followed by those of the second |
| DevServer.ParseLines | src/main.rs:118-166 | fails exactly on no lines or a request line with fewer than three words, with those two messages; method and path are the first two words; the headers are the fields of the lines between the request line and the first blank line, inserted in order; the body follows the first blank line |
| DevServer.ParseHttpRequestAsWritten | src/main.rs:118-166 | as written: without a blank line the whole request text becomes the body |
| DevServer.ParseHttpRequest | src/main.rs:118-166 | corrected: without a blank line the body is empty; every failure is an Http error |
| DevServer.ParseMessage | src/main.rs:118-166 | a well-formed message parses back to its method, path, header fields (the last of a repeated name wins) and body; both versions agree on it |
| DevServer.RequestLineAloneAsWritten | src/main.rs:135 | as written, a bare request line parses with itself as the body |
| DevServer.RequestLineAlone | src/main.rs:154-158 | corrected, a bare request line parses with no headers and an empty body |
| DevServer.StatusText | src/main.rs:265-274 | the phrase is `OK` exactly for 200 and every unlisted code; the six other listed codes get phrases of their own |
| DevServer.FormatResponse | src/main.rs:264-290 | the text starts with the status line and ends with the blank line and the body |
| DevServer.FormatResponseTail | src/main.rs:284-287 | `Connection: close` is the last header before the body |
| DevServer.ResponseReadsBack | src/main.rs:264-290 | the formatted response, read by the request parser, gives back every header and the body, plus `Content-Length` and `Connection` |
| Fetch.ExtractHeaders | src/proxy/fetch.rs:111-123 | exactly the string-valued members of `headers`, unchanged; nothing when `headers` is not an object |
| Fetch.ExtractHeadersOfRequest | src/proxy/fetch.rs:111-123 | the headers of a request the server builds read back as the original map |
| Fetch.FilterHeaders | src/proxy/fetch.rs:144-170 | an entry is kept, unchanged, exactly when its lowercased name is not a proxy header |
| Fetch.FilterHeadersIdempotent | src/proxy/fetch.rs:144-170 | filtering twice removes nothing more |
| Fetch.FilterHeadersDropsProxyHeaders | src/proxy/fetch.rs:144-170 | no spelling of a proxy header survives |
| Fetch.ForwardsBodyIgnoresCase | src/proxy/fetch.rs:78-80 | whether a body is sent does not depend on the method's case |
| Fetch.PrepareFetch | src/proxy/fetch.rs:51-80 | a missing method or path fails with its own Proxy error, checked in that order; otherwise method, path and filtered headers go upstream, with the body exactly when it is non-empty and the method is not `GET` |
| Fetch.PrepareFetchOfRequest | src/main.rs:173-185 | read directly, without normalisation, the JSON request the server builds gives its own method, path, filtered headers and body rule |
| Fetch.ForwardedAsWritten | src/main.rs:187-188 | as written, the upstream gets the normalised request: the method unchanged, the normalised path, the trimmed lowercase header names that are not proxy headers with trimmed values, the raw body when it is not JSON, the whitespace-collapsed string when it is a JSON string, and no body for any other JSON |
| Fetch.ForwardedHeaders | src/proxy/normalize.rs:14-24 | every header sent is a normalised name outside the proxy list with the trimmed value of a header of that name, and every such name is sent |
| Fetch.ForwardedBody | src/proxy/fetch.rs:58 | the body sent after normalisation: raw text, a normalised JSON string, or nothing |
| Fetch.JsonBodyDroppedAsWritten | src/main.rs:232 | as written, a `POST` whose body is a JSON object reaches the upstream with no body, where the raw request carries it |

## Left out

- **AWS SDK, S3 and file-system I/O.**
  - Each service is a map with an availability flag.
  - A service fails for a whole operation or not at all.
  - Partial failure in the middle of a paginated scan is not modelled.
  - File-system errors of the file variant (creating the directory,
    reading, writing) are not modelled.
  - The text of foreign errors (AWS, serde_json, I/O) is kept only as the
    fixed prefix that `format!` puts in front of it.
- **`CacheStore::new`** (store.rs:43-64) loads the AWS configuration and
  environment variables; that is configuration I/O.
- **`generate_key` and `generate_key_with_subdomain`** (store.rs:67-87) are
  not members of their own. They return `CacheKey::new` and
  `CacheKey::new_with_subdomain` unchanged, and both are `CacheKeys.New`
  (with no subdomain and with one). `main.rs` builds every key through the
  second.
- **`generate_key_with_subdomain_and_ttl`** (store.rs:89-100) calls
  `CacheKey::new_with_subdomain_and_ttl`, which `key.rs` does not define, so
  this wrapper has no behaviour to model.
- **`CachePolicy::load_from_config` and `load_from_file`** (policy.rs:32-65):
  environment and file I/O.
- **The request pipeline.** `process_request`, `handle_connection` and `main`
  in `src/main.rs`, and the Lambda handler in `src/handler.rs`. They
  orchestrate the modelled parts over sockets and AWS. Likewise the
  4096-byte socket read and the `from_utf8_lossy` decoding. Only the step
  that hands the normalised request to the upstream client is modelled
  (`Fetch.ForwardedAsWritten`).
- **Logging** (`src/utils/logging.rs` and the `log::` calls).
- **Concurrency.** Every operation is a single sequential step.
- **`build_upstream_url`, method parsing and the network exchange in
  `fetch`** (fetch.rs:60-107). They use the environment, the `url` crate and
  reqwest. `Fetch.PrepareFetch` therefore succeeds on requests the source
  would reject for a bad URL or method.
- **The `From` conversions into `AppError`** (errors.rs:56-111). They wrap
  foreign error text.
- **`ContextualError::new`, `with_operation` and `with_details`**
  (errors.rs:190-206). They are plain field assignments, and
  `Errors.WithDetails` covers the context half.
- **The unused parts of the response types.** The `methods` field of an
  endpoint rule is carried but never read. `HttpResponse`'s `method`, `path`
  and `upstream_url` fields are never written to the socket, so
  `DevServer.HttpResponse` omits them.
- **Unicode.** Case mapping is ASCII only. Whitespace follows Rust's full
  `char::is_whitespace` list. Rust's `len()` is the UTF-8 byte length
  (`Text.Utf8Len`). `lines()` follows current Rust: a line ends at `\n`,
  and one `\r` before it is dropped.
- **Store.CleanupExpired:** DynamoDB's `ttl < :now` filter compares
  numbers. The model compares only integer numerals, which are the only
  kind `set` writes.
- **Store.Delete and Store.CleanupExpired:** like the source, they do not
  branch on the file-based variant. They work on the AWS backend only; the
  file-based store's dummy clients are modelled as unavailable.
- **Normalize.NormalizeJson:** its key sort is the identity here. serde_json
  objects already iterate in key order, so the rebuilt object is the same
  map.
- Store.SetToFileWithTtl, Store.SetAllowed, Store.SetIntendedAllowed,
  Store.AwsSetWithTtl and Store.AwsSetWithTtlAsWritten require the expiry to
  be a timestamp chrono can represent (`DurationSeconds`,
  `env.representable`). The source panics instead: `Duration::seconds` out
  of range and the overflowing `Utc::now() + …` (store.rs:177, 379). The
  model does not describe the panic.
- **Fetch.ForwardedAsWritten** stops where the URL is built. With the
  normalised headers, `build_upstream_url` (fetch.rs:126-141) finds
  `x-upstream-url` under any spelling; that lookup is not modelled.

## Behaviour of the code a reader may not expect

The model follows the code in each of these:

- The key hash is fed the raw path, not the normalised one
  (`CacheKeys.RawPathIsHashed`).
- Path normalisation is idempotent only on the results characterised by
  `Normalize.NormalizePathIdempotent`. `Normalize.NormalizePathNotIdempotent`
  shows the inputs where a second pass changes the result.
- The development server takes the subdomain from the lowercase `host` key
  only.
- The two store variants treat the expiry second differently. The AWS
  variant expires an entry once the clock is past the expiry second by any
  fraction (`Utc::now() > ttl_datetime`). The file variant compares whole
  seconds.
- The file variant casts the TTL with `as i64`, so `u64::MAX` wraps
  (`Store.FileMaxTtlWraps`).
- `normalize_string_value`'s carriage-return replacements never fire,
  because the whitespace collapse has already removed every `\r`
  (`Normalize.ReplacementsIdle`).
- The integration test `test_cache_key_consistency`
  (tests/integration/test_cache_flow.rs:168-184) expects two requests that
  differ only in `Authorization` to hash differently. The code excludes that
  header, and `CacheKeys.ExcludedValueIrrelevant` proves the keys are equal.

## Findings

| source | as written | input that shows it | evidently intended | confidence | as-written member | corrected member |
|---|---|---|---|---|---|---|
| src/cache/store.rs:166-178 | `set_with_ttl` on the AWS tiers ignores `ttl_seconds` and always writes an expiry one hour from now | `set_with_ttl(key, v, Some(60))`, then `get` 61 seconds later, returns the entry | expiry = now + `ttl_seconds`, or one hour when none is given, as the file variant computes it at line 379 | not executed | Store.SetWithTtl, Store.AwsSetWithTtlAsWritten, Store.TtlIgnoredAsWritten | Store.SetWithTtlIntended, Store.AwsSetWithTtl, Store.TtlHonoured |
| src/main.rs:135,154-158 | `body_start` starts at 0, so a request with no blank line gets its entire text, request line included, as the body | `"GET /x HTTP/1.1"` parses with body `"GET /x HTTP/1.1"` | no blank line means no body | not executed | DevServer.ParseHttpRequestAsWritten, DevServer.RequestLineAloneAsWritten | DevServer.ParseHttpRequest, DevServer.RequestLineAlone |
| src/main.rs:187-188,232 | `process_request` passes the normalised request to `fetch_upstream`; `normalize_request` turns a JSON body into a JSON value, and `fetch` reads the body with `as_str()`, so an object or array body becomes empty | `POST /x` with body `{"a":1}` is forwarded with no body | forward the request as received, the normalised form being the cache's view only (`normalize_request` is documented as normalising "for caching", normalize.rs:9) | not executed | Fetch.ForwardedAsWritten, Fetch.JsonBodyDroppedAsWritten | Fetch.PrepareFetchOfRequest |
