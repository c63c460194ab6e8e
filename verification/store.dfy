/** The tiered response store (`CacheStore`): metadata records in a DynamoDB
    table, large payloads as S3 objects, and the file-based variant used for
    local development. Each AWS service is a map plus an availability flag;
    the clock, chrono's timestamp range, serde_json and the RFC 3339
    rendering of the clock reading are the parameters gathered in `Env`. */
module Store {
  import opened Wrappers
  import opened Text
  import opened Decimal
  import opened Maps
  import opened JsonValue
  import Errors
  import CacheKeys

  // ---------------------------------------------------------------------------
  // State

  /** A DynamoDB attribute value: a string (`S`), a number kept as its
      decimal text (`N`), or any other kind. */
  datatype Attr = S(s: string) | N(n: string) | OtherAttr

  /** A DynamoDB item: attribute name to value. */
  type Item = map<string, Attr>

  /** The two AWS tiers: the metadata table keyed by `key_hash`, the blob
      bucket keyed by object key, and whether each service answers. A tier
      that is down fails every call made to it during the operation. */
  datatype Backend = Backend(meta: map<string, Item>, blobs: map<string, string>, metaUp: bool, blobUp: bool)

  /** A clock reading: whole seconds since the epoch and the nanoseconds
      past them. */
  datatype Instant = Instant(secs: int, nanos: nat)

  predicate ValidInstant(t: Instant) {
    t.nanos < 1_000_000_000
  }

  /** What the store reads from the world: the clock (`Utc::now()`), the
      epoch seconds chrono can represent as a `DateTime` (what
      `DateTime::from_timestamp` accepts and what date arithmetic may reach
      without panicking), serde_json's compact printer and parser, its pretty
      printer, and `Utc::now().to_rfc3339()`. */
  datatype Env = Env(now: Instant, representable: int -> bool, json: Codec, pretty: Json -> string, stamp: string)

  /** The pretty printer's output parses back to the value printed. */
  ghost predicate PrettyRoundTrips(env: Env) {
    forall v :: env.json.parse(env.pretty(v)) == Some(v)
  }

  /** The new state and the result of an operation on state `S`: a failing
      operation may still have changed the state. */
  datatype Outcome<S, T> = Outcome(state: S, result: Result<T, Errors.AppError>)

  /** Stands for the text of an AWS SDK error, which is not modelled. */
  const ServiceFailure: string := "service error"

  /** Attribute names of a metadata record. */
  lemma AttributeNamesDistinct()
    ensures "key_hash" != "s3_key" && "key_hash" != "ttl" && "key_hash" != "created_at" && "key_hash" != "response"
    ensures "s3_key" != "ttl" && "s3_key" != "created_at" && "s3_key" != "response"
    ensures "ttl" != "created_at" && "ttl" != "response" && "created_at" != "response"
  {
    assert "key_hash"[0] == 'k' && "s3_key"[0] == 's' && "ttl"[0] == 't';
    assert "created_at"[0] == 'c' && "response"[0] == 'r';
  }

  // ---------------------------------------------------------------------------
  // get

  /** `Utc::now() > ttl_datetime`: the clock is past second `ttl` by any
      fraction of a second. */
  predicate After(now: Instant, ttl: int) {
    now.secs > ttl || (now.secs == ttl && now.nanos > 0)
  }

  datatype TtlCheck = Live | Expired | BadTtl(error: Errors.AppError)

  /** The TTL check of `get`: only a numeric `ttl` attribute is looked at.
      Its text must parse as an `i64` and lie in chrono's range. */
  function CheckTtl(item: Item, env: Env): (r: TtlCheck)
    ensures r.BadTtl? ==> r.error.Cache?
    ensures ("ttl" !in item || !item["ttl"].N?) ==> r.Live?
  {
    if "ttl" in item && item["ttl"].N? then
      match ParseI64(item["ttl"].n)
      case None => BadTtl(Errors.Cache("Invalid TTL format"))
      case Some(t) =>
        if !env.representable(t) then BadTtl(Errors.Cache("Invalid TTL timestamp"))
        else if After(env.now, t) then Expired
        else Live
    else Live
  }

  /** A `ttl` written by `set` reads back as the second it names: the entry
      is expired exactly when the clock is past that second. */
  lemma CheckWrittenTtl(item: Item, env: Env, t: int)
    requires "ttl" in item && item["ttl"] == N(FormatInt(t))
    requires I64Min <= t <= I64Max && env.representable(t)
    ensures CheckTtl(item, env) == (if After(env.now, t) then Expired else Live)
  {
    ParseI64FormatInt(t);
  }

  /** `get_from_s3`: the object must exist and parse. (Objects are text, so
      the UTF-8 check cannot fail.) */
  function GetFromS3(b: Backend, s3Key: string, codec: Codec): (r: Result<Json, Errors.AppError>)
    ensures r.Success? <==> b.blobUp && s3Key in b.blobs && codec.parse(b.blobs[s3Key]).Some?
    ensures r.Success? ==> codec.parse(b.blobs[s3Key]) == Some(r.value)
    ensures r.Failure? && (!b.blobUp || s3Key !in b.blobs) ==> r.error.Aws?
    ensures r.Failure? && b.blobUp && s3Key in b.blobs ==> r.error == Errors.Cache("Failed to parse S3 response: ")
  {
    if !b.blobUp || s3Key !in b.blobs then Failure(Errors.Aws(ServiceFailure))
    else
      match codec.parse(b.blobs[s3Key])
      case None => Failure(Errors.Cache("Failed to parse S3 response: "))
      case Some(v) => Success(v)
  }

  /** The payload of a live record: the blob named by `s3_key` when that
      attribute is present (whatever else the record holds), else the
      inline `response`, else an error. */
  function ReadPayload(b: Backend, item: Item, codec: Codec): (r: Result<Json, Errors.AppError>)
    ensures "s3_key" in item && item["s3_key"].S? ==> r == GetFromS3(b, item["s3_key"].s, codec)
    ensures "s3_key" in item && !item["s3_key"].S? ==> r == Failure(Errors.Cache("Invalid S3 key format"))
    ensures "s3_key" !in item && "response" in item && !item["response"].S?
            ==> r == Failure(Errors.Cache("Invalid response format"))
    ensures "s3_key" !in item && "response" in item && item["response"].S?
            ==> (r.Success? <==> codec.parse(item["response"].s).Some?)
    ensures "s3_key" !in item && "response" in item && r.Success? ==> codec.parse(item["response"].s) == Some(r.value)
    ensures "s3_key" !in item && "response" !in item ==> r == Failure(Errors.Cache("No response data found"))
    ensures r.Failure? ==> r.error.Cache? || r.error.Aws?
  {
    if "s3_key" in item then
      if !item["s3_key"].S? then Failure(Errors.Cache("Invalid S3 key format"))
      else GetFromS3(b, item["s3_key"].s, codec)
    else if "response" in item then
      if !item["response"].S? then Failure(Errors.Cache("Invalid response format"))
      else
        match codec.parse(item["response"].s)
        case None => Failure(Errors.Cache("Failed to parse response: "))
        case Some(v) => Success(v)
    else Failure(Errors.Cache("No response data found"))
  }

  /** `get` on the AWS tiers. A missing record is a miss; an expired one is
      deleted and reported as a miss; otherwise the payload is read. Only a
      deletion changes the state. */
  function AwsGet(b: Backend, key: CacheKeys.CacheKey, env: Env): (r: Outcome<Backend, Option<Json>>)
    ensures !b.metaUp ==> r == Outcome(b, Failure(Errors.Aws(ServiceFailure)))
    ensures b.metaUp && CacheKeys.ToString(key) !in b.meta ==> r == Outcome(b, Success(None))
    ensures r.result.Success? && r.result.value.Some? ==> r.state == b
    ensures r.result.Success? && r.result.value.None? ==> CacheKeys.ToString(key) !in r.state.meta
    ensures r.result.Failure? ==> r.state == b && (r.result.error.Cache? || r.result.error.Aws?)
    ensures r.state.metaUp == b.metaUp && r.state.blobUp == b.blobUp
    ensures forall h :: h in r.state.meta ==> h in b.meta && r.state.meta[h] == b.meta[h]
    ensures r.state.blobs.Keys <= b.blobs.Keys
    ensures b.metaUp && CacheKeys.ToString(key) in b.meta && CheckTtl(b.meta[CacheKeys.ToString(key)], env).Live? ==>
              && r.state == b
              && r.result == match ReadPayload(b, b.meta[CacheKeys.ToString(key)], env.json)
                             case Success(v) => Success(Some(v))
                             case Failure(e) => Failure(e)
  {
    var hash := CacheKeys.ToString(key);
    if !b.metaUp then Outcome(b, Failure(Errors.Aws(ServiceFailure)))
    else if hash !in b.meta then Outcome(b, Success(None))
    else
      var item := b.meta[hash];
      match CheckTtl(item, env)
      case BadTtl(e) => Outcome(b, Failure(e))
      case Expired =>
        var d := Delete(b, key);
        Outcome(d.state, Success(None))
      case Live =>
        match ReadPayload(b, item, env.json)
        case Failure(e) => Outcome(b, Failure(e))
        case Success(v) => Outcome(b, Success(Some(v)))
  }

  /** An expired record is removed together with the blob it names (when
      the blob tier answers), and the lookup is a miss. */
  lemma GetExpiredDeletes(b: Backend, key: CacheKeys.CacheKey, env: Env)
    requires b.metaUp && CacheKeys.ToString(key) in b.meta
    requires CheckTtl(b.meta[CacheKeys.ToString(key)], env).Expired?
    ensures AwsGet(b, key, env) == Outcome(Delete(b, key).state, Success(None))
    ensures AwsGet(b, key, env).state.meta == b.meta - {CacheKeys.ToString(key)}
  {
  }

  /** A numeric `ttl` that is not an `i64` numeral is an error, not a miss. */
  lemma GetBadTtlFails(b: Backend, key: CacheKeys.CacheKey, env: Env)
    requires b.metaUp && CacheKeys.ToString(key) in b.meta
    requires var item := b.meta[CacheKeys.ToString(key)];
             "ttl" in item && item["ttl"].N? && ParseI64(item["ttl"].n).None?
    ensures AwsGet(b, key, env) == Outcome(b, Failure(Errors.Cache("Invalid TTL format")))
  {
  }

  // ---------------------------------------------------------------------------
  // delete

  /** The blob a record names, when its `s3_key` is a string. */
  function BlobOf(b: Backend, hash: string): Option<string> {
    if hash in b.meta && "s3_key" in b.meta[hash] && b.meta[hash]["s3_key"].S? then
      Some(b.meta[hash]["s3_key"].s)
    else None
  }

  /** `delete`: best-effort removal of the named blob (its failure is
      ignored), then removal of the record. Only the metadata tier's failure
      is reported; deleting an absent hash succeeds. */
  function Delete(b: Backend, key: CacheKeys.CacheKey): (r: Outcome<Backend, ()>)
    ensures r.result.Success? <==> b.metaUp
    ensures r.result.Failure? ==> r.state == b && r.result.error.Aws?
    ensures r.result.Success? ==> r.state.meta == b.meta - {CacheKeys.ToString(key)}
    ensures r.state.metaUp == b.metaUp && r.state.blobUp == b.blobUp
    ensures r.state.blobs.Keys <= b.blobs.Keys
    ensures forall k :: k in r.state.blobs ==> r.state.blobs[k] == b.blobs[k]
    ensures forall k :: k in b.blobs && k !in r.state.blobs ==> BlobOf(b, CacheKeys.ToString(key)) == Some(k)
    ensures r.result.Success? && b.blobUp && BlobOf(b, CacheKeys.ToString(key)).Some?
            ==> BlobOf(b, CacheKeys.ToString(key)).value !in r.state.blobs
  {
    var hash := CacheKeys.ToString(key);
    if !b.metaUp then Outcome(b, Failure(Errors.Aws(ServiceFailure)))
    else
      var blobs := if b.blobUp && BlobOf(b, hash).Some? then b.blobs - {BlobOf(b, hash).value} else b.blobs;
      Outcome(b.(meta := b.meta - {hash}, blobs := blobs), Success(()))
  }

  // ---------------------------------------------------------------------------
  // set_with_ttl

  /** `format!("responses/{}/{}", key_hash, ttl_timestamp)`. */
  function BlobKey(hash: string, ttl: int): string {
    "responses/" + hash + "/" + FormatInt(ttl)
  }

  /** The record of a payload kept in the table. */
  function InlineRecord(hash: string, body: string, ttl: int, stamp: string): Item {
    map["key_hash" := S(hash), "response" := S(body), "ttl" := N(FormatInt(ttl)), "created_at" := S(stamp)]
  }

  /** The record of a payload kept as a blob. */
  function BlobRecord(hash: string, s3Key: string, ttl: int, stamp: string): Item {
    map["key_hash" := S(hash), "s3_key" := S(s3Key), "ttl" := N(FormatInt(ttl)), "created_at" := S(stamp)]
  }

  /** The storing half of `set_with_ttl`, once the text and the expiry are
      known: a text longer (in UTF-8 bytes) than `maxBodySize` goes to a blob
      under `BlobKey` and the record points at it; otherwise the record holds
      the text. The record replaces any earlier one wholesale, and no blob is
      ever removed, so a blob the old record named is left behind. The blob
      is written first, so it stays even when the record cannot be written. */
  function PutResponse(b: Backend, hash: string, body: string, ttl: int, stamp: string, maxBodySize: nat)
    : (r: Outcome<Backend, ()>)
    ensures r.result.Success? <==> b.metaUp && (Utf8Len(body) <= maxBodySize || b.blobUp)
    ensures r.result.Failure? ==> r.result.error.Aws?
    ensures r.state.metaUp == b.metaUp && r.state.blobUp == b.blobUp
    ensures r.result.Success? && Utf8Len(body) > maxBodySize
            ==> hash in r.state.meta && r.state.meta[hash] == BlobRecord(hash, BlobKey(hash, ttl), ttl, stamp)
    ensures r.result.Success? && Utf8Len(body) <= maxBodySize
            ==> hash in r.state.meta && r.state.meta[hash] == InlineRecord(hash, body, ttl, stamp)
    ensures r.result.Failure? ==> r.state.meta == b.meta
    ensures forall h :: h in b.meta && h != hash ==> h in r.state.meta && r.state.meta[h] == b.meta[h]
    ensures r.state.meta.Keys <= b.meta.Keys + {hash}
    ensures b.blobs.Keys <= r.state.blobs.Keys <= b.blobs.Keys + {BlobKey(hash, ttl)}
    ensures forall k :: k in b.blobs && k != BlobKey(hash, ttl) ==> r.state.blobs[k] == b.blobs[k]
    ensures Utf8Len(body) > maxBodySize && b.blobUp
            ==> BlobKey(hash, ttl) in r.state.blobs && r.state.blobs[BlobKey(hash, ttl)] == body
    ensures Utf8Len(body) <= maxBodySize ==> r.state.blobs == b.blobs
  {
    if Utf8Len(body) > maxBodySize then
      var s3Key := BlobKey(hash, ttl);
      if !b.blobUp then Outcome(b, Failure(Errors.Aws(ServiceFailure)))
      else
        var b1 := b.(blobs := b.blobs[s3Key := body]);
        if !b.metaUp then Outcome(b1, Failure(Errors.Aws(ServiceFailure)))
        else Outcome(b1.(meta := b.meta[hash := BlobRecord(hash, s3Key, ttl, stamp)]), Success(()))
    else if !b.metaUp then Outcome(b, Failure(Errors.Aws(ServiceFailure)))
    else Outcome(b.(meta := b.meta[hash := InlineRecord(hash, body, ttl, stamp)]), Success(()))
  }

  /** `set_with_ttl` on the AWS tiers AS WRITTEN: the expiry is always one
      hour from now, whatever `ttlSeconds` asks for. */
  function AwsSetWithTtlAsWritten(b: Backend, key: CacheKeys.CacheKey, response: Json, ttlSeconds: Option<nat>,
                                  env: Env, maxBodySize: nat): (r: Outcome<Backend, ()>)
    requires env.representable(env.now.secs + 3600)
    ensures r.result.Success? ==> CacheKeys.ToString(key) in r.state.meta
    ensures r.result.Success? && CacheKeys.ToString(key) in r.state.meta ==>
              var item := r.state.meta[CacheKeys.ToString(key)];
              "ttl" in item && item["ttl"] == N(FormatInt(env.now.secs + 3600))
    ensures r.result.Success? <==> b.metaUp && (Utf8Len(env.json.serialize(response)) <= maxBodySize || b.blobUp)
  {
    AttributeNamesDistinct();
    PutResponse(b, CacheKeys.ToString(key), env.json.serialize(response), env.now.secs + 3600, env.stamp, maxBodySize)
  }

  /** The expiry `set_with_ttl` evidently means: `ttlSeconds` from now, or
      one hour when none is given (as the file variant computes it). */
  function ExpiryOf(now: Instant, ttlSeconds: Option<nat>): int {
    now.secs + ttlSeconds.GetOr(3600)
  }

  /** `set_with_ttl` on the AWS tiers, with the requested TTL honoured. */
  function AwsSetWithTtl(b: Backend, key: CacheKeys.CacheKey, response: Json, ttlSeconds: Option<nat>,
                         env: Env, maxBodySize: nat): (r: Outcome<Backend, ()>)
    requires env.representable(ExpiryOf(env.now, ttlSeconds))
    ensures r.result.Success? ==> CacheKeys.ToString(key) in r.state.meta
    ensures r.result.Success? && CacheKeys.ToString(key) in r.state.meta ==>
              var item := r.state.meta[CacheKeys.ToString(key)];
              "ttl" in item && item["ttl"] == N(FormatInt(ExpiryOf(env.now, ttlSeconds)))
    ensures r.result.Success? <==> b.metaUp && (Utf8Len(env.json.serialize(response)) <= maxBodySize || b.blobUp)
  {
    AttributeNamesDistinct();
    PutResponse(b, CacheKeys.ToString(key), env.json.serialize(response), ExpiryOf(env.now, ttlSeconds), env.stamp, maxBodySize)
  }

  /** Round trip: whatever tier the payload lands in, a lookup no later than
      the expiry second returns the value stored and changes nothing. */
  lemma SetThenGet(b: Backend, key: CacheKeys.CacheKey, v: Json, ttlSeconds: Option<nat>,
                   env: Env, later: Env, maxBodySize: nat)
    requires RoundTrips(env.json) && later.json == env.json && later.representable == env.representable
    requires b.metaUp && b.blobUp
    requires var t := ExpiryOf(env.now, ttlSeconds); I64Min <= t <= I64Max && env.representable(t)
    requires !After(later.now, ExpiryOf(env.now, ttlSeconds))
    ensures AwsSetWithTtl(b, key, v, ttlSeconds, env, maxBodySize).result.Success?
    ensures var s := AwsSetWithTtl(b, key, v, ttlSeconds, env, maxBodySize).state;
            AwsGet(s, key, later) == Outcome(s, Success(Some(v)))
  {
    var hash := CacheKeys.ToString(key);
    var t := ExpiryOf(env.now, ttlSeconds);
    var body := env.json.serialize(v);
    var s := AwsSetWithTtl(b, key, v, ttlSeconds, env, maxBodySize).state;
    AttributeNamesDistinct();
    var item := s.meta[hash];
    CheckWrittenTtl(item, later, t);
    if Utf8Len(body) > maxBodySize {
      assert item == BlobRecord(hash, BlobKey(hash, t), t, env.stamp);
      assert s.blobs[BlobKey(hash, t)] == body;
    } else {
      assert item == InlineRecord(hash, body, t, env.stamp);
    }
  }

  /** Once the clock is past the expiry second, the stored entry is a miss
      and its record is gone. */
  lemma SetThenGetExpired(b: Backend, key: CacheKeys.CacheKey, v: Json, ttlSeconds: Option<nat>,
                          env: Env, later: Env, maxBodySize: nat)
    requires later.representable == env.representable
    requires b.metaUp && b.blobUp
    requires var t := ExpiryOf(env.now, ttlSeconds); I64Min <= t <= I64Max && env.representable(t)
    requires After(later.now, ExpiryOf(env.now, ttlSeconds))
    ensures var s := AwsSetWithTtl(b, key, v, ttlSeconds, env, maxBodySize).state;
            AwsGet(s, key, later).result == Success(None)
            && CacheKeys.ToString(key) !in AwsGet(s, key, later).state.meta
  {
    var hash := CacheKeys.ToString(key);
    var t := ExpiryOf(env.now, ttlSeconds);
    var s := AwsSetWithTtl(b, key, v, ttlSeconds, env, maxBodySize).state;
    CheckWrittenTtl(s.meta[hash], later, t);
  }

  /** As written, a 60-second TTL is ignored: 61 seconds later the entry is
      still served. */
  lemma TtlIgnoredAsWritten(b: Backend, key: CacheKeys.CacheKey, v: Json, env: Env, later: Env, maxBodySize: nat)
    requires RoundTrips(env.json) && later.json == env.json && later.representable == env.representable
    requires b.metaUp && b.blobUp
    requires var t := env.now.secs + 3600; I64Min <= t <= I64Max && env.representable(t)
    requires later.now == Instant(env.now.secs + 61, 0)
    ensures var s := AwsSetWithTtlAsWritten(b, key, v, Some(60), env, maxBodySize).state;
            AwsGet(s, key, later).result == Success(Some(v))
  {
    assert AwsSetWithTtlAsWritten(b, key, v, Some(60), env, maxBodySize)
        == AwsSetWithTtl(b, key, v, None, env, maxBodySize);
    SetThenGet(b, key, v, None, env, later, maxBodySize);
  }

  /** With the TTL honoured, the same lookup 61 seconds later is a miss. */
  lemma TtlHonoured(b: Backend, key: CacheKeys.CacheKey, v: Json, env: Env, later: Env, maxBodySize: nat)
    requires later.representable == env.representable
    requires b.metaUp && b.blobUp
    requires var t := env.now.secs + 60; I64Min <= t <= I64Max && env.representable(t)
    requires later.now == Instant(env.now.secs + 61, 0)
    ensures var s := AwsSetWithTtl(b, key, v, Some(60), env, maxBodySize).state;
            AwsGet(s, key, later).result == Success(None)
  {
    SetThenGetExpired(b, key, v, Some(60), env, later, maxBodySize);
  }

  // ---------------------------------------------------------------------------
  // cleanup_expired

  /** The scan filter `ttl < :now`: a numeric `ttl` below `now`. (Only
      integer numerals are compared; the CleanupExpired entry of the
      README's "Left out" section says what this leaves out.) */
  predicate ScanSelects(item: Item, now: int) {
    && "ttl" in item && item["ttl"].N?
    && ParseInt(item["ttl"].n, true).Some? && ParseInt(item["ttl"].n, true).value < now
  }

  /** Whether the sweep deletes the item: selected by the scan, with a
      string `key_hash`. */
  predicate Swept(item: Item, now: int) {
    ScanSelects(item, now) && "key_hash" in item && item["key_hash"].S?
  }

  /** The key hashes the sweep deletes, in scan order. */
  function SweptHashes(meta: map<string, Item>, order: seq<string>, now: int): (r: seq<string>)
    requires forall i :: 0 <= i < |order| ==> order[i] in meta
    ensures |r| <= |order|
    decreases |order|
  {
    if |order| == 0 then []
    else
      var rest := SweptHashes(meta, order[1..], now);
      var item := meta[order[0]];
      if Swept(item, now) then [item["key_hash"].s] + rest else rest
  }

  /** Every record's `key_hash` attribute is the string it is filed under,
      as `set_with_ttl` writes it. */
  ghost predicate WellKeyed(meta: map<string, Item>) {
    forall h :: h in meta ==> "key_hash" in meta[h] && meta[h]["key_hash"] == S(h)
  }

  /** In a well-keyed table the sweep deletes exactly the records the scan
      selects, each once. */
  lemma {:induction false} SweptHashesExact(meta: map<string, Item>, order: seq<string>, now: int)
    requires WellKeyed(meta)
    requires forall i :: 0 <= i < |order| ==> order[i] in meta
    requires Distinct(order)
    ensures forall h :: h in SweptHashes(meta, order, now) <==> h in order && ScanSelects(meta[h], now)
    ensures Distinct(SweptHashes(meta, order, now))
    decreases |order|
  {
    if |order| > 0 {
      var rest := order[1..];
      DistinctTail(order);
      SweptHashesExact(meta, rest, now);
      ConsHeadIn(order);
      var rr := SweptHashes(meta, rest, now);
      if Swept(meta[order[0]], now) {
        assert SweptHashes(meta, order, now) == [order[0]] + rr;
        DistinctCons(order[0], rr);
      }
    }
  }

  lemma ConsHeadIn<T>(xs: seq<T>)
    requires |xs| > 0
    ensures forall x :: x in xs <==> x == xs[0] || x in xs[1..]
  {
    assert xs == [xs[0]] + xs[1..];
  }

  /** `cur` is `b` after deleting the records filed under the hashes in
      `done`, and nothing else. */
  ghost predicate SweptFrom(b: Backend, cur: Backend, done: seq<string>) {
    && cur.metaUp == b.metaUp && cur.blobUp == b.blobUp
    && (forall h :: h in cur.meta <==> h in b.meta && h !in done)
    && (forall h :: h in cur.meta ==> cur.meta[h] == b.meta[h])
    && cur.blobs.Keys <= b.blobs.Keys
    && (forall k :: k in cur.blobs ==> cur.blobs[k] == b.blobs[k])
  }

  lemma SweepStep(b: Backend, cur: Backend, done: seq<string>, h: string)
    requires b.metaUp && SweptFrom(b, cur, done)
    ensures SweptFrom(b, Delete(cur, CacheKeys.FromString(h).value).state, done + [h])
  {
  }

  /** `cleanup_expired` at epoch second `now`, with the scan visiting the
      records in `order`: every swept hash is deleted through `delete`, and
      the count of deletions is returned. A failing scan is an `Aws` error
      and changes nothing. */
  method CleanupExpired(b: Backend, now: int, order: seq<string>) returns (o: Outcome<Backend, nat>)
    requires Enumerates(order, b.meta.Keys)
    ensures !b.metaUp ==> o == Outcome(b, Failure(Errors.Aws(ServiceFailure)))
    ensures b.metaUp ==> o.result == Success(|SweptHashes(b.meta, order, now)|)
    ensures b.metaUp ==> forall h :: h in o.state.meta <==> h in b.meta && h !in SweptHashes(b.meta, order, now)
    ensures forall h :: h in o.state.meta ==> o.state.meta[h] == b.meta[h]
    ensures o.state.blobs.Keys <= b.blobs.Keys
    ensures forall k :: k in o.state.blobs ==> o.state.blobs[k] == b.blobs[k]
    ensures o.state.metaUp == b.metaUp && o.state.blobUp == b.blobUp
  {
    if !b.metaUp {
      return Outcome(b, Failure(Errors.Aws(ServiceFailure)));
    }
    var hashes := SweptHashes(b.meta, order, now);
    var cur := b;
    var count := 0;
    var i := 0;
    while i < |hashes|
      invariant 0 <= i <= |hashes| && count == i
      invariant SweptFrom(b, cur, hashes[..i])
    {
      var key := CacheKeys.FromString(hashes[i]).value;
      var d := Delete(cur, key);
      SweepStep(b, cur, hashes[..i], hashes[i]);
      assert hashes[..i + 1] == hashes[..i] + [hashes[i]];
      cur := d.state;
      count := count + 1;
      i := i + 1;
    }
    assert hashes[..i] == hashes;
    return Outcome(cur, Success(count));
  }

  /** After a sweep of a well-keyed table, the records left are exactly
      those the scan does not select. */
  lemma CleanupLeavesUnexpired(b: Backend, now: int, order: seq<string>, o: Outcome<Backend, nat>)
    requires WellKeyed(b.meta) && Enumerates(order, b.meta.Keys) && b.metaUp
    requires forall h :: h in o.state.meta <==> h in b.meta && h !in SweptHashes(b.meta, order, now)
    ensures forall h :: h in o.state.meta <==> h in b.meta && !ScanSelects(b.meta[h], now)
  {
    SweptHashesExact(b.meta, order, now);
  }

  // ---------------------------------------------------------------------------
  // The file-based variant

  /** `format!("{}/{}.json", ".dev-cache", key_hash)`. */
  function FilePath(hash: string): string {
    ".dev-cache/" + hash + ".json"
  }

  /** The file variant's expiry test: the document has an integer `ttl`
      (one that fits an `i64`) and the clock's second is past it. */
  predicate FileExpired(data: Json, now: Instant) {
    var t := JsonValue.Get(data, "ttl");
    t.Some? && AsI64(t.value).Some? && now.secs > AsI64(t.value).value
  }

  /** `get_from_file`: a missing file is a miss; the file must parse; an
      integer `ttl` the clock's second has passed deletes the file and
      misses; otherwise the document's `response` member is returned (`None`
      when it has none). File-system failures are not modelled. */
  function GetFromFile(files: map<string, string>, key: CacheKeys.CacheKey, env: Env)
    : (r: Outcome<map<string, string>, Option<Json>>)
    ensures FilePath(CacheKeys.ToString(key)) !in files ==> r == Outcome(files, Success(None))
    ensures r.result.Failure? ==> r.state == files && r.result.error == Errors.Cache("Failed to parse cache file: ")
    ensures r.state == files || r.state == files - {FilePath(CacheKeys.ToString(key))}
    ensures r.state != files ==> r.result == Success(None)
    ensures r.result.Success? && r.result.value.Some? ==>
              && FilePath(CacheKeys.ToString(key)) in files
              && env.json.parse(files[FilePath(CacheKeys.ToString(key))]).Some?
              && JsonValue.Get(env.json.parse(files[FilePath(CacheKeys.ToString(key))]).value, "response") == r.result.value
    ensures var p := FilePath(CacheKeys.ToString(key));
            p in files && env.json.parse(files[p]).None?
            ==> r == Outcome(files, Failure(Errors.Cache("Failed to parse cache file: ")))
    ensures var p := FilePath(CacheKeys.ToString(key));
            p in files && env.json.parse(files[p]).Some? && FileExpired(env.json.parse(files[p]).value, env.now)
            ==> r == Outcome(files - {p}, Success(None))
    ensures var p := FilePath(CacheKeys.ToString(key));
            p in files && env.json.parse(files[p]).Some? && !FileExpired(env.json.parse(files[p]).value, env.now)
            ==> r == Outcome(files, Success(JsonValue.Get(env.json.parse(files[p]).value, "response")))
  {
    var path := FilePath(CacheKeys.ToString(key));
    if path !in files then Outcome(files, Success(None))
    else
      match env.json.parse(files[path])
      case None => Outcome(files, Failure(Errors.Cache("Failed to parse cache file: ")))
      case Some(data) =>
        if FileExpired(data, env.now) then Outcome(files - {path}, Success(None))
        else Outcome(files, Success(JsonValue.Get(data, "response")))
  }

  /** `ttl_seconds as i64`: a `u64` above `i64::MAX` wraps to a negative
      number. */
  function WrapI64(n: nat): (r: int)
    requires n <= U64Max
    ensures I64Min <= r <= I64Max
    ensures n <= I64Max ==> r == n
    ensures n > I64Max ==> r == n - (U64Max + 1)
  {
    if n <= I64Max then n else n - (U64Max + 1)
  }

  /** What `Duration::seconds` accepts without panicking. */
  predicate DurationSeconds(secs: int) {
    -(I64Max / 1000) <= secs <= I64Max / 1000
  }

  /** The expiry the file variant writes: now plus the (wrapped) TTL. */
  function FileExpiry(now: Instant, ttlSeconds: nat): int
    requires ttlSeconds <= U64Max
  {
    now.secs + WrapI64(ttlSeconds)
  }

  /** The document the file variant writes. */
  function FileDocument(hash: string, response: Json, ttl: int, ttlSeconds: nat, stamp: string): Json {
    Obj(map["key" := Str(hash), "response" := response, "ttl" := IntValue(ttl),
            "ttl_seconds" := IntValue(ttlSeconds), "created_at" := Str(stamp)])
  }

  /** `set_to_file_with_ttl`: the TTL defaults to one hour; the document is
      pretty-printed into the key's file, replacing it. Both the duration
      and the date arithmetic must stay in chrono's range (it panics
      otherwise). */
  function SetToFileWithTtl(files: map<string, string>, key: CacheKeys.CacheKey, response: Json,
                            customTtl: Option<nat>, env: Env): (r: map<string, string>)
    requires customTtl.GetOr(3600) <= U64Max
    requires DurationSeconds(WrapI64(customTtl.GetOr(3600)))
    requires env.representable(FileExpiry(env.now, customTtl.GetOr(3600)))
    ensures r.Keys == files.Keys + {FilePath(CacheKeys.ToString(key))}
    ensures forall p :: p in files && p != FilePath(CacheKeys.ToString(key)) ==> r[p] == files[p]
    ensures r[FilePath(CacheKeys.ToString(key))]
            == env.pretty(FileDocument(CacheKeys.ToString(key), response, FileExpiry(env.now, customTtl.GetOr(3600)),
                                       customTtl.GetOr(3600), env.stamp))
  {
    var secs := customTtl.GetOr(3600);
    var hash := CacheKeys.ToString(key);
    files[FilePath(hash) := env.pretty(FileDocument(hash, response, FileExpiry(env.now, secs), secs, env.stamp))]
  }

  lemma FileKeysDistinct()
    ensures "ttl" != "response" && "ttl" != "key" && "ttl" != "ttl_seconds" && "ttl" != "created_at"
    ensures "response" != "key" && "response" != "ttl_seconds" && "response" != "created_at"
  {
    assert "ttl"[0] == 't' && "response"[0] == 'r' && "key"[0] == 'k' && "created_at"[0] == 'c';
    assert |"ttl"| == 3 && |"ttl_seconds"| == 11 && "ttl_seconds"[0] == 't';
  }

  /** Round trip for the file variant: up to and including the expiry second
      (whatever the fraction), the stored value comes back. */
  lemma FileSetThenGet(files: map<string, string>, key: CacheKeys.CacheKey, v: Json, customTtl: Option<nat>,
                       env: Env, later: Env)
    requires PrettyRoundTrips(env) && later.json == env.json
    requires customTtl.GetOr(3600) <= U64Max
    requires DurationSeconds(WrapI64(customTtl.GetOr(3600)))
    requires env.representable(FileExpiry(env.now, customTtl.GetOr(3600)))
    requires I64Min <= FileExpiry(env.now, customTtl.GetOr(3600)) <= I64Max
    requires later.now.secs <= FileExpiry(env.now, customTtl.GetOr(3600))
    ensures var f := SetToFileWithTtl(files, key, v, customTtl, env);
            GetFromFile(f, key, later) == Outcome(f, Success(Some(v)))
  {
    var hash := CacheKeys.ToString(key);
    var secs := customTtl.GetOr(3600);
    var doc := FileDocument(hash, v, FileExpiry(env.now, secs), secs, env.stamp);
    var f := SetToFileWithTtl(files, key, v, customTtl, env);
    assert later.json.parse(f[FilePath(hash)]) == Some(doc);
    FileKeysDistinct();
  }

  /** Past the expiry second the file is removed and the lookup misses. */
  lemma FileSetThenGetExpired(files: map<string, string>, key: CacheKeys.CacheKey, v: Json, customTtl: Option<nat>,
                              env: Env, later: Env)
    requires PrettyRoundTrips(env) && later.json == env.json
    requires customTtl.GetOr(3600) <= U64Max
    requires DurationSeconds(WrapI64(customTtl.GetOr(3600)))
    requires env.representable(FileExpiry(env.now, customTtl.GetOr(3600)))
    requires I64Min <= FileExpiry(env.now, customTtl.GetOr(3600)) <= I64Max
    requires later.now.secs > FileExpiry(env.now, customTtl.GetOr(3600))
    ensures var f := SetToFileWithTtl(files, key, v, customTtl, env);
            GetFromFile(f, key, later) == Outcome(f - {FilePath(CacheKeys.ToString(key))}, Success(None))
  {
    var hash := CacheKeys.ToString(key);
    var secs := customTtl.GetOr(3600);
    var doc := FileDocument(hash, v, FileExpiry(env.now, secs), secs, env.stamp);
    var f := SetToFileWithTtl(files, key, v, customTtl, env);
    assert later.json.parse(f[FilePath(hash)]) == Some(doc);
    FileKeysDistinct();
  }

  /** A TTL of `u64::MAX` seconds wraps to -1: the file is written already
      expired. */
  lemma FileMaxTtlWraps(now: Instant)
    ensures FileExpiry(now, U64Max) == now.secs - 1
  {
  }

  // ---------------------------------------------------------------------------
  // The store

  /** `CacheStore`: the file variant is selected by the table name
      `file-cache`; the AWS variant uses the backend and the blob
      threshold. */
  datatype CacheStore = CacheStore(tableName: string, maxBodySize: nat, backend: Backend, files: map<string, string>)

  predicate IsFileBased(store: CacheStore) {
    store.tableName == "file-cache"
  }

  /** `CacheStore::file_based()`: a 10 MiB threshold and AWS clients that
      are never used. Construction does not touch `.dev-cache/`, so the
      store sees whatever files earlier runs left there: `files`. */
  function FileBased(files: map<string, string>): (s: CacheStore)
    ensures IsFileBased(s) && s.files == files && s.maxBodySize == 10485760
  {
    CacheStore("file-cache", 10485760, Backend(map[], map[], false, false), files)
  }

  /** `get`: dispatches on the table name. */
  function Get(store: CacheStore, key: CacheKeys.CacheKey, env: Env): (r: Outcome<CacheStore, Option<Json>>)
    ensures IsFileBased(store) ==> r.state.backend == store.backend
                                   && r.state.files == GetFromFile(store.files, key, env).state
                                   && r.result == GetFromFile(store.files, key, env).result
    ensures !IsFileBased(store) ==> r.state.files == store.files
                                    && r.state.backend == AwsGet(store.backend, key, env).state
                                    && r.result == AwsGet(store.backend, key, env).result
    ensures r.state.tableName == store.tableName && r.state.maxBodySize == store.maxBodySize
  {
    if IsFileBased(store) then
      var o := GetFromFile(store.files, key, env);
      Outcome(store.(files := o.state), o.result)
    else
      var o := AwsGet(store.backend, key, env);
      Outcome(store.(backend := o.state), o.result)
  }

  /** What `set_with_ttl` needs of the clock and the TTL on each path. */
  predicate SetAllowed(store: CacheStore, ttlSeconds: Option<nat>, env: Env) {
    if IsFileBased(store) then
      && ttlSeconds.GetOr(3600) <= U64Max
      && DurationSeconds(WrapI64(ttlSeconds.GetOr(3600)))
      && env.representable(FileExpiry(env.now, ttlSeconds.GetOr(3600)))
    else env.representable(env.now.secs + 3600)
  }

  /** `set_with_ttl` as written: dispatches on the table name. The file path
      honours the requested TTL; the AWS path always stores an expiry one
      hour from now. */
  function SetWithTtl(store: CacheStore, key: CacheKeys.CacheKey, response: Json, ttlSeconds: Option<nat>, env: Env)
    : (r: Outcome<CacheStore, ()>)
    requires SetAllowed(store, ttlSeconds, env)
    ensures IsFileBased(store) ==> r.result.Success? && r.state.backend == store.backend
                                   && r.state.files == SetToFileWithTtl(store.files, key, response, ttlSeconds, env)
    ensures !IsFileBased(store) ==> r.state.files == store.files
    ensures !IsFileBased(store) && r.result.Success? ==>
              && CacheKeys.ToString(key) in r.state.backend.meta
              && "ttl" in r.state.backend.meta[CacheKeys.ToString(key)]
              && r.state.backend.meta[CacheKeys.ToString(key)]["ttl"] == N(FormatInt(env.now.secs + 3600))
    ensures r.state.tableName == store.tableName && r.state.maxBodySize == store.maxBodySize
  {
    if IsFileBased(store) then
      Outcome(store.(files := SetToFileWithTtl(store.files, key, response, ttlSeconds, env)), Success(()))
    else
      var o := AwsSetWithTtlAsWritten(store.backend, key, response, ttlSeconds, env, store.maxBodySize);
      Outcome(store.(backend := o.state), o.result)
  }

  /** What the corrected `set_with_ttl` needs of the clock and the TTL. */
  predicate SetIntendedAllowed(store: CacheStore, ttlSeconds: Option<nat>, env: Env) {
    if IsFileBased(store) then SetAllowed(store, ttlSeconds, env)
    else env.representable(ExpiryOf(env.now, ttlSeconds))
  }

  /** `set_with_ttl` with the AWS path corrected to honour the requested
      TTL, so that both paths store an expiry `ttlSeconds` from now. */
  function SetWithTtlIntended(store: CacheStore, key: CacheKeys.CacheKey, response: Json, ttlSeconds: Option<nat>,
                              env: Env): (r: Outcome<CacheStore, ()>)
    requires SetIntendedAllowed(store, ttlSeconds, env)
    ensures IsFileBased(store) ==> r == SetWithTtl(store, key, response, ttlSeconds, env)
    ensures !IsFileBased(store) ==> r.state.files == store.files
    ensures !IsFileBased(store) && r.result.Success? ==>
              && CacheKeys.ToString(key) in r.state.backend.meta
              && "ttl" in r.state.backend.meta[CacheKeys.ToString(key)]
              && r.state.backend.meta[CacheKeys.ToString(key)]["ttl"] == N(FormatInt(ExpiryOf(env.now, ttlSeconds)))
    ensures r.state.tableName == store.tableName && r.state.maxBodySize == store.maxBodySize
  {
    if IsFileBased(store) then SetWithTtl(store, key, response, ttlSeconds, env)
    else
      var o := AwsSetWithTtl(store.backend, key, response, ttlSeconds, env, store.maxBodySize);
      Outcome(store.(backend := o.state), o.result)
  }

  /** Without a TTL, the corrected dispatcher and the code agree. */
  lemma SetWithTtlIntendedAgreesWithoutTtl(store: CacheStore, key: CacheKeys.CacheKey, response: Json, env: Env)
    requires SetAllowed(store, None, env)
    ensures SetIntendedAllowed(store, None, env)
    ensures SetWithTtlIntended(store, key, response, None, env) == SetWithTtl(store, key, response, None, env)
  {
    if !IsFileBased(store) {
      assert AwsSetWithTtl(store.backend, key, response, None, env, store.maxBodySize)
          == AwsSetWithTtlAsWritten(store.backend, key, response, None, env, store.maxBodySize);
    }
  }

  /** `set`: `set_with_ttl` with no TTL, which on either path means an
      expiry one hour from now. */
  function Set(store: CacheStore, key: CacheKeys.CacheKey, response: Json, env: Env): (r: Outcome<CacheStore, ()>)
    requires SetAllowed(store, None, env)
    ensures IsFileBased(store) ==> r.result.Success?
                                   && r.state.files == SetToFileWithTtl(store.files, key, response, Some(3600), env)
    ensures !IsFileBased(store) && r.result.Success? ==>
              && CacheKeys.ToString(key) in r.state.backend.meta
              && "ttl" in r.state.backend.meta[CacheKeys.ToString(key)]
              && r.state.backend.meta[CacheKeys.ToString(key)]["ttl"] == N(FormatInt(env.now.secs + 3600))
  {
    SetWithTtl(store, key, response, None, env)
  }
}
