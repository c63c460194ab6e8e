/** Request fingerprinting (`CacheKey`): header filtering and normalisation,
    path normalisation, the body digest, and the byte string fed to SHA-256.
    SHA-256 itself is the parameter `sha`; every property below is about
    what is fed to it, so none relies on the hash being collision-free. */
module CacheKeys {
  import opened Wrappers
  import opened Text
  import opened Maps
  import opened StringOrder
  import Errors

  /** Header names that never take part in a cache key. */
  const ExcludedHeaders: seq<string> := [
    "authorization", "x-forwarded-for", "x-real-ip", "x-forwarded-proto",
    "x-forwarded-host", "user-agent", "accept-encoding", "connection",
    "cache-control", "pragma"
  ]

  datatype CacheKey = CacheKey(
    httpMethod: string,
    path: string,
    normalizedHeaders: map<string, string>,
    bodyHash: string,
    keyHash: string)

  /** What `format!("{:x}", Sha256::digest(..))` always yields: 64 lower-case
      hexadecimal digits. */
  predicate IsHexDigest(d: string) {
    |d| == 64 && forall i :: 0 <= i < |d| ==> ('0' <= d[i] <= '9' || 'a' <= d[i] <= 'f')
  }

  ghost predicate HexDigests(sha: string -> string) {
    forall s :: IsHexDigest(sha(s))
  }

  // ---------------------------------------------------------------------------
  // Header normalisation

  /** Trimmed and lower-cased. */
  function NormalizeHeaderValue(v: string): (r: string)
    ensures |r| <= |v|
    ensures |r| == |Trim(v)| && forall i :: 0 <= i < |r| ==> r[i] == LowerChar(Trim(v)[i])
    ensures r == [] || (!IsWhitespace(r[0]) && !IsWhitespace(r[|r| - 1]))
    ensures ToLower(r) == r
  {
    var t := Trim(v);
    var r := ToLower(t);
    assert forall i :: 0 <= i < |t| ==> (IsWhitespace(r[i]) <==> IsWhitespace(t[i]));
    ToLowerIdempotent(t);
    r
  }

  lemma NormalizeHeaderValueIdempotent(v: string)
    ensures NormalizeHeaderValue(NormalizeHeaderValue(v)) == NormalizeHeaderValue(v)
  {
    var r := NormalizeHeaderValue(v);
    TrimOfTrimmed(r);
  }

  /** Index of the last name in `order` that lower-cases to `x`, or -1. */
  function LastLower(order: seq<string>, x: string): (j: int)
    ensures -1 <= j < |order|
    ensures j >= 0 ==> ToLower(order[j]) == x
    ensures forall i :: j < i < |order| ==> ToLower(order[i]) != x
  {
    if |order| == 0 then -1
    else if ToLower(order[|order| - 1]) == x then |order| - 1
    else LastLower(order[..|order| - 1], x)
  }

  /** The headers loop in iteration order `order`: every name is lower-cased,
      excluded names are skipped, and a later name with the same lower-case
      form overwrites an earlier one. */
  function HeaderFold(headers: map<string, string>, order: seq<string>): (r: map<string, string>)
    requires forall i :: 0 <= i < |order| ==> order[i] in headers
    ensures forall x :: x in r <==> x !in ExcludedHeaders && LastLower(order, x) >= 0
    ensures forall x :: x in r ==> r[x] == NormalizeHeaderValue(headers[order[LastLower(order, x)]])
    decreases |order|
  {
    if |order| == 0 then map[]
    else
      var m := HeaderFold(headers, order[..|order| - 1]);
      var k := order[|order| - 1];
      if ToLower(k) in ExcludedHeaders then m else m[ToLower(k) := NormalizeHeaderValue(headers[k])]
  }

  /** `normalize_headers`, for a `HashMap` that iterates its keys in `order`:
      the names are the lower-cased input names that are not excluded, and
      each value is the normalised value of the last input name, in
      iteration order, with that lower-case form. */
  function NormalizeHeaders(headers: map<string, string>, order: seq<string>): (r: map<string, string>)
    requires Enumerates(order, headers.Keys)
    ensures forall x :: x in r <==> x !in ExcludedHeaders && exists k :: k in headers && ToLower(k) == x
    ensures forall x :: x in r ==> var j := LastLower(order, x);
              0 <= j < |order| && r[x] == NormalizeHeaderValue(headers[order[j]])
  {
    var r := HeaderFold(headers, order);
    forall x | x !in ExcludedHeaders && (exists k :: k in headers && ToLower(k) == x) ensures x in r {
      var k :| k in headers && ToLower(k) == x;
      assert k in order;
      var i :| 0 <= i < |order| && order[i] == k;
    }
    forall x | x in r ensures exists k :: k in headers && ToLower(k) == x {
      assert order[LastLower(order, x)] in headers;
    }
    r
  }

  /** No two header names differ only in letter case. */
  ghost predicate CaseDistinct(headers: map<string, string>) {
    forall a, b :: a in headers && b in headers && ToLower(a) == ToLower(b) ==> a == b
  }

  /** The normalised headers, defined without any iteration order: possible
      only when no two names collide after lower-casing. */
  function CanonicalHeaders(headers: map<string, string>): (r: map<string, string>)
    requires CaseDistinct(headers)
    ensures forall x :: x in r <==> x !in ExcludedHeaders && exists k :: k in headers && ToLower(k) == x
    ensures forall k :: k in headers && ToLower(k) in r ==> r[ToLower(k)] == NormalizeHeaderValue(headers[k])
  {
    map k | k in headers && ToLower(k) !in ExcludedHeaders :: ToLower(k) := NormalizeHeaderValue(headers[k])
  }

  /** Without case-variant duplicates the result does not depend on the
      iteration order: every order gives the canonical map. */
  lemma NormalizeHeadersCanonical(headers: map<string, string>, order: seq<string>)
    requires CaseDistinct(headers)
    requires Enumerates(order, headers.Keys)
    ensures NormalizeHeaders(headers, order) == CanonicalHeaders(headers)
  {
    var r := NormalizeHeaders(headers, order);
    var c := CanonicalHeaders(headers);
    CanonicalKeys(headers, order);
    forall x | x in r ensures r[x] == c[x] {
      CanonicalValue(headers, order, x);
    }
    MapExtensional(r, c);
  }

  lemma CanonicalKeys(headers: map<string, string>, order: seq<string>)
    requires CaseDistinct(headers)
    requires Enumerates(order, headers.Keys)
    ensures NormalizeHeaders(headers, order).Keys == CanonicalHeaders(headers).Keys
  {
    var r := NormalizeHeaders(headers, order);
    var c := CanonicalHeaders(headers);
    forall x ensures x in r <==> x in c {
    }
  }

  lemma CanonicalValue(headers: map<string, string>, order: seq<string>, x: string)
    requires CaseDistinct(headers)
    requires Enumerates(order, headers.Keys)
    requires x in NormalizeHeaders(headers, order)
    ensures x in CanonicalHeaders(headers)
    ensures NormalizeHeaders(headers, order)[x] == CanonicalHeaders(headers)[x]
  {
    var j := LastLower(order, x);
    var k := order[j];
    assert k in order;
    assert k in headers && ToLower(k) == x;
  }

  /** A header whose lower-cased name is excluded is invisible: the result is
      the same as for the map without it, iterated in the same order. */
  lemma ExcludedHeaderInvisible(headers: map<string, string>, order: seq<string>, k: string, v: string)
    requires ToLower(k) in ExcludedHeaders
    requires Enumerates(order, headers[k := v].Keys)
    ensures Enumerates(Remove(order, k), (headers - {k}).Keys)
    ensures NormalizeHeaders(headers[k := v], order) == NormalizeHeaders(headers - {k}, Remove(order, k))
  {
    assert (headers - {k}).Keys == headers[k := v].Keys - {k};
    RemoveEnumerates(order, headers[k := v].Keys, k);
    HeaderFoldSkips(headers[k := v], headers - {k}, order, k);
  }

  lemma HeaderFoldSkips(h1: map<string, string>, h2: map<string, string>, order: seq<string>, k: string)
    requires ToLower(k) in ExcludedHeaders
    requires forall i :: 0 <= i < |order| ==> order[i] in h1
    requires forall x :: x in h2 <==> x in h1 && x != k
    requires forall x :: x in h2 ==> h2[x] == h1[x]
    ensures forall i :: 0 <= i < |Remove(order, k)| ==> Remove(order, k)[i] in h2
    ensures HeaderFold(h1, order) == HeaderFold(h2, Remove(order, k))
  {
    var ro := Remove(order, k);
    assert forall i :: 0 <= i < |ro| ==> ro[i] in h2 by {
      forall i | 0 <= i < |ro| ensures ro[i] in h2 { assert ro[i] in ro; }
    }
    var a := HeaderFold(h1, order);
    var b := HeaderFold(h2, ro);
    forall x ensures (x in a <==> x in b) && (x in a ==> a[x] == b[x]) {
      if x !in ExcludedHeaders {
        LastLowerRemove(order, k, x);
      }
    }
    MapExtensional(a, b);
  }

  /** Removing a name that lower-cases to something other than `x` keeps
      the last name for `x`. */
  lemma {:induction false} LastLowerRemove(xs: seq<string>, k: string, x: string)
    requires ToLower(k) != x
    ensures (LastLower(Remove(xs, k), x) >= 0) == (LastLower(xs, x) >= 0)
    ensures LastLower(xs, x) >= 0 ==> Remove(xs, k)[LastLower(Remove(xs, k), x)] == xs[LastLower(xs, x)]
    decreases |xs|
  {
    if |xs| > 0 {
      var init := xs[..|xs| - 1];
      var last := xs[|xs| - 1];
      assert xs == init + [last];
      RemoveSnoc(init, last, k);
      var ri := Remove(init, k);
      var rx := Remove(xs, k);
      LastLowerRemove(init, k, x);
      if ToLower(last) == x {
        assert last != k;
        assert rx == ri + [last];
        assert LastLower(xs, x) == |xs| - 1;
        assert LastLower(rx, x) == |rx| - 1;
      } else {
        assert LastLower(xs, x) == LastLower(init, x);
        if last == k {
          assert rx == ri;
        } else {
          assert rx == ri + [last];
          assert rx[..|rx| - 1] == ri;
          assert LastLower(rx, x) == LastLower(ri, x);
        }
      }
    }
  }

  lemma {:induction false} RemoveSnoc(xs: seq<string>, y: string, x: string)
    ensures Remove(xs + [y], x) == Remove(xs, x) + (if y == x then [] else [y])
    decreases |xs|
  {
    if |xs| == 0 {
      assert xs + [y] == [y];
      assert [y][1..] == [];
    } else {
      assert (xs + [y])[1..] == xs[1..] + [y];
      RemoveSnoc(xs[1..], y, x);
    }
  }

  /** With no case-variant duplicates, an excluded header cannot change the
      normalised headers, whatever its value and whatever the order. */
  lemma ExcludedHeaderIgnored(headers: map<string, string>, k: string, v: string)
    requires ToLower(k) in ExcludedHeaders
    requires CaseDistinct(headers[k := v])
    ensures CaseDistinct(headers - {k})
    ensures CanonicalHeaders(headers[k := v]) == CanonicalHeaders(headers - {k})
  {
    var h1 := headers[k := v];
    var h2 := headers - {k};
    var c1 := CanonicalHeaders(h1);
    var c2 := CanonicalHeaders(h2);
    forall x ensures x in c1 <==> x in c2 {
      if x in c1 {
        var k' :| k' in h1 && ToLower(k') == x;
        assert k' != k;
        assert k' in h2;
      }
      if x in c2 {
        var k' :| k' in h2 && ToLower(k') == x;
        assert k' in h1;
      }
    }
    forall x | x in c1 ensures c1[x] == c2[x] {
      var k' :| k' in h2 && ToLower(k') == x;
      assert k' in h1 && h1[k'] == h2[k'];
    }
    MapExtensional(c1, c2);
  }

  // ---------------------------------------------------------------------------
  // Path and body

  /** The text before the first `?`. */
  function BeforeQuery(p: string): (r: string)
    ensures '?' !in r
    ensures StartsWith(p, r)
    ensures r == p || p[|r|] == '?'
  {
    match Find(p, '?')
    case None => p
    case Some(i) => p[..i]
  }

  /** `CacheKey::normalize_path`: trimmed, the query cut off, and one trailing
      `/` dropped unless the path is just `/`. It neither strips a fragment
      nor adds a leading `/`. */
  function NormalizePath(path: string): (r: string)
    ensures '?' !in r
    ensures var q := BeforeQuery(Trim(path));
            (r == q && (|q| <= 1 || q[|q| - 1] != '/')) || (|q| > 1 && q == r + "/")
  {
    var q := BeforeQuery(Trim(path));
    // `len()` counts bytes; a string ending in `/` has byte length above 1
    // exactly when it has more than one character.
    if |q| > 1 && q[|q| - 1] == '/' then
      assert q == q[..|q| - 1] + "/";
      q[..|q| - 1]
    else q
  }

  /** The query string never reaches the key's path. */
  lemma NormalizePathIgnoresQuery(p: string, query: string)
    requires '?' !in p
    requires p != [] && !IsWhitespace(p[0]) && !IsWhitespace(p[|p| - 1])
    requires query == [] || !IsWhitespace(query[|query| - 1])
    ensures NormalizePath(p + "?" + query) == NormalizePath(p)
  {
    var s := p + "?" + query;
    assert s[0] == p[0];
    assert !IsWhitespace(s[|s| - 1]);
    TrimOfTrimmed(s);
    TrimOfTrimmed(p);
    assert s[..|p|] == p;
    FindFirst(s, |p|, '?');
    assert BeforeQuery(s) == p;
  }

  /** `hash_body`: the literal `empty` for an empty body, else the digest. */
  function HashBody(body: string, sha: string -> string): (r: string)
    ensures body == [] ==> r == "empty"
    ensures body != [] ==> r == sha(body)
  {
    if body == [] then "empty" else sha(body)
  }

  /** `empty` is not a hex digest, so the digest of a body tells empty and
      non-empty bodies apart. */
  lemma HashBodyEmptyIff(body: string, sha: string -> string)
    requires HexDigests(sha)
    ensures HashBody(body, sha) == "empty" <==> body == []
    ensures body != [] ==> IsHexDigest(HashBody(body, sha))
  {
    if body != [] {
      assert IsHexDigest(sha(body));
      assert "empty"[1] == 'm';
    }
  }

  // ---------------------------------------------------------------------------
  // The hash preimage

  /** `name:value\0` for each header, in the order of `names`. */
  function HeaderBytes(names: seq<string>, headers: map<string, string>): string
    requires forall i :: 0 <= i < |names| ==> names[i] in headers
    decreases |names|
  {
    if |names| == 0 then ""
    else names[0] + ":" + headers[names[0]] + "\0" + HeaderBytes(names[1..], headers)
  }

  /** The optional subdomain, lower-cased and NUL-terminated. */
  function SubdomainBytes(subdomain: Option<string>): string {
    match subdomain
    case None => ""
    case Some(s) => ToLower(s) + "\0"
  }

  /** Everything `generate_key_hash` feeds the hasher, in order: subdomain,
      upper-cased httpMethod, raw path, header pairs sorted by name, body digest.
      Feeding pieces one by one hashes their concatenation, and UTF-8
      encoding is injective, so hashing this string is hashing those bytes. */
  function Preimage(httpMethod: string, path: string, headers: map<string, string>,
                    bodyHash: string, subdomain: Option<string>): (r: string)
    ensures StartsWith(r, SubdomainBytes(subdomain) + ToUpper(httpMethod) + "\0" + path + "\0")
    ensures EndsWith(r, bodyHash)
  {
    var names := SortedOf(headers.Keys);
    var prefix := SubdomainBytes(subdomain) + ToUpper(httpMethod) + "\0" + path + "\0";
    var r := prefix + HeaderBytes(names, headers) + bodyHash;
    assert r[..|prefix|] == prefix;
    assert r[|r| - |bodyHash|..] == bodyHash;
    r
  }

  /** The length of the header block: each pair adds its name, its value,
      the colon and the NUL. */
  function PairsLen(names: seq<string>, headers: map<string, string>): nat
    requires forall i :: 0 <= i < |names| ==> names[i] in headers
    decreases |names|
  {
    if |names| == 0 then 0 else |names[0]| + |headers[names[0]]| + 2 + PairsLen(names[1..], headers)
  }

  lemma {:induction false} HeaderBytesLength(names: seq<string>, headers: map<string, string>)
    requires forall i :: 0 <= i < |names| ==> names[i] in headers
    ensures |HeaderBytes(names, headers)| == PairsLen(names, headers)
    decreases |names|
  {
    if |names| > 0 {
      HeaderBytesLength(names[1..], headers);
    }
  }

  /** Taking one name out of the list takes its pair's length out. */
  lemma {:induction false} PairsLenRemove(names: seq<string>, headers: map<string, string>, j: nat)
    requires forall i :: 0 <= i < |names| ==> names[i] in headers
    requires j < |names|
    ensures PairsLen(names, headers)
            == |names[j]| + |headers[names[j]]| + 2 + PairsLen(names[..j] + names[j + 1..], headers)
    decreases j
  {
    if j > 0 {
      var tail := names[1..];
      PairsLenRemove(tail, headers, j - 1);
      assert names[..j] + names[j + 1..] == [names[0]] + (tail[..j - 1] + tail[j..]);
    } else {
      assert names[..0] + names[1..] == names[1..];
    }
  }

  /** Two listings of the same names without repeats give the same length:
      the header block's length does not depend on the order of the pairs. */
  lemma {:induction false} PairsLenPermutation(a: seq<string>, b: seq<string>, headers: map<string, string>)
    requires forall x :: x in a <==> x in b
    requires Distinct(a) && Distinct(b)
    requires forall x :: x in a ==> x in headers
    ensures PairsLen(a, headers) == PairsLen(b, headers)
    decreases |a|
  {
    if |a| > 0 {
      assert a[0] in a;
      var j :| 0 <= j < |b| && b[j] == a[0];
      var b' := b[..j] + b[j + 1..];
      PairsLenRemove(b, headers, j);
      DistinctTail(a);
      DropDistinct(b, j);
      forall x ensures x in a[1..] <==> x in b' {
        assert x in a <==> x == a[0] || x in a[1..];
        assert x in b <==> x == b[j] || x in b';
      }
      PairsLenPermutation(a[1..], b', headers);
    }
  }

  /** Dropping one element of a list without repeats leaves a list without
      repeats that no longer holds it. */
  lemma DropDistinct(b: seq<string>, j: nat)
    requires Distinct(b) && j < |b|
    ensures Distinct(b[..j] + b[j + 1..]) && b[j] !in b[..j] + b[j + 1..]
  {
    var r := b[..j] + b[j + 1..];
    forall p, q | 0 <= p < q < |r| ensures r[p] != r[q] {
      var p' := if p < j then p else p + 1;
      var q' := if q < j then q else q + 1;
      assert r[p] == b[p'] && r[q] == b[q'];
    }
    forall p | 0 <= p < |r| ensures r[p] != b[j] {
      var p' := if p < j then p else p + 1;
      assert r[p] == b[p'];
    }
  }

  /** Names other than `k` keep their values when `k` is added. */
  lemma {:induction false} PairsLenFrame(names: seq<string>, headers: map<string, string>, k: string, v: string)
    requires forall i :: 0 <= i < |names| ==> names[i] in headers && names[i] != k
    ensures PairsLen(names, headers[k := v]) == PairsLen(names, headers)
    decreases |names|
  {
    if |names| > 0 {
      PairsLenFrame(names[1..], headers, k, v);
    }
  }

  /** Every header reaches the hash: adding a header under a new name
      lengthens the preimage by that header's pair, so the text hashed is
      not the same. */
  lemma HeaderReachesPreimage(httpMethod: string, path: string, headers: map<string, string>,
                              k: string, v: string, bodyHash: string, subdomain: Option<string>)
    requires k !in headers
    ensures |Preimage(httpMethod, path, headers[k := v], bodyHash, subdomain)|
            == |Preimage(httpMethod, path, headers, bodyHash, subdomain)| + |k| + |v| + 2
    ensures Preimage(httpMethod, path, headers[k := v], bodyHash, subdomain)
            != Preimage(httpMethod, path, headers, bodyHash, subdomain)
  {
    var h' := headers[k := v];
    var before := SortedOf(headers.Keys);
    var after := SortedOf(h'.Keys);
    SortedDistinct(before);
    SortedDistinct(after);
    HeaderBytesLength(before, headers);
    HeaderBytesLength(after, h');
    var listed := [k] + before;
    assert Distinct(listed) by {
      forall p, q | 0 <= p < q < |listed| ensures listed[p] != listed[q] {
        if p == 0 { assert listed[q] == before[q - 1] && before[q - 1] in headers; }
        else { assert listed[p] == before[p - 1] && listed[q] == before[q - 1]; }
      }
    }
    forall x ensures x in listed <==> x in after {
      assert x in listed <==> x == k || x in before;
    }
    PairsLenPermutation(listed, after, h');
    assert listed[1..] == before;
    PairsLenFrame(before, headers, k, v);
  }

  /** A strictly ascending list has no repeats. */
  lemma SortedDistinct(xs: seq<string>)
    requires StrictlySorted(xs)
    ensures Distinct(xs)
  {
  }

  /** `generate_key_hash`: the digest of everything fed to the hasher, which
      is a hex digest whenever the hash function yields one. */
  function GenerateKeyHash(httpMethod: string, path: string, headers: map<string, string>,
                           bodyHash: string, subdomain: Option<string>,
                           sha: string -> string): (r: string)
    ensures r == sha(Preimage(httpMethod, path, headers, bodyHash, subdomain))
    ensures HexDigests(sha) ==> IsHexDigest(r)
  {
    sha(Preimage(httpMethod, path, headers, bodyHash, subdomain))
  }

  /** `CacheKey::new_with_subdomain`; `CacheKey::new` is the `None` case. It
      always succeeds. */
  function New(httpMethod: string, path: string, headers: map<string, string>, order: seq<string>,
               body: string, subdomain: Option<string>, sha: string -> string): (r: Result<CacheKey, Errors.AppError>)
    requires Enumerates(order, headers.Keys)
    ensures r.Success?
    ensures r.value.httpMethod == ToUpper(httpMethod)
    ensures r.value.path == NormalizePath(path)
    ensures r.value.normalizedHeaders == NormalizeHeaders(headers, order)
    ensures r.value.bodyHash == HashBody(body, sha)
    ensures r.value.keyHash == sha(Preimage(httpMethod, path, r.value.normalizedHeaders, r.value.bodyHash, subdomain))
  {
    var normalized := NormalizeHeaders(headers, order);
    var bodyHash := HashBody(body, sha);
    var keyHash := GenerateKeyHash(httpMethod, path, normalized, bodyHash, subdomain, sha);
    Success(CacheKey(ToUpper(httpMethod), NormalizePath(path), normalized, bodyHash, keyHash))
  }

  /** Without case-variant duplicate names, the key is the same for every
      iteration order of the header map. */
  lemma NewOrderIndependent(httpMethod: string, path: string, headers: map<string, string>,
                            o1: seq<string>, o2: seq<string>, body: string,
                            subdomain: Option<string>, sha: string -> string)
    requires CaseDistinct(headers)
    requires Enumerates(o1, headers.Keys) && Enumerates(o2, headers.Keys)
    ensures New(httpMethod, path, headers, o1, body, subdomain, sha) == New(httpMethod, path, headers, o2, body, subdomain, sha)
  {
    NormalizeHeadersCanonical(headers, o1);
    NormalizeHeadersCanonical(headers, o2);
  }

  /** Adding an excluded header, with any value, leaves the whole key as it
      is without that header. */
  lemma NewIgnoresExcludedHeader(httpMethod: string, path: string, headers: map<string, string>,
                                 order: seq<string>, k: string, v: string, body: string,
                                 subdomain: Option<string>, sha: string -> string)
    requires ToLower(k) in ExcludedHeaders
    requires Enumerates(order, headers[k := v].Keys)
    ensures Enumerates(Remove(order, k), (headers - {k}).Keys)
    ensures New(httpMethod, path, headers[k := v], order, body, subdomain, sha)
         == New(httpMethod, path, headers - {k}, Remove(order, k), body, subdomain, sha)
  {
    ExcludedHeaderInvisible(headers, order, k, v);
  }

  /** Two requests that differ only in the value of an excluded header, such
      as two bearer tokens in `Authorization`, get the same key. */
  lemma ExcludedValueIrrelevant(httpMethod: string, path: string, headers: map<string, string>,
                                order: seq<string>, k: string, v1: string, v2: string, body: string,
                                subdomain: Option<string>, sha: string -> string)
    requires ToLower(k) in ExcludedHeaders
    requires Enumerates(order, headers[k := v1].Keys)
    ensures Enumerates(order, headers[k := v2].Keys)
    ensures New(httpMethod, path, headers[k := v1], order, body, subdomain, sha)
         == New(httpMethod, path, headers[k := v2], order, body, subdomain, sha)
  {
    assert headers[k := v1].Keys == headers[k := v2].Keys;
    assert headers[k := v1] - {k} == headers[k := v2] - {k} == headers - {k};
    NewIgnoresExcludedHeader(httpMethod, path, headers, order, k, v1, body, subdomain, sha);
    NewIgnoresExcludedHeader(httpMethod, path, headers, order, k, v2, body, subdomain, sha);
  }

  /** Subdomains are case-folded before hashing. */
  lemma SubdomainCaseFolded(httpMethod: string, path: string, headers: map<string, string>,
                            order: seq<string>, body: string, s1: string, s2: string,
                            sha: string -> string)
    requires Enumerates(order, headers.Keys)
    requires ToLower(s1) == ToLower(s2)
    ensures New(httpMethod, path, headers, order, body, Some(s1), sha).value.keyHash
         == New(httpMethod, path, headers, order, body, Some(s2), sha).value.keyHash
  {
  }

  /** The key's path is normalised but the hash is fed the raw path: `/a/`
      and `/a` share a key path and still hash different preimages. */
  lemma RawPathIsHashed(httpMethod: string, headers: map<string, string>, bodyHash: string)
    ensures NormalizePath("/a/") == NormalizePath("/a")
    ensures Preimage(httpMethod, "/a/", headers, bodyHash, None) != Preimage(httpMethod, "/a", headers, bodyHash, None)
  {
    SlashPathsNormalizeAlike();
    SlashPreimagesDiffer(httpMethod, headers, bodyHash);
  }

  lemma SlashPathsNormalizeAlike()
    ensures NormalizePath("/a/") == NormalizePath("/a")
  {
    TrimOfTrimmed("/a/");
    TrimOfTrimmed("/a");
    assert BeforeQuery("/a/") == "/a/";
    assert BeforeQuery("/a") == "/a";
  }

  lemma SlashPreimagesDiffer(httpMethod: string, headers: map<string, string>, bodyHash: string)
    ensures Preimage(httpMethod, "/a/", headers, bodyHash, None) != Preimage(httpMethod, "/a", headers, bodyHash, None)
  {
    var m := SubdomainBytes(None) + ToUpper(httpMethod) + "\0";
    var p1 := Preimage(httpMethod, "/a/", headers, bodyHash, None);
    var p2 := Preimage(httpMethod, "/a", headers, bodyHash, None);
    assert p1[|m| + 2] == (m + "/a/" + "\0")[|m| + 2] == '/';
    assert p2[|m| + 2] == (m + "/a" + "\0")[|m| + 2] == '\0';
  }

  /** `to_string`: the key hash. */
  function ToString(k: CacheKey): (r: string)
    ensures r == k.keyHash
  {
    k.keyHash
  }

  /** `from_string`: a key that knows only its hash. */
  function FromString(s: string): (r: Result<CacheKey, Errors.AppError>)
    ensures r.Success?
    ensures r.value.keyHash == s
    ensures r.value.httpMethod == "UNKNOWN" && r.value.path == "UNKNOWN" && r.value.bodyHash == "UNKNOWN"
    ensures r.value.normalizedHeaders == map[]
  {
    Success(CacheKey("UNKNOWN", "UNKNOWN", map[], "UNKNOWN", s))
  }

  /** Parsing a key string and printing it back gives the same string, and a
      key printed and parsed back keeps its hash. */
  lemma StringRoundTrip(s: string, k: CacheKey)
    ensures ToString(FromString(s).value) == s
    ensures FromString(ToString(k)).value.keyHash == k.keyHash
  {
  }
}
