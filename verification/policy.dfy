/** The cache policy engine: per-endpoint rules keyed by `"METHOD PATH"`
    patterns, their fallbacks to the global defaults, and the decision
    whether a response may be stored. Durations are whole seconds. */
module Policy {
  import opened Wrappers
  import opened Text
  import opened Maps
  import opened StringOrder
  import opened JsonValue

  /** One endpoint rule; absent fields fall back to the global policy.
      `methods` is carried but never consulted. */
  datatype EndpointPolicy = EndpointPolicy(
    ttl: Option<nat>,
    maxBodySize: Option<nat>,
    headersToVary: Option<seq<string>>,
    cacheable: bool,
    methods: seq<string>)

  datatype CachePolicy = CachePolicy(
    defaultTtl: nat,
    maxBodySize: nat,
    headersToVary: seq<string>,
    endpointPolicies: map<string, EndpointPolicy>)

  // ---------------------------------------------------------------------------
  // Patterns

  /** `matches_pattern`. A pattern is `METHOD PATH`, split at its first
      space. The method part is `*` or compared case-insensitively; the path
      part is `*` (anything), `prefix*` (a prefix match) or an exact path. */
  function MatchesPattern(pattern: string, httpMethod: string, path: string): (r: bool)
    ensures ' ' !in pattern ==> !r
    ensures r ==> var i := Find(pattern, ' ').value;
                  pattern[..i] == "*" || ToUpper(pattern[..i]) == ToUpper(httpMethod)
  {
    match Find(pattern, ' ')
    case None => false
    case Some(i) =>
      var patternMethod := pattern[..i];
      var patternPath := pattern[i + 1..];
      if patternMethod != "*" && ToUpper(patternMethod) != ToUpper(httpMethod) then false
      else if patternPath == "*" then true
      else if EndsWith(patternPath, "*") then StartsWith(path, patternPath[..|patternPath| - 1])
      else patternPath == path
  }

  /** A pattern without a path wildcard matches exactly its own path, for
      its own method in any letter case, or for every method when the
      method part is `*`. */
  lemma ExactPatternMatches(m: string, p: string, httpMethod: string, path: string)
    requires ' ' !in m
    requires p != "*" && !EndsWith(p, "*")
    ensures MatchesPattern(m + " " + p, httpMethod, path)
            <==> (m == "*" || ToUpper(m) == ToUpper(httpMethod)) && p == path
  {
    var pattern := m + " " + p;
    assert pattern[..|m|] == m && pattern[|m| + 1..] == p;
    FindFirst(pattern, |m|, ' ');
  }

  /** `M prefix*` matches exactly the paths that extend `prefix`, for
      method `M` (or any method when `M` is `*`). */
  lemma PrefixPatternMatches(m: string, prefix: string, httpMethod: string, path: string)
    requires ' ' !in m
    ensures MatchesPattern(m + " " + prefix + "*", httpMethod, path)
            <==> (m == "*" || ToUpper(m) == ToUpper(httpMethod)) && StartsWith(path, prefix)
  {
    var pattern := m + " " + prefix + "*";
    var pp := prefix + "*";
    assert pattern == m + " " + pp;
    assert pattern[..|m|] == m && pattern[|m| + 1..] == pp;
    FindFirst(pattern, |m|, ' ');
    assert pp[..|pp| - 1] == prefix;
    assert EndsWith(pp, "*") by { assert pp[|pp| - 1..] == "*"; }
    var methodOk := m == "*" || ToUpper(m) == ToUpper(httpMethod);
    if pp == "*" {
      assert prefix == [];
      assert StartsWith(path, prefix) by { assert path[..0] == prefix; }
      assert MatchesPattern(pattern, httpMethod, path) == methodOk;
    } else {
      assert MatchesPattern(pattern, httpMethod, path) == (methodOk && StartsWith(path, prefix));
    }
  }

  /** The exact key of a request always matches the request as a pattern. */
  lemma ExactKeyMatches(httpMethod: string, path: string)
    requires ' ' !in httpMethod
    ensures MatchesPattern(ExactKey(httpMethod, path), httpMethod, path)
  {
    var u := ToUpper(httpMethod);
    var pattern := u + " " + path;
    assert ' ' !in u by {
      forall j | 0 <= j < |u| ensures u[j] != ' ' { assert httpMethod[j] != ' '; }
    }
    assert pattern[..|u|] == u && pattern[|u| + 1..] == path;
    FindFirst(pattern, |u|, ' ');
    ToUpperIdempotent(httpMethod);
    if path != "*" && EndsWith(path, "*") {
      assert path[..|path| - 1] == path[..|path| - 1];
    }
  }

  // ---------------------------------------------------------------------------
  // Rule selection

  /** The key tried before any pattern: upper-cased method, space, path. */
  function ExactKey(httpMethod: string, path: string): string {
    ToUpper(httpMethod) + " " + path
  }

  /** Some rule of the map matches the request as a pattern. */
  ghost predicate AnyMatch(rules: map<string, EndpointPolicy>, httpMethod: string, path: string) {
    exists p :: p in rules && MatchesPattern(p, httpMethod, path)
  }

  /** The first pattern in `order` that matches the request. */
  function FirstMatch(order: seq<string>, httpMethod: string, path: string): (r: Option<nat>)
    ensures r.None? <==> forall i :: 0 <= i < |order| ==> !MatchesPattern(order[i], httpMethod, path)
    ensures r.Some? ==> r.value < |order| && MatchesPattern(order[r.value], httpMethod, path)
    ensures r.Some? ==> forall i :: 0 <= i < r.value ==> !MatchesPattern(order[i], httpMethod, path)
  {
    if |order| == 0 then None
    else if MatchesPattern(order[0], httpMethod, path) then Some(0)
    else match FirstMatch(order[1..], httpMethod, path)
      case None => None
      case Some(i) => Some(i + 1)
  }

  /** `get_endpoint_policy`, with the rule map iterated in `order`: the rule
      under the exact key if there is one; otherwise some rule whose pattern
      matches, and `None` exactly when none does. Which matching rule is
      chosen depends on `order`. */
  function GetEndpointPolicy(policy: CachePolicy, httpMethod: string, path: string, order: seq<string>)
    : (r: Option<EndpointPolicy>)
    requires Enumerates(order, policy.endpointPolicies.Keys)
    ensures var rules := policy.endpointPolicies;
            ExactKey(httpMethod, path) in rules ==> r == Some(rules[ExactKey(httpMethod, path)])
    ensures var rules := policy.endpointPolicies;
            ExactKey(httpMethod, path) !in rules ==> (r.None? <==> !AnyMatch(rules, httpMethod, path))
    ensures r.Some? ==> exists p :: p in policy.endpointPolicies && r.value == policy.endpointPolicies[p]
                                    && (p == ExactKey(httpMethod, path) || MatchesPattern(p, httpMethod, path))
  {
    var rules := policy.endpointPolicies;
    var exact := ExactKey(httpMethod, path);
    if exact in rules then Some(rules[exact])
    else
      match FirstMatch(order, httpMethod, path)
      case None =>
        assert !AnyMatch(rules, httpMethod, path) by {
          forall p | p in rules ensures !MatchesPattern(p, httpMethod, path) {
            assert p in order;
          }
        }
        None
      case Some(i) =>
        assert order[i] in rules;
        Some(rules[order[i]])
  }

  /** When at most one rule matches, or the exact key is present, the
      selection does not depend on the iteration order. */
  lemma SelectionOrderIndependent(policy: CachePolicy, httpMethod: string, path: string,
                                  o1: seq<string>, o2: seq<string>)
    requires Enumerates(o1, policy.endpointPolicies.Keys) && Enumerates(o2, policy.endpointPolicies.Keys)
    requires ExactKey(httpMethod, path) in policy.endpointPolicies
             || forall p, q :: (p in policy.endpointPolicies && q in policy.endpointPolicies
                                && MatchesPattern(p, httpMethod, path) && MatchesPattern(q, httpMethod, path)) ==> p == q
    ensures GetEndpointPolicy(policy, httpMethod, path, o1) == GetEndpointPolicy(policy, httpMethod, path, o2)
  {
    var exact := ExactKey(httpMethod, path);
    var rules := policy.endpointPolicies;
    if exact !in rules {
      var f1 := FirstMatch(o1, httpMethod, path);
      var f2 := FirstMatch(o2, httpMethod, path);
      if f1.Some? {
        assert o1[f1.value] in rules;
        assert f2.Some?;
        assert o2[f2.value] in rules;
      }
    }
  }

  /** When exactly one rule is the exact key or a matching pattern, that
      rule is selected, whatever the iteration order. */
  lemma UniqueCandidateSelected(policy: CachePolicy, httpMethod: string, path: string,
                                order: seq<string>, key: string)
    requires Enumerates(order, policy.endpointPolicies.Keys)
    requires key in policy.endpointPolicies
    requires key == ExactKey(httpMethod, path) || MatchesPattern(key, httpMethod, path)
    requires forall p :: p in policy.endpointPolicies && p != key
                         ==> p != ExactKey(httpMethod, path) && !MatchesPattern(p, httpMethod, path)
    ensures GetEndpointPolicy(policy, httpMethod, path, order) == Some(policy.endpointPolicies[key])
  {
    var rules := policy.endpointPolicies;
    if ExactKey(httpMethod, path) !in rules {
      assert AnyMatch(rules, httpMethod, path);
    }
  }

  // ---------------------------------------------------------------------------
  // Settings with fallbacks

  /** The rule selected for the request, as the settings below see it:
      either the rule under the exact key, or a matching rule, or none. */
  ghost predicate SelectedFrom(policy: CachePolicy, httpMethod: string, path: string, rule: Option<EndpointPolicy>) {
    var rules := policy.endpointPolicies;
    var exact := ExactKey(httpMethod, path);
    if exact in rules then rule == Some(rules[exact])
    else if AnyMatch(rules, httpMethod, path) then
      rule.Some? && exists p :: p in rules && MatchesPattern(p, httpMethod, path) && rule.value == rules[p]
    else rule.None?
  }

  lemma GetEndpointPolicySelects(policy: CachePolicy, httpMethod: string, path: string, order: seq<string>)
    requires Enumerates(order, policy.endpointPolicies.Keys)
    ensures SelectedFrom(policy, httpMethod, path, GetEndpointPolicy(policy, httpMethod, path, order))
  {
  }

  /** `get_ttl`: the selected rule's TTL, else the default TTL. */
  function GetTtl(policy: CachePolicy, httpMethod: string, path: string, order: seq<string>): (r: nat)
    requires Enumerates(order, policy.endpointPolicies.Keys)
    ensures exists rule :: SelectedFrom(policy, httpMethod, path, rule)
                           && r == (if rule.Some? then rule.value.ttl.GetOr(policy.defaultTtl) else policy.defaultTtl)
  {
    var rule := GetEndpointPolicy(policy, httpMethod, path, order);
    GetEndpointPolicySelects(policy, httpMethod, path, order);
    match rule
    case Some(e) => e.ttl.GetOr(policy.defaultTtl)
    case None => policy.defaultTtl
  }

  /** `get_max_body_size`: the selected rule's limit, else the global one. */
  function GetMaxBodySize(policy: CachePolicy, httpMethod: string, path: string, order: seq<string>): (r: nat)
    requires Enumerates(order, policy.endpointPolicies.Keys)
    ensures exists rule :: SelectedFrom(policy, httpMethod, path, rule)
                           && r == (if rule.Some? then rule.value.maxBodySize.GetOr(policy.maxBodySize) else policy.maxBodySize)
  {
    var rule := GetEndpointPolicy(policy, httpMethod, path, order);
    GetEndpointPolicySelects(policy, httpMethod, path, order);
    match rule
    case Some(e) => e.maxBodySize.GetOr(policy.maxBodySize)
    case None => policy.maxBodySize
  }

  /** `get_headers_to_vary`: the selected rule's list, else the global one. */
  function GetHeadersToVary(policy: CachePolicy, httpMethod: string, path: string, order: seq<string>): (r: seq<string>)
    requires Enumerates(order, policy.endpointPolicies.Keys)
    ensures exists rule :: SelectedFrom(policy, httpMethod, path, rule)
                           && r == (if rule.Some? then rule.value.headersToVary.GetOr(policy.headersToVary) else policy.headersToVary)
  {
    var rule := GetEndpointPolicy(policy, httpMethod, path, order);
    GetEndpointPolicySelects(policy, httpMethod, path, order);
    match rule
    case Some(e) => e.headersToVary.GetOr(policy.headersToVary)
    case None => policy.headersToVary
  }

  /** `is_endpoint_cacheable`: the selected rule's flag; without a rule, only
      `GET` requests are cacheable. */
  function IsEndpointCacheable(policy: CachePolicy, httpMethod: string, path: string, order: seq<string>): (r: bool)
    requires Enumerates(order, policy.endpointPolicies.Keys)
    ensures exists rule :: SelectedFrom(policy, httpMethod, path, rule)
                           && r == (if rule.Some? then rule.value.cacheable else ToUpper(httpMethod) == "GET")
  {
    var rule := GetEndpointPolicy(policy, httpMethod, path, order);
    GetEndpointPolicySelects(policy, httpMethod, path, order);
    match rule
    case Some(e) => e.cacheable
    case None => ToUpper(httpMethod) == "GET"
  }

  /** Without an exact key and without a matching pattern every setting is
      the global one, for every iteration order. */
  lemma NoRuleUsesDefaults(policy: CachePolicy, httpMethod: string, path: string, order: seq<string>)
    requires Enumerates(order, policy.endpointPolicies.Keys)
    requires ExactKey(httpMethod, path) !in policy.endpointPolicies
    requires forall p :: p in policy.endpointPolicies ==> !MatchesPattern(p, httpMethod, path)
    ensures GetTtl(policy, httpMethod, path, order) == policy.defaultTtl
    ensures GetMaxBodySize(policy, httpMethod, path, order) == policy.maxBodySize
    ensures GetHeadersToVary(policy, httpMethod, path, order) == policy.headersToVary
    ensures IsEndpointCacheable(policy, httpMethod, path, order) == (ToUpper(httpMethod) == "GET")
  {
  }

  // ---------------------------------------------------------------------------
  // Whether to store a response

  /** A `statusCode` that is an unsigned integer outside 200..299 rejects; a
      missing or non-integer status does not. */
  predicate StatusAllows(response: Json) {
    match AsU64(Index(response, "statusCode"))
    case Some(code) => 200 <= code < 300
    case None => true
  }

  /** A `cache-control` header (any letter case) whose string value mentions
      `no-cache` or `no-store`. */
  predicate ForbidsCaching(name: string, value: Json) {
    ToLower(name) == "cache-control" && value.Str? && (Contains(value.s, "no-cache") || Contains(value.s, "no-store"))
  }

  /** The header scan of `should_cache`, over the names in `names`. */
  function ScanHeaders(names: seq<string>, headers: map<string, Json>): (r: bool)
    requires forall i :: 0 <= i < |names| ==> names[i] in headers
    ensures r <==> exists i :: 0 <= i < |names| && ForbidsCaching(names[i], headers[names[i]])
  {
    if |names| == 0 then false
    else if ForbidsCaching(names[0], headers[names[0]]) then true
    else
      var r := ScanHeaders(names[1..], headers);
      assert r ==> exists i :: 1 <= i < |names| && ForbidsCaching(names[i], headers[names[i]]) by {
        if r {
          var i :| 0 <= i < |names[1..]| && ForbidsCaching(names[1..][i], headers[names[1..][i]]);
          assert names[1..][i] == names[i + 1];
        }
      }
      r
  }

  /** `should_cache`. A serde map iterates its members in key order; the
      answer does not depend on that order. The body size is compared in
      UTF-8 bytes against the global limit only, and equality passes. */
  function ShouldCache(policy: CachePolicy, response: Json): (r: bool)
    ensures r <==>
      && StatusAllows(response)
      && !(Index(response, "headers").Obj?
           && exists name :: name in Index(response, "headers").members
                             && ForbidsCaching(name, Index(response, "headers").members[name]))
      && !(Index(response, "body").Str? && Utf8Len(Index(response, "body").s) > policy.maxBodySize)
  {
    if !StatusAllows(response) then false
    else
      var headers := Index(response, "headers");
      if headers.Obj? && ScanHeaders(SortedOf(headers.members.Keys), headers.members) then
        false
      else
        assert headers.Obj? ==> forall name :: name in headers.members ==> !ForbidsCaching(name, headers.members[name]) by {
          if headers.Obj? {
            var names := SortedOf(headers.members.Keys);
            forall name | name in headers.members ensures !ForbidsCaching(name, headers.members[name]) {
              var i :| 0 <= i < |names| && names[i] == name;
            }
          }
        }
        var body := Index(response, "body");
        !(body.Str? && Utf8Len(body.s) > policy.maxBodySize)
  }

  // ---------------------------------------------------------------------------
  // The built-in policy

  /** `CachePolicy::default()`: one hour, 10 MiB, three varying headers, and
      two rules. */
  function Default(): (p: CachePolicy)
    ensures p.defaultTtl == 3600 && p.maxBodySize == 10 * 1024 * 1024
    ensures p.endpointPolicies.Keys == {"GET /api/users", "POST *"}
  {
    CachePolicy(
      3600,
      10 * 1024 * 1024,
      ["authorization", "x-api-key", "x-user-id"],
      map[
        "GET /api/users" := EndpointPolicy(Some(300), Some(1024 * 1024), Some(["authorization"]), true, ["GET"]),
        "POST *" := EndpointPolicy(None, None, None, false, ["POST"])
      ])
  }

  /** `GET /api/users` hits its exact rule: cacheable, five minutes. */
  lemma DefaultUsers(order: seq<string>)
    requires Enumerates(order, Default().endpointPolicies.Keys)
    ensures IsEndpointCacheable(Default(), "GET", "/api/users", order)
    ensures GetTtl(Default(), "GET", "/api/users", order) == 300
    ensures GetMaxBodySize(Default(), "GET", "/api/users", order) == 1024 * 1024
  {
    assert ExactKey("GET", "/api/users") == "GET /api/users";
  }

  /** Any `POST` falls to the `POST *` rule and is not cacheable. */
  lemma DefaultPostNotCacheable(path: string, order: seq<string>)
    requires Enumerates(order, Default().endpointPolicies.Keys)
    ensures !IsEndpointCacheable(Default(), "POST", path, order)
  {
    DefaultPostSelectsWildcard(path, order);
    assert !Default().endpointPolicies["POST *"].cacheable;
  }

  lemma DefaultPostSelectsWildcard(path: string, order: seq<string>)
    requires Enumerates(order, Default().endpointPolicies.Keys)
    ensures "POST *" in Default().endpointPolicies
    ensures GetEndpointPolicy(Default(), "POST", path, order) == Some(Default().endpointPolicies["POST *"])
  {
    PostPatterns(path);
    OtherRuleExcluded(Default().endpointPolicies, "GET /api/users", "POST *", "POST", path);
    UniqueCandidateSelected(Default(), "POST", path, order, "POST *");
  }

  /** With two rules, when one of them neither matches nor is the exact
      key, every rule but the other one is ruled out. */
  lemma OtherRuleExcluded(rules: map<string, EndpointPolicy>, other: string, key: string,
                          httpMethod: string, path: string)
    requires rules.Keys == {other, key}
    requires other != ExactKey(httpMethod, path) && !MatchesPattern(other, httpMethod, path)
    ensures forall p :: p in rules && p != key
                        ==> p != ExactKey(httpMethod, path) && !MatchesPattern(p, httpMethod, path)
  {
  }

  /** How the two built-in patterns treat a `POST`: the wildcard rule
      matches it, the users rule neither matches it nor is its exact key. */
  lemma PostPatterns(path: string)
    ensures MatchesPattern("POST *", "POST", path)
    ensures !MatchesPattern("GET /api/users", "POST", path)
    ensures ExactKey("POST", path) != "GET /api/users"
  {
    WildcardPostMatches(path);
    UsersPatternIsGet("POST", path);
    assert ExactKey("POST", path)[0] == 'P';
  }

  lemma WildcardPostMatches(path: string)
    ensures MatchesPattern("POST *", "POST", path)
  {
    assert "POST *"[..4] == "POST" && "POST *"[5..] == "*";
    FindFirst("POST *", 4, ' ');
  }

  /** The users rule only ever matches a `GET`. */
  lemma UsersPatternIsGet(httpMethod: string, path: string)
    requires |httpMethod| > 0 && httpMethod[0] != 'G' && httpMethod[0] != 'g'
    ensures !MatchesPattern("GET /api/users", httpMethod, path)
  {
    UsersPatternMethod();
  }

  /** The users rule's method part is `GET`. */
  lemma UsersPatternMethod()
    ensures Find("GET /api/users", ' ') == Some(3)
    ensures ToUpper("GET /api/users"[..3])[0] == 'G'
  {
    var p := "GET /api/users";
    assert p[3] == ' ' && p[0] == 'G' && p[1] == 'E' && p[2] == 'T';
    FindFirst(p, 3, ' ');
  }

  /** A `GET` of a path with no rule has the defaults and is cacheable. */
  lemma DefaultGetUnknown(order: seq<string>)
    requires Enumerates(order, Default().endpointPolicies.Keys)
    ensures IsEndpointCacheable(Default(), "GET", "/api/unknown", order)
    ensures GetTtl(Default(), "GET", "/api/unknown", order) == 3600
  {
    UnknownPatterns();
    NoRuleUsesDefaults(Default(), "GET", "/api/unknown", order);
  }

  /** Neither built-in pattern matches `GET /api/unknown`, nor is its exact key. */
  lemma UnknownPatterns()
    ensures ToUpper("GET") == "GET"
    ensures ExactKey("GET", "/api/unknown") !in Default().endpointPolicies
    ensures !MatchesPattern("GET /api/users", "GET", "/api/unknown")
    ensures !MatchesPattern("POST *", "GET", "/api/unknown")
  {
    assert ToUpper("GET") == "GET";
    assert |ExactKey("GET", "/api/unknown")| == 16;
    UsersPatternOtherPath("GET", "/api/unknown");
    WildcardPostOnlyPost("GET", "/api/unknown");
  }

  /** The users rule does not match a path other than `/api/users`. */
  lemma UsersPatternOtherPath(httpMethod: string, path: string)
    requires path != "/api/users"
    ensures !MatchesPattern("GET /api/users", httpMethod, path)
  {
    assert "GET" + " " + "/api/users" == "GET /api/users";
    assert !EndsWith("/api/users", "*") by { assert "/api/users"[9] == 's'; }
    ExactPatternMatches("GET", "/api/users", httpMethod, path);
  }

  /** The wildcard `POST` rule does not match a method starting with `G`. */
  lemma WildcardPostOnlyPost(httpMethod: string, path: string)
    requires |httpMethod| > 0 && httpMethod[0] == 'G'
    ensures !MatchesPattern("POST *", httpMethod, path)
  {
    assert "POST *"[..4] == "POST";
    FindFirst("POST *", 4, ' ');
    assert ToUpper("POST")[0] == 'P';
    assert ToUpper(httpMethod)[0] == 'G';
  }
}
