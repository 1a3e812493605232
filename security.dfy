/** The security middleware: the rate-limit exemption, recursive
    sanitising of request data, the request size limit, the IP allow-list,
    the user-agent screen and the CORS origin rule. The HTML filter is given
    as functions on strings; configuration values are parameters. */
module Security {
  import opened Common
  import opened Paging

  // ---------------------------------------------------------------------------
  // generalRateLimit.skip
  // ---------------------------------------------------------------------------

  /** The general rate limit does not count these two health paths. */
  predicate RateLimitSkipped(path: string) {
    path == "/health" || path == "/api/health"
  }

  // ---------------------------------------------------------------------------
  // sanitizeObject
  // ---------------------------------------------------------------------------

  /** `sanitizeObject`: strings go through the tag filter `xssValue`; arrays
      are sanitised item by item; objects key by key, each key through the
      default filter `xssKey` (a later key that filters to the same text
      overwrites the earlier one, and a key that filters to `__proto__`
      reaches the prototype setter and adds no key); everything else is
      returned as it is. */
  function SanitizeObject(v: JsValue, xssValue: string -> string, xssKey: string -> string): (r: JsValue)
    ensures v.JsString? ==> r == JsString(xssValue(v.s))
    ensures v.JsArray? ==> r.JsArray? && |r.items| == |v.items|
    ensures v.JsObject? ==> r.JsObject? && |r.entries| <= |v.entries| && UniqueKeys(r.entries)
    ensures v.JsNumber? || v.JsBool? || v.JsNull? ==> r == v
    decreases v, 1
  {
    match v
    case JsString(s) => JsString(xssValue(s))
    case JsArray(items) =>
      JsArray(seq(|items|, i requires 0 <= i < |items| => SanitizeObject(items[i], xssValue, xssKey)))
    case JsObject(entries) => JsObject(SanitizeEntries(v, |entries|, xssValue, xssKey))
    case _ => v
  }

  /** The one key an assignment on a plain object does not create: it sets
      the prototype (or is ignored for a primitive value). */
  const ProtoKey := "__proto__"

  /** The sanitised object after the first `n` keys. */
  function SanitizeEntries(v: JsValue, n: nat, xssValue: string -> string, xssKey: string -> string)
    : (r: seq<(string, JsValue)>)
    requires v.JsObject? && n <= |v.entries|
    ensures UniqueKeys(r) && |r| <= n
    decreases v, 0, n
  {
    if n == 0 then []
    else
      var prev := SanitizeEntries(v, n - 1, xssValue, xssKey);
      var key := xssKey(v.entries[n - 1].0);
      var value := SanitizeObject(v.entries[n - 1].1, xssValue, xssKey);
      if key == ProtoKey then prev
      else
        AssocPutUnique(prev, key, value);
        AssocPutSpec(prev, key, value);
        AssocPut(prev, key, value)
  }

  /** Array items are sanitised in place. */
  lemma ArrayItemsSanitised(v: JsValue, xssValue: string -> string, xssKey: string -> string, i: nat)
    requires v.JsArray? && i < |v.items|
    ensures SanitizeObject(v, xssValue, xssKey).items[i] == SanitizeObject(v.items[i], xssValue, xssKey)
  {
  }

  /** No two keys of the object filter to the same text. */
  predicate KeysStayDistinct(v: JsValue, xssKey: string -> string)
    requires v.JsObject?
  {
    forall i, j :: 0 <= i < j < |v.entries| ==> xssKey(v.entries[i].0) != xssKey(v.entries[j].0)
  }

  /** Some of the first `n` keys filters to `__proto__`. */
  predicate ProtoAmong(v: JsValue, n: nat, xssKey: string -> string)
    requires v.JsObject? && n <= |v.entries|
  {
    exists i :: 0 <= i < n && xssKey(v.entries[i].0) == ProtoKey
  }

  /** The sanitised object has exactly the filtered keys other than
      `__proto__`. */
  lemma {:induction false} SanitizedKeys(v: JsValue, n: nat, xssValue: string -> string, xssKey: string -> string, k: string)
    requires v.JsObject? && n <= |v.entries|
    ensures AssocGet(SanitizeEntries(v, n, xssValue, xssKey), k).Some? <==>
      k != ProtoKey && exists j :: 0 <= j < n && xssKey(v.entries[j].0) == k
    decreases n
  {
    if n > 0 {
      SanitizedKeys(v, n - 1, xssValue, xssKey, k);
      if xssKey(v.entries[n - 1].0) != ProtoKey {
        AssocPutSpec(SanitizeEntries(v, n - 1, xssValue, xssKey), xssKey(v.entries[n - 1].0),
                     SanitizeObject(v.entries[n - 1].1, xssValue, xssKey));
      }
    }
  }

  /** One step of the sanitised object: the `n`-th key is assigned unless it
      filters to `__proto__`. */
  lemma SanitizeEntriesStep(v: JsValue, n: nat, xssValue: string -> string, xssKey: string -> string)
    requires v.JsObject? && 0 < n <= |v.entries|
    ensures var prev := SanitizeEntries(v, n - 1, xssValue, xssKey);
      var key := xssKey(v.entries[n - 1].0);
      SanitizeEntries(v, n, xssValue, xssKey) ==
        if key == ProtoKey then prev else AssocPut(prev, key, SanitizeObject(v.entries[n - 1].1, xssValue, xssKey))
  {
  }

  /** `ProtoAmong` grows by the `n`-th key. */
  lemma ProtoAmongStep(v: JsValue, n: nat, xssKey: string -> string)
    requires v.JsObject? && 0 < n <= |v.entries|
    ensures ProtoAmong(v, n, xssKey) <==> ProtoAmong(v, n - 1, xssKey) || xssKey(v.entries[n - 1].0) == ProtoKey
  {
    if ProtoAmong(v, n, xssKey) && xssKey(v.entries[n - 1].0) != ProtoKey {
      var i :| 0 <= i < n && xssKey(v.entries[i].0) == ProtoKey;
      assert i != n - 1;
    }
    if xssKey(v.entries[n - 1].0) == ProtoKey {
      assert xssKey(v.entries[n - 1].0) == ProtoKey;
    }
  }

  /** With distinct filtered keys, the `n`-th key is not among the earlier ones. */
  lemma LastKeyIsNew(v: JsValue, n: nat, xssKey: string -> string)
    requires v.JsObject? && 0 < n <= |v.entries| && KeysStayDistinct(v, xssKey)
    ensures forall i :: 0 <= i < n - 1 ==> xssKey(v.entries[i].0) != xssKey(v.entries[n - 1].0)
  {
    forall i | 0 <= i < n - 1 ensures xssKey(v.entries[i].0) != xssKey(v.entries[n - 1].0) {
      assert i < n - 1 < |v.entries|;
    }
  }

  /** When no two keys filter alike, the object keeps one entry per key,
      less the one filtering to `__proto__` if there is one. */
  lemma {:induction false} SanitisedSize(v: JsValue, n: nat, xssValue: string -> string, xssKey: string -> string)
    requires v.JsObject? && n <= |v.entries| && KeysStayDistinct(v, xssKey)
    ensures |SanitizeEntries(v, n, xssValue, xssKey)| == if ProtoAmong(v, n, xssKey) then n - 1 else n
    decreases n
  {
    if n > 0 {
      var prev := SanitizeEntries(v, n - 1, xssValue, xssKey);
      var key := xssKey(v.entries[n - 1].0);
      SanitisedSize(v, n - 1, xssValue, xssKey);
      SanitizeEntriesStep(v, n, xssValue, xssKey);
      ProtoAmongStep(v, n, xssKey);
      LastKeyIsNew(v, n, xssKey);
      if key == ProtoKey {
        if ProtoAmong(v, n - 1, xssKey) {
          var i :| 0 <= i < n - 1 && xssKey(v.entries[i].0) == ProtoKey;
          assert false;
        }
      } else {
        assert AssocGet(prev, key).None? by {
          SanitizedKeys(v, n - 1, xssValue, xssKey, key);
        }
        AssocPutSpec(prev, key, SanitizeObject(v.entries[n - 1].1, xssValue, xssKey));
      }
    }
  }

  /** When no two keys filter alike, every key other than `__proto__` carries
      its own sanitised value. */
  lemma {:induction false} SanitisedValue(v: JsValue, n: nat, xssValue: string -> string, xssKey: string -> string, j: nat)
    requires v.JsObject? && n <= |v.entries| && KeysStayDistinct(v, xssKey) && j < n
    requires xssKey(v.entries[j].0) != ProtoKey
    ensures AssocGet(SanitizeEntries(v, n, xssValue, xssKey), xssKey(v.entries[j].0)) ==
      Some(SanitizeObject(v.entries[j].1, xssValue, xssKey))
    decreases n
  {
    if j < n - 1 {
      SanitisedValue(v, n - 1, xssValue, xssKey, j);
      LastKeyIsNew(v, n, xssKey);
      KeepsEarlierValue(v, n, xssValue, xssKey, xssKey(v.entries[j].0));
    } else {
      SetsLastValue(v, n, xssValue, xssKey);
    }
  }

  /** The `n`-th key leaves every other key's value as it was. */
  lemma KeepsEarlierValue(v: JsValue, n: nat, xssValue: string -> string, xssKey: string -> string, k: string)
    requires v.JsObject? && 0 < n <= |v.entries| && k != xssKey(v.entries[n - 1].0)
    ensures AssocGet(SanitizeEntries(v, n, xssValue, xssKey), k) == AssocGet(SanitizeEntries(v, n - 1, xssValue, xssKey), k)
  {
    SanitizeEntriesStep(v, n, xssValue, xssKey);
    AssocPutSpec(SanitizeEntries(v, n - 1, xssValue, xssKey), xssKey(v.entries[n - 1].0),
                 SanitizeObject(v.entries[n - 1].1, xssValue, xssKey));
  }

  /** The `n`-th key, unless it is `__proto__`, carries its sanitised value. */
  lemma SetsLastValue(v: JsValue, n: nat, xssValue: string -> string, xssKey: string -> string)
    requires v.JsObject? && 0 < n <= |v.entries| && xssKey(v.entries[n - 1].0) != ProtoKey
    ensures AssocGet(SanitizeEntries(v, n, xssValue, xssKey), xssKey(v.entries[n - 1].0)) ==
      Some(SanitizeObject(v.entries[n - 1].1, xssValue, xssKey))
  {
    SanitizeEntriesStep(v, n, xssValue, xssKey);
    AssocPutSpec(SanitizeEntries(v, n - 1, xssValue, xssKey), xssKey(v.entries[n - 1].0),
                 SanitizeObject(v.entries[n - 1].1, xssValue, xssKey));
  }

  /** When no two keys filter alike, the object keeps one entry per key,
      less the one filtering to `__proto__` if there is one, and every other
      key carries its own sanitised value. */
  lemma ObjectSanitisedPerKey(v: JsValue, n: nat, xssValue: string -> string, xssKey: string -> string, j: nat)
    requires v.JsObject? && n <= |v.entries| && KeysStayDistinct(v, xssKey) && j < n
    ensures |SanitizeEntries(v, n, xssValue, xssKey)| == if ProtoAmong(v, n, xssKey) then n - 1 else n
    ensures xssKey(v.entries[j].0) != ProtoKey ==>
      AssocGet(SanitizeEntries(v, n, xssValue, xssKey), xssKey(v.entries[j].0)) ==
        Some(SanitizeObject(v.entries[j].1, xssValue, xssKey))
  {
    SanitisedSize(v, n, xssValue, xssKey);
    if xssKey(v.entries[j].0) != ProtoKey {
      SanitisedValue(v, n, xssValue, xssKey, j);
    }
  }

  // ---------------------------------------------------------------------------
  // requestSizeLimit
  // ---------------------------------------------------------------------------

  const DefaultMaxRequestSize := 10 * 1024 * 1024

  /** A `content-length` header: its text and its integer reading (`None`
      when the text does not start with a number). */
  datatype LengthHeader = LengthHeader(raw: string, parsed: Option<int>)

  /** `requestSizeLimit`. `maxSetting` is the configured limit as read by
      `parseInt` (`None` when unset or not a number). */
  function RequestSizeLimit(header: Option<LengthHeader>, maxSetting: Option<int>): (r: Guard)
    ensures r.Deny? <==>
      header.Some? && header.value.raw != "" && header.value.parsed.Some?
      && header.value.parsed.value > QueryIntOr(maxSetting, DefaultMaxRequestSize)
    ensures r.Deny? ==> r == Deny(413, "Request entity too large")
  {
    var maxSize := QueryIntOr(maxSetting, DefaultMaxRequestSize);
    if header.Some? && header.value.raw != "" && header.value.parsed.Some? && header.value.parsed.value > maxSize then
      Deny(413, "Request entity too large")
    else Pass
  }

  /** Without configuration, a request of exactly 10 MiB passes and one byte
      more is refused. */
  lemma DefaultLimitIsInclusive(raw: string)
    requires raw != ""
    ensures RequestSizeLimit(Some(LengthHeader(raw, Some(10485760))), None) == Pass
    ensures RequestSizeLimit(Some(LengthHeader(raw, Some(10485761))), None).Deny?
  {
  }

  // ---------------------------------------------------------------------------
  // ipWhitelist
  // ---------------------------------------------------------------------------

  /** `req.ip || req.connection.remoteAddress || req.socket.remoteAddress`. */
  function ClientIp(ip: Option<string>, connectionAddress: Option<string>, socketAddress: Option<string>): (r: Option<string>)
    ensures Truthy(ip) ==> r == ip
    ensures !Truthy(ip) && Truthy(connectionAddress) ==> r == connectionAddress
    ensures !Truthy(ip) && !Truthy(connectionAddress) ==> r == socketAddress
  {
    if Truthy(ip) then ip else if Truthy(connectionAddress) then connectionAddress else socketAddress
  }

  /** `ipWhitelist(allowedIPs)`: an empty list admits everyone, otherwise
      only a listed address. */
  function IpWhitelist(allowedIPs: seq<string>, clientIp: Option<string>): (r: Guard)
    ensures r.Pass? <==> |allowedIPs| == 0 || (clientIp.Some? && clientIp.value in allowedIPs)
    ensures r.Deny? ==> r == Deny(403, "Access denied from this IP address")
  {
    if |allowedIPs| == 0 then Pass
    else if clientIp.Some? && clientIp.value in allowedIPs then Pass
    else Deny(403, "Access denied from this IP address")
  }

  // ---------------------------------------------------------------------------
  // validateUserAgent
  // ---------------------------------------------------------------------------

  const SuspiciousPatterns := ["bot", "crawl", "spider", "scraper", "sqlmap", "nikto", "scan"]

  /** Some pattern occurs in the agent, ignoring case. */
  predicate Suspicious(agent: string) {
    exists p :: p in SuspiciousPatterns && Contains(Lower(agent), p)
  }

  /** `validateUserAgent`: a missing or over-long agent is refused first; a
      suspicious one is refused unless the path is a health path. */
  function ValidateUserAgent(agent: Option<string>, path: string): (r: Guard)
    ensures !Truthy(agent) || JsLength(agent.value) > 500 ==> r == Deny(400, "Invalid or missing User-Agent header")
    ensures Truthy(agent) && JsLength(agent.value) <= 500 ==>
      (r.Deny? <==> Suspicious(agent.value) && !Contains(path, "/health"))
    ensures Truthy(agent) && JsLength(agent.value) <= 500 && r.Deny? ==> r == Deny(403, "Access denied")
  {
    if !Truthy(agent) || JsLength(agent.value) > 500 then Deny(400, "Invalid or missing User-Agent header")
    else if Suspicious(agent.value) && !Contains(path, "/health") then Deny(403, "Access denied")
    else Pass
  }

  /** The screen ignores the case of the agent. */
  lemma SuspiciousIgnoresCase(agent: string)
    ensures Suspicious(Lower(agent)) <==> Suspicious(agent)
  {
    LowerIdempotent(agent);
  }

  /** Every path the rate limit skips also escapes the agent screen's 403. */
  lemma RateLimitExemptPathsPassScreen(agent: Option<string>, path: string)
    requires RateLimitSkipped(path)
    ensures ValidateUserAgent(agent, path) != Deny(403, "Access denied")
  {
    if path == "/health" {
      assert OccursAt(path, "/health", 0);
    } else {
      assert OccursAt(path, "/health", 4);
    }
    ContainsIffOccurs(path, "/health");
  }

  // ---------------------------------------------------------------------------
  // corsOptions.origin
  // ---------------------------------------------------------------------------

  const DefaultOrigins := ["http://localhost:3000", "http://localhost:5173", "http://localhost:5174"]

  datatype CorsDecision = AllowOrigin | RejectOrigin(message: string)

  /** The allowed origins: the configured list split at commas (entries are
      not trimmed), else the three local development origins. */
  function AllowedOrigins(configured: Option<string>): seq<string> {
    if Truthy(configured) then Split(configured.value, ',') else DefaultOrigins
  }

  /** `corsOptions.origin`: no origin is allowed, a listed one is allowed,
      anything else is rejected. */
  function CorsOrigin(origin: Option<string>, configured: Option<string>): (r: CorsDecision)
    ensures r.AllowOrigin? <==> !Truthy(origin) || origin.value in AllowedOrigins(configured)
    ensures r.RejectOrigin? ==> r.message == "Not allowed by CORS"
  {
    if !Truthy(origin) then AllowOrigin
    else if origin.value in AllowedOrigins(configured) then AllowOrigin
    else RejectOrigin("Not allowed by CORS")
  }

  /** A configured list written as comma-joined origins admits exactly those
      origins. */
  lemma ConfiguredOriginsAdmitExactly(origins: seq<string>, o: string)
    requires |origins| >= 1 && forall i :: 0 <= i < |origins| ==> ',' !in origins[i]
    requires Join(origins, ',') != "" && o != ""
    ensures CorsOrigin(Some(o), Some(Join(origins, ','))).AllowOrigin? <==> o in origins
  {
    var configured := Join(origins, ',');
    SplitJoin(origins, ',');
    assert Truthy(Some(configured));
    assert AllowedOrigins(Some(configured)) == Split(configured, ',');
  }
}
