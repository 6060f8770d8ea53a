/** The member lookup endpoint public/api/check-member.php: OPTIONS, then
    the API key, then the rate limit, then the e-mail, then the lookup by
    lookup hash. The choice of status, JSON body and activity entries is the
    function Respond; the method HandleRequest performs the side effects in
    the page's order (last_used_at, the limiter record, the activity log). */
module CheckMember {
  import opened Php
  import opened Http
  import opened Audit
  import ApiKey
  import ApiKeyValidator
  import RateLimiter
  import Members
  import EmailHasher

  /** new RateLimiter(60, 1000) */
  const PerMinute: int := 60
  const PerHour: int := 1000

  /** The JSON answer. found, mm_cepi, organisation_id and
      organisation_name are always present (null as None); error, message
      and retry_after only when Some. */
  datatype Body = Body(error: Option<string>, message: Option<string>, retryAfter: Option<int>,
                       found: bool, mmCepi: bool, orgId: Option<int>, orgName: Option<string>)

  /** An answer saying "no member", with an error text. */
  function Failure(error: string): Body {
    Body(Some(error), None, None, false, false, None, None)
  }

  /** action_details of an activity entry. */
  type Json = map<string, Scalar>

  /** An exception thrown by the member lookup: none, a PDOException, or any
      other exception. */
  datatype Fault = NoFault | DatabaseFault | OtherFault

  /** The status code, the body (none for OPTIONS), the rate-limit headers
      (X-RateLimit-Limit/Remaining/Reset) and the activity entries written. */
  datatype Response = Response(status: int, body: Option<Body>, rate: Option<RateLimiter.RateResult>, logged: seq<Entry>)

  /** `$_GET['email'] ?? ''` for GET, else `$data['email'] ?? ''` from the
      decoded JSON body (nothing when it does not decode). */
  function EmailInput(req: Request): string {
    if req.httpMethod == "GET" then (if "email" in req.query then req.query["email"] else "")
    else OrEmpty(JsonField(req.body, "email"))
  }

  /** `strtolower(trim($email))` */
  function RequestedEmail(req: Request): string {
    Normalize(EmailInput(req))
  }

  function LimitTypeName(t: RateLimiter.LimitType): string {
    match t
    case PerMinute => "minute"
    case PerHour => "hour"
  }

  // ----- Texts of the answers and of the activity entries -----

  const KeyRequiredError: string := "API key required"
  const KeyRequiredMessage: string := "Please provide a valid API key. See documentation for authentication methods."
  const RateLimitedError: string := "Rate limit exceeded"
  const RateLimitedMessage: string := "Too many requests. Please try again later."
  const InvalidEmailError: string := "Invalid email address"
  const DatabaseError: string := "Database error"
  const ServerError: string := "Server error"
  const SuccessKey: string := "success"
  const ReasonKey: string := "reason"
  const RateLimitedReason: string := "rate_limit_exceeded"
  const LimitTypeKey: string := "limit_type"
  const EmailKey: string := "email"
  const InvalidEmailReason: string := "invalid_email"
  const ErrorKey: string := "error"
  const DatabaseErrorTag: string := "database_error"
  const ServerErrorTag: string := "server_error"
  const FoundKey: string := "found"
  const MmCepiKey: string := "mm_cepi"
  const OrganisationIdKey: string := "organisation_id"

  /** An api_call entry written on behalf of a validated key. */
  function KeyEntry(key: ApiKey.KeyRow, orgId: Option<int>, details: Json): Entry {
    Entry("organisation", orgId, Some(key.name), "api_call", details, Some(key.id))
  }

  const InvalidKeyEntry: Entry :=
    Entry("organisation", None, None, "api_call_invalid_key",
          map[SuccessKey := SBool(false), ReasonKey := SStr("invalid_api_key")], None)

  /** The page's decision. `key` is what validateFromRequest found, `rate` the
      limiter's answer (asked only for a valid key), `found` the row of the
      lookup query, `auditOk` whether the two guarded log writes (invalid key,
      rate limit) succeed; their failure is swallowed. */
  function Respond(httpMethod: string, key: Option<ApiKey.KeyRow>, rate: Option<RateLimiter.RateResult>, now: int,
                   email: string, isEmail: string -> bool, found: Option<Members.Match>, fault: Fault, auditOk: bool): Response
    requires key.Some? ==> rate.Some?
  {
    if httpMethod == "OPTIONS" then Response(200, None, None, [])
    else if key.None? then
      Response(401,
               Some(Failure(KeyRequiredError).(message := Some(KeyRequiredMessage))),
               None, if auditOk then [InvalidKeyEntry] else [])
    else
      var k := key.value;
      var r := rate.value;
      if !r.allowed then
        Response(429,
                 Some(Failure(RateLimitedError).(message := Some(RateLimitedMessage),
                                                      retryAfter := Some(r.reset - now))),
                 rate,
                 if auditOk then [KeyEntry(k, None, map[SuccessKey := SBool(false), ReasonKey := SStr(RateLimitedReason),
                                                         LimitTypeKey := SStr(LimitTypeName(r.limitType))])]
                 else [])
      else if IsBlank(email) || !isEmail(email) then
        Response(400, Some(Failure(InvalidEmailError)), rate,
                 [KeyEntry(k, None, map[EmailKey := SStr(email), SuccessKey := SBool(false), ReasonKey := SStr(InvalidEmailReason)])])
      else match fault
        case DatabaseFault =>
          Response(500, Some(Failure(DatabaseError)), rate,
                   [KeyEntry(k, None, map[SuccessKey := SBool(false), ErrorKey := SStr(DatabaseErrorTag)])])
        case OtherFault =>
          Response(500, Some(Failure(ServerError)), rate,
                   [KeyEntry(k, None, map[SuccessKey := SBool(false), ErrorKey := SStr(ServerErrorTag)])])
        case NoFault =>
          match found
          case Some(m) =>
            Response(200, Some(Body(None, None, None, true, m.mmCepi, Some(m.orgId), Some(m.orgName))), rate,
                     [KeyEntry(k, Some(m.orgId), map[EmailKey := SStr(email), SuccessKey := SBool(true), FoundKey := SBool(true),
                                                     MmCepiKey := SBool(m.mmCepi), OrganisationIdKey := SInt(m.orgId)])])
          case None =>
            Response(200, Some(Body(None, None, None, false, false, None, None)), rate,
                     [KeyEntry(k, None, map[EmailKey := SStr(email), SuccessKey := SBool(true), FoundKey := SBool(false)])])
  }

  /** Whether the request reaches the member lookup. */
  predicate LooksUp(httpMethod: string, key: Option<ApiKey.KeyRow>, rate: Option<RateLimiter.RateResult>,
                    email: string, isEmail: string -> bool, fault: Fault) {
    httpMethod != "OPTIONS" && key.Some? && rate.Some? && rate.value.allowed
    && !IsBlank(email) && isEmail(email) && fault == NoFault
  }

  /** The limiter's answer for this request: what checkLimit decides on the
      client's record. */
  function RateFor(store: map<string, RateLimiter.Stored>, req: Request, now: int): RateLimiter.RateResult
  {
    RateLimiter.Step(RateLimiter.Load(store, RateLimiter.CacheKey(req.clientIp)), now, PerMinute, PerHour).0
  }

  /** One request. `limiter` is the page's `new RateLimiter(60, 1000)` over the
      cache directory; `c` and `configured` are the crypto primitives and the
      configured key that hashForLookup uses. */
  method HandleRequest(req: Request, keys: ApiKey.KeyTable, limiter: RateLimiter.Limiter,
                       store: Members.MemberStore, orgs: map<int, string>, activity: Log,
                       verify: (string, string) -> bool, c: EmailHasher.Crypto, configured: Option<string>,
                       isEmail: string -> bool, now: int, fault: Fault, auditOk: bool)
    returns (out: Response, found: Option<Members.Match>)
    requires keys.Valid()
    requires limiter.perMinute == PerMinute && limiter.perHour == PerHour
    modifies keys, limiter, activity
    ensures keys.Valid()
    ensures req.httpMethod == "OPTIONS" ==>
              out == Response(200, None, None, []) && keys.rows == old(keys.rows) && limiter.store == old(limiter.store)
    ensures req.httpMethod != "OPTIONS" ==>
              var key := ApiKey.Validated(old(keys.rows), ApiKeyValidator.Credential(req), verify, now);
              var rate := if key.Some? then Some(RateFor(old(limiter.store), req, now)) else None;
              && out == Respond(req.httpMethod, key, rate, now, RequestedEmail(req), isEmail, found, fault, auditOk)
              && (key.None? ==> keys.rows == old(keys.rows) && limiter.store == old(limiter.store))
              && (key.Some? ==> keys.rows == ApiKey.WithLastUsed(old(keys.rows), key.value.id, now))
              && (key.Some? && !rate.value.allowed ==> limiter.store == old(limiter.store))
              && (key.Some? && rate.value.allowed ==>
                    var ck := RateLimiter.CacheKey(req.clientIp);
                    limiter.store == old(limiter.store)[ck := RateLimiter.Step(RateLimiter.Load(old(limiter.store), ck), now, PerMinute, PerHour).1])
              && (LooksUp(req.httpMethod, key, rate, RequestedEmail(req), isEmail, fault) ==>
                    Members.IsLookupResult(store.rows, orgs, EmailHasher.HashForLookup(c, configured, RequestedEmail(req)), found))
    ensures activity.entries == old(activity.entries) + out.logged
  {
    var email := RequestedEmail(req);
    out, found := Answer(req, email, keys, limiter, store, orgs, activity, verify, c, configured, isEmail, now, fault, auditOk);
  }

  /** The request once its e-mail field has been read. */
  method Answer(req: Request, email: string, keys: ApiKey.KeyTable, limiter: RateLimiter.Limiter,
                       store: Members.MemberStore, orgs: map<int, string>, activity: Log,
                       verify: (string, string) -> bool, c: EmailHasher.Crypto, configured: Option<string>,
                       isEmail: string -> bool, now: int, fault: Fault, auditOk: bool)
    returns (out: Response, found: Option<Members.Match>)
    requires keys.Valid()
    requires limiter.perMinute == PerMinute && limiter.perHour == PerHour
    modifies keys, limiter, activity
    ensures keys.Valid()
    ensures req.httpMethod == "OPTIONS" ==>
              out == Response(200, None, None, []) && keys.rows == old(keys.rows) && limiter.store == old(limiter.store)
    ensures req.httpMethod != "OPTIONS" ==>
              var key := ApiKey.Validated(old(keys.rows), ApiKeyValidator.Credential(req), verify, now);
              var rate := if key.Some? then Some(RateFor(old(limiter.store), req, now)) else None;
              && out == Respond(req.httpMethod, key, rate, now, email, isEmail, found, fault, auditOk)
              && (key.None? ==> keys.rows == old(keys.rows) && limiter.store == old(limiter.store))
              && (key.Some? ==> keys.rows == ApiKey.WithLastUsed(old(keys.rows), key.value.id, now))
              && (key.Some? && !rate.value.allowed ==> limiter.store == old(limiter.store))
              && (key.Some? && rate.value.allowed ==>
                    var ck := RateLimiter.CacheKey(req.clientIp);
                    limiter.store == old(limiter.store)[ck := RateLimiter.Step(RateLimiter.Load(old(limiter.store), ck), now, PerMinute, PerHour).1])
              && (LooksUp(req.httpMethod, key, rate, email, isEmail, fault) ==>
                    Members.IsLookupResult(store.rows, orgs, EmailHasher.HashForLookup(c, configured, email), found))
    ensures activity.entries == old(activity.entries) + out.logged
  {
    found := None;
    if req.httpMethod == "OPTIONS" {
      return Response(200, None, None, []), found;
    }
    var key := ApiKeyValidator.ValidateFromRequest(req, keys, verify, now);
    var rate: Option<RateLimiter.RateResult> := None;
    if key.Some? {
      var r;
      r, found := Admitted(req, key.value, email, keys, limiter, store, orgs, c, configured, isEmail, now, fault);
      rate := Some(r);
    }
    out := Respond(req.httpMethod, key, rate, now, email, isEmail, found, fault, auditOk);
    activity.Append(out.logged);
  }

  /** What follows a valid key: updateLastUsed, checkLimit, and the lookup
      when the request is admitted, the address valid and nothing throws. */
  method Admitted(req: Request, key: ApiKey.KeyRow, email: string, keys: ApiKey.KeyTable, limiter: RateLimiter.Limiter,
                  store: Members.MemberStore, orgs: map<int, string>, c: EmailHasher.Crypto, configured: Option<string>,
                  isEmail: string -> bool, now: int, fault: Fault)
    returns (rate: RateLimiter.RateResult, found: Option<Members.Match>)
    requires keys.Valid()
    requires limiter.perMinute == PerMinute && limiter.perHour == PerHour
    modifies keys, limiter
    ensures keys.Valid() && keys.rows == ApiKey.WithLastUsed(old(keys.rows), key.id, now)
    ensures rate == RateFor(old(limiter.store), req, now)
    ensures !rate.allowed ==> limiter.store == old(limiter.store)
    ensures rate.allowed ==>
              var ck := RateLimiter.CacheKey(req.clientIp);
              limiter.store == old(limiter.store)[ck := RateLimiter.Step(RateLimiter.Load(old(limiter.store), ck), now, PerMinute, PerHour).1]
    ensures LooksUp(req.httpMethod, Some(key), Some(rate), email, isEmail, fault) ==>
              Members.IsLookupResult(store.rows, orgs, EmailHasher.HashForLookup(c, configured, email), found)
  {
    var _ := keys.UpdateLastUsed(key.id, now);
    rate := limiter.CheckLimit(req.clientIp, now);
    found := None;
    if rate.allowed && !IsBlank(email) && isEmail(email) && fault == NoFault {
      found := store.FindActive(orgs, EmailHasher.HashForLookup(c, configured, email));
    }
  }

  // ----- Properties -----

  /** OPTIONS is answered with 200 and no body before anything else;
      every other answer has a body, and only a lookup that found a member
      says found = true. */
  lemma EveryBodySaysWhetherFound(httpMethod: string, key: Option<ApiKey.KeyRow>, rate: Option<RateLimiter.RateResult>,
                                  now: int, email: string, isEmail: string -> bool, found: Option<Members.Match>,
                                  fault: Fault, auditOk: bool)
    requires key.Some? ==> rate.Some?
    ensures var r := Respond(httpMethod, key, rate, now, email, isEmail, found, fault, auditOk);
            && (httpMethod == "OPTIONS" <==> r.body.None?)
            && (httpMethod == "OPTIONS" ==> r.status == 200 && r.logged == [])
            && (r.body.Some? ==>
                  (r.body.value.found <==> r.status == 200 && LooksUp(httpMethod, key, rate, email, isEmail, fault) && found.Some?)
                  && (!r.body.value.found ==> !r.body.value.mmCepi && r.body.value.orgId.None? && r.body.value.orgName.None?))
  {
    if httpMethod != "OPTIONS" && key.Some? && rate.value.allowed && !IsBlank(email) && isEmail(email) {
      match fault
      case NoFault =>
      case DatabaseFault =>
      case OtherFault =>
    }
  }

  /** Without a valid key the answer is 401 with "no member", whatever the
      method (except OPTIONS); the log write is attempted, and whether it
      succeeds changes nothing else. */
  lemma MissingKeyIs401(httpMethod: string, rate: Option<RateLimiter.RateResult>, now: int, email: string,
                        isEmail: string -> bool, found: Option<Members.Match>, fault: Fault)
    requires httpMethod != "OPTIONS"
    ensures var r := Respond(httpMethod, None, rate, now, email, isEmail, found, fault, true);
            && r.status == 401 && r.body.Some? && !r.body.value.found && r.rate.None?
            && r.logged == [InvalidKeyEntry]
            && Respond(httpMethod, None, rate, now, email, isEmail, found, fault, false) == r.(logged := [])
  {
  }

  /** A full window gives 429 with retry_after = reset - now, and the rate
      headers carry the limiter's answer. */
  lemma RateLimitedIs429(httpMethod: string, key: ApiKey.KeyRow, rate: RateLimiter.RateResult, now: int, email: string,
                         isEmail: string -> bool, found: Option<Members.Match>, fault: Fault, auditOk: bool)
    requires httpMethod != "OPTIONS" && !rate.allowed
    ensures var r := Respond(httpMethod, Some(key), Some(rate), now, email, isEmail, found, fault, auditOk);
            && r.status == 429 && r.rate == Some(rate)
            && r.body.Some? && r.body.value.retryAfter == Some(rate.reset - now)
            && |r.logged| == (if auditOk then 1 else 0)
  {
  }

  /** After a valid key, each outcome writes exactly one api_call entry that
      names the key (the rate-limit entry only when its write succeeds), and
      carries the limiter's answer in its headers. */
  lemma AuthenticatedCallsLogOnce(httpMethod: string, key: ApiKey.KeyRow, rate: RateLimiter.RateResult, now: int,
                                  email: string, isEmail: string -> bool, found: Option<Members.Match>,
                                  fault: Fault, auditOk: bool)
    requires httpMethod != "OPTIONS" && (rate.allowed || auditOk)
    ensures var r := Respond(httpMethod, Some(key), Some(rate), now, email, isEmail, found, fault, auditOk);
            && |r.logged| == 1 && r.logged[0].action == "api_call" && r.logged[0].apiKeyId == Some(key.id)
            && r.rate == Some(rate)
  {
  }

  /** An empty or invalid address gives 400 and one entry tagged
      invalid_email. */
  lemma InvalidEmailIs400(httpMethod: string, key: ApiKey.KeyRow, rate: RateLimiter.RateResult, now: int, email: string,
                          isEmail: string -> bool, found: Option<Members.Match>, fault: Fault, auditOk: bool)
    requires httpMethod != "OPTIONS" && rate.allowed
    requires IsBlank(email) || !isEmail(email)
    ensures var r := Respond(httpMethod, Some(key), Some(rate), now, email, isEmail, found, fault, auditOk);
            && r.status == 400 && r.body == Some(Failure(InvalidEmailError))
            && |r.logged| == 1 && ReasonKey in r.logged[0].details && r.logged[0].details[ReasonKey] == SStr(InvalidEmailReason)
  {
  }

  /** A request that reaches the lookup answers found = true exactly when an
      active member with the address's lookup hash belongs to an existing
      organisation, and then reports that member's flag and organisation. */
  lemma FoundIffActiveMember(httpMethod: string, key: ApiKey.KeyRow, rate: RateLimiter.RateResult, now: int,
                             email: string, isEmail: string -> bool, found: Option<Members.Match>, auditOk: bool,
                             rows: map<(int, string), Members.Member>, orgs: map<int, string>, lookup: string)
    requires LooksUp(httpMethod, Some(key), Some(rate), email, isEmail, NoFault)
    requires Members.IsLookupResult(rows, orgs, lookup, found)
    ensures var r := Respond(httpMethod, Some(key), Some(rate), now, email, isEmail, found, NoFault, auditOk);
            && r.status == 200 && r.body.Some?
            && (r.body.value.found <==> exists org :: Members.IsMatch(rows, orgs, lookup, org))
            && (found.Some? ==>
                  && r.body.value.mmCepi == rows[(found.value.orgId, lookup)].mmCepi
                  && r.body.value.orgId == Some(found.value.orgId)
                  && r.body.value.orgName == Some(orgs[found.value.orgId]))
  {
    Members.LookupFindsExactlyActive(rows, orgs, lookup, found);
  }
}
