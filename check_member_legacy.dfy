/** The older member lookup endpoint api/check-member.php: the CORS origin,
    OPTIONS, the API key, the method, the content type and JSON body, the
    e-mail, then the lookup. It has no rate limit, logs under the user name
    'api' with the key in the details, and writes nothing for a missing key
    or a missing address. */
module CheckMemberLegacy {
  import opened Php
  import opened Http
  import opened Audit
  import ApiKey
  import ApiKeyValidator
  import Members
  import EmailHasher
  import CheckMember

  type Body = CheckMember.Body
  type Json = CheckMember.Json
  type Fault = CheckMember.Fault

  /** The origins echoed in Access-Control-Allow-Origin. */
  const AllowedOrigins: seq<string> := ["http://localhost:3000", "http://localhost", "https://cepi.local"]

  /** The longest address accepted. */
  const MaxEmailLength: nat := 254

  // ----- Texts of the answers and of the activity entries -----

  const KeyRequiredError: string := "Valid API key required"
  const MethodError: string := "Method not allowed. Use GET or POST."
  const ContentTypeError: string := "Invalid content type. Use application/json for POST requests."
  const JsonError: string := "Invalid JSON format."
  const EmailRequiredError: string := "Email address is required."
  const InvalidEmailError: string := "Invalid email address"
  const DatabaseError: string := "Database error"
  const ServerError: string := "Server error"
  const JsonType: string := "application/json"
  const ApiUser: string := "api"

  const EmailKey: string := "email"
  const SuccessKey: string := "success"
  const ReasonKey: string := "reason"
  const ErrorKey: string := "error"
  const FoundKey: string := "found"
  const MmCepiKey: string := "mm_cepi"
  const OrganisationIdKey: string := "organisation_id"
  const KeyIdKey: string := "api_key_id"
  const KeyNameKey: string := "api_key_name"
  const InvalidEmailReason: string := "invalid_email"
  const DatabaseErrorTag: string := "database_error"
  const ServerErrorTag: string := "server_error"

  /** The status code, the body (none for OPTIONS), the
      Access-Control-Allow-Origin header and the activity entries written. */
  datatype Response = Response(status: int, body: Option<Body>, allowOrigin: string, logged: seq<Entry>)

  /** `in_array($origin, $allowedOrigins, true) ? $origin : '*'` */
  function AllowOrigin(origin: Option<string>): string {
    var o := OrEmpty(origin);
    if o in AllowedOrigins then o else "*"
  }

  /** The address as read: `trim($_GET['email'] ?? '')` for GET, else
      `trim($data['email'] ?? '')`, then `strtolower(trim(...))` again. */
  function RequestedEmail(req: Request): string {
    var raw := if req.httpMethod == "GET" then (if "email" in req.query then req.query["email"] else "")
               else OrEmpty(JsonField(req.body, "email"));
    Lower(Trim(Trim(raw)))
  }

  /** An api_call entry: user name 'api', the key's id and name inside the
      details, and no api_key_id column. */
  function ApiEntry(key: ApiKey.KeyRow, orgId: Option<int>, details: Json): Entry {
    Entry("organisation", orgId, Some(ApiUser), "api_call",
          details[KeyIdKey := SInt(key.id)][KeyNameKey := SStr(key.name)], None)
  }

  /** The page's decision on a request that is not OPTIONS and whose key was
      validated or not; `found` is the row of the lookup query, `fault` an
      exception the lookup throws. */
  function Respond(req: Request, email: string, key: Option<ApiKey.KeyRow>, isEmail: string -> bool,
                   found: Option<Members.Match>, fault: Fault): Response
  {
    var cors := AllowOrigin(req.origin);
    if req.httpMethod == "OPTIONS" then Response(200, None, cors, [])
    else if key.None? then Response(401, Some(CheckMember.Failure(KeyRequiredError)), cors, [])
    else if req.httpMethod != "GET" && req.httpMethod != "POST" then
      Response(405, Some(CheckMember.Failure(MethodError)), cors, [])
    else if req.httpMethod == "POST" && !Contains(OrEmpty(req.contentType), JsonType) then
      Response(400, Some(CheckMember.Failure(ContentTypeError)), cors, [])
    else if req.httpMethod == "POST" && req.body.Undecodable? then
      Response(400, Some(CheckMember.Failure(JsonError)), cors, [])
    else if IsBlank(email) then
      Response(400, Some(CheckMember.Failure(EmailRequiredError)), cors, [])
    else if !isEmail(email) || |email| > MaxEmailLength then
      Response(400, Some(CheckMember.Failure(InvalidEmailError)), cors,
               [ApiEntry(key.value, None, map[EmailKey := SStr(email), SuccessKey := SBool(false), ReasonKey := SStr(InvalidEmailReason)])])
    else match fault
      case DatabaseFault =>
        Response(500, Some(CheckMember.Failure(DatabaseError)), cors,
                 [ApiEntry(key.value, None, map[SuccessKey := SBool(false), ErrorKey := SStr(DatabaseErrorTag)])])
      case OtherFault =>
        Response(500, Some(CheckMember.Failure(ServerError)), cors,
                 [ApiEntry(key.value, None, map[SuccessKey := SBool(false), ErrorKey := SStr(ServerErrorTag)])])
      case NoFault =>
        match found
        case Some(m) =>
          Response(200, Some(CheckMember.Body(None, None, None, true, m.mmCepi, Some(m.orgId), Some(m.orgName))), cors,
                   [ApiEntry(key.value, Some(m.orgId), map[EmailKey := SStr(email), SuccessKey := SBool(true), FoundKey := SBool(true),
                                                           MmCepiKey := SBool(m.mmCepi), OrganisationIdKey := SInt(m.orgId)])])
        case None =>
          Response(200, Some(CheckMember.Body(None, None, None, false, false, None, None)), cors,
                   [ApiEntry(key.value, None, map[EmailKey := SStr(email), SuccessKey := SBool(true), FoundKey := SBool(false)])])
  }

  /** Whether the request reaches the member lookup. */
  predicate LooksUp(req: Request, email: string, key: Option<ApiKey.KeyRow>, isEmail: string -> bool, fault: Fault) {
    && key.Some? && (req.httpMethod == "GET" || req.httpMethod == "POST")
    && (req.httpMethod == "POST" ==> Contains(OrEmpty(req.contentType), JsonType) && req.body.Decoded?)
    && !IsBlank(email) && isEmail(email) && |email| <= MaxEmailLength && fault.NoFault?
  }

  /** One request: the key table's last_used_at is set for a valid key, the
      members are read, and the entries of the answer are appended. */
  method HandleRequest(req: Request, keys: ApiKey.KeyTable, store: Members.MemberStore, orgs: map<int, string>,
                       activity: Log, verify: (string, string) -> bool, c: EmailHasher.Crypto,
                       configured: Option<string>, isEmail: string -> bool, now: int, fault: Fault)
    returns (out: Response, found: Option<Members.Match>)
    requires keys.Valid()
    modifies keys, activity
    ensures keys.Valid()
    ensures var key := if req.httpMethod == "OPTIONS" then None
                       else ApiKey.Validated(old(keys.rows), ApiKeyValidator.Credential(req), verify, now);
            && out == Respond(req, RequestedEmail(req), key, isEmail, found, fault)
            && keys.rows == (if key.Some? then ApiKey.WithLastUsed(old(keys.rows), key.value.id, now) else old(keys.rows))
            && (LooksUp(req, RequestedEmail(req), key, isEmail, fault) ==>
                  Members.IsLookupResult(store.rows, orgs, EmailHasher.HashForLookup(c, configured, RequestedEmail(req)), found))
    ensures activity.entries == old(activity.entries) + out.logged
  {
    var email := RequestedEmail(req);
    out, found := Answer(req, email, keys, store, orgs, activity, verify, c, configured, isEmail, now, fault);
  }

  /** The request once its e-mail field has been read. */
  method Answer(req: Request, email: string, keys: ApiKey.KeyTable, store: Members.MemberStore, orgs: map<int, string>,
                activity: Log, verify: (string, string) -> bool, c: EmailHasher.Crypto,
                configured: Option<string>, isEmail: string -> bool, now: int, fault: Fault)
    returns (out: Response, found: Option<Members.Match>)
    requires keys.Valid()
    modifies keys, activity
    ensures keys.Valid()
    ensures var key := if req.httpMethod == "OPTIONS" then None
                       else ApiKey.Validated(old(keys.rows), ApiKeyValidator.Credential(req), verify, now);
            && out == Respond(req, email, key, isEmail, found, fault)
            && keys.rows == (if key.Some? then ApiKey.WithLastUsed(old(keys.rows), key.value.id, now) else old(keys.rows))
            && (LooksUp(req, email, key, isEmail, fault) ==>
                  Members.IsLookupResult(store.rows, orgs, EmailHasher.HashForLookup(c, configured, email), found))
    ensures activity.entries == old(activity.entries) + out.logged
  {
    found := None;
    var key: Option<ApiKey.KeyRow> := None;
    if req.httpMethod != "OPTIONS" {
      key := ApiKeyValidator.ValidateFromRequest(req, keys, verify, now);
      if key.Some? {
        found := Admitted(req, email, key.value, keys, store, orgs, c, configured, isEmail, now, fault);
      }
    }
    out := Respond(req, email, key, isEmail, found, fault);
    activity.Append(out.logged);
  }

  /** What follows a valid key: updateLastUsed, then the lookup when every
      check passes and nothing throws. */
  method Admitted(req: Request, email: string, key: ApiKey.KeyRow, keys: ApiKey.KeyTable, store: Members.MemberStore,
                  orgs: map<int, string>, c: EmailHasher.Crypto, configured: Option<string>, isEmail: string -> bool,
                  now: int, fault: Fault)
    returns (found: Option<Members.Match>)
    requires keys.Valid()
    modifies keys
    ensures keys.Valid() && keys.rows == ApiKey.WithLastUsed(old(keys.rows), key.id, now)
    ensures LooksUp(req, email, Some(key), isEmail, fault) ==>
              Members.IsLookupResult(store.rows, orgs, EmailHasher.HashForLookup(c, configured, email), found)
  {
    var _ := keys.UpdateLastUsed(key.id, now);
    found := None;
    if LooksUp(req, email, Some(key), isEmail, fault) {
      found := store.FindActive(orgs, EmailHasher.HashForLookup(c, configured, email));
    }
  }

  // ----- Properties -----

  /** The request's Origin is echoed exactly when it is on the allow-list;
      any other origin, or none, gets '*'. */
  lemma OriginEchoedOnlyWhenAllowed(origin: Option<string>)
    ensures origin.Some? && origin.value in AllowedOrigins ==> AllowOrigin(origin) == origin.value
    ensures !(origin.Some? && origin.value in AllowedOrigins) ==> AllowOrigin(origin) == "*"
  {
    assert "" !in AllowedOrigins by {
      assert |AllowedOrigins[0]| > 0 && |AllowedOrigins[1]| > 0 && |AllowedOrigins[2]| > 0;
    }
  }

  /** The key is checked before the method: without a valid key every
      method but OPTIONS gets 401, and only with one does a method other than
      GET or POST get 405. Neither writes an activity entry. */
  lemma KeyCheckedBeforeMethod(req: Request, email: string, key: Option<ApiKey.KeyRow>, isEmail: string -> bool,
                               found: Option<Members.Match>, fault: Fault)
    requires req.httpMethod != "OPTIONS"
    ensures key.None? ==> Respond(req, email, key, isEmail, found, fault).status == 401
    ensures key.Some? && req.httpMethod != "GET" && req.httpMethod != "POST" ==>
              Respond(req, email, key, isEmail, found, fault).status == 405
    ensures key.None? || (req.httpMethod != "GET" && req.httpMethod != "POST") ==>
              Respond(req, email, key, isEmail, found, fault).logged == []
  {
  }

  /** A POST must say application/json and carry a body that decodes;
      otherwise it gets 400 and nothing is logged. */
  lemma PostNeedsJson(req: Request, email: string, key: ApiKey.KeyRow, isEmail: string -> bool, found: Option<Members.Match>, fault: Fault)
    requires req.httpMethod == "POST"
    requires !Contains(OrEmpty(req.contentType), JsonType) || req.body.Undecodable?
    ensures var r := Respond(req, email, Some(key), isEmail, found, fault);
            && r.status == 400 && r.logged == []
            && r.body == Some(CheckMember.Failure(if !Contains(OrEmpty(req.contentType), JsonType) then ContentTypeError else JsonError))
  {
  }

  /** An empty address gets 400 without an activity entry; an invalid one,
      or one longer than 254 bytes, gets 400 with an invalid_email entry. */
  lemma EmailChecks(req: Request, email: string, key: ApiKey.KeyRow, isEmail: string -> bool, found: Option<Members.Match>, fault: Fault)
    requires req.httpMethod == "GET" || (req.httpMethod == "POST" && Contains(OrEmpty(req.contentType), JsonType) && req.body.Decoded?)
    ensures var r := Respond(req, email, Some(key), isEmail, found, fault);
            && (IsBlank(email) ==> r.status == 400 && r.logged == [])
            && (!IsBlank(email) && (!isEmail(email) || |email| > MaxEmailLength) ==>
                  && r.status == 400 && |r.logged| == 1
                  && ReasonKey in r.logged[0].details && r.logged[0].details[ReasonKey] == SStr(InvalidEmailReason)
                  && r.logged[0].details[KeyIdKey] == SInt(key.id))
  {
  }

  /** A request that reaches the lookup answers found = true exactly when an
      active member with the address's lookup hash belongs to an existing
      organisation; a lookup that throws gives 500 with the message for its
      kind. Every answer but OPTIONS carries the four member fields. */
  lemma LookupOutcomes(req: Request, email: string, key: ApiKey.KeyRow, isEmail: string -> bool, found: Option<Members.Match>,
                       rows: map<(int, string), Members.Member>, orgs: map<int, string>, lookup: string)
    requires LooksUp(req, email, Some(key), isEmail, CheckMember.NoFault)
    requires Members.IsLookupResult(rows, orgs, lookup, found)
    ensures var r := Respond(req, email, Some(key), isEmail, found, CheckMember.NoFault);
            && r.status == 200 && r.body.Some?
            && (r.body.value.found <==> exists org :: Members.IsMatch(rows, orgs, lookup, org))
            && (found.Some? ==> r.body.value.orgName == Some(orgs[found.value.orgId])
                                && r.body.value.mmCepi == rows[(found.value.orgId, lookup)].mmCepi)
            && |r.logged| == 1 && r.logged[0].details[FoundKey] == SBool(r.body.value.found)
    ensures Respond(req, email, Some(key), isEmail, found, CheckMember.DatabaseFault).status == 500
            && Respond(req, email, Some(key), isEmail, found, CheckMember.DatabaseFault).body == Some(CheckMember.Failure(DatabaseError))
    ensures Respond(req, email, Some(key), isEmail, found, CheckMember.OtherFault).body == Some(CheckMember.Failure(ServerError))
  {
    Members.LookupFindsExactlyActive(rows, orgs, lookup, found);
  }
}
