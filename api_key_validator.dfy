/** Where a request carries its API key, and checking it against the key
    table (src/Utils/ApiKeyValidator.php). */
module ApiKeyValidator {
  import opened Php
  import opened Http
  import ApiKey

  /** PCRE `\s` without the UTF flag: space, \t, \n, \v, \f, \r. */
  predicate IsRegexSpace(c: char) {
    c == ' ' || 9 <= c as int <= 13
  }

  /** `Bearer\s` matches case-insensitively at position i. */
  predicate BearerAt(h: string, i: nat) {
    i + 7 <= |h| && Lower(h[i..i + 6]) == "bearer" && IsRegexSpace(h[i + 6])
  }

  /** The leftmost position at or after `from` where the pattern can start
      (the pattern is not anchored at the start). */
  function FindBearer(h: string, from: nat): (r: Option<nat>)
    decreases |h| - from
    ensures r.Some? ==> from <= r.value && BearerAt(h, r.value)
                        && forall k :: from <= k < r.value ==> !BearerAt(h, k)
    ensures r.None? ==> forall k :: from <= k ==> !BearerAt(h, k)
  {
    if from + 7 > |h| then None
    else if BearerAt(h, from) then Some(from)
    else FindBearer(h, from + 1)
  }

  /** The end of the run of `\s` that starts at j (the greedy `\s+`). */
  function SkipRegexSpace(h: string, j: nat): (k: nat)
    requires j <= |h|
    decreases |h| - j
    ensures j <= k <= |h| && (k == |h| || !IsRegexSpace(h[k]))
    ensures forall m :: j <= m < k ==> IsRegexSpace(h[m])
  {
    if j < |h| && IsRegexSpace(h[j]) then SkipRegexSpace(h, j + 1) else j
  }

  /** The capture `(.*)` of preg_match('/Bearer\s+(.*)$/i', $h): everything
      after the whitespace that follows the leftmost "Bearer". Header values
      carry no line feed, so `.*` reaches the end. */
  function BearerCapture(h: string): (r: Option<string>)
    ensures r.None? <==> forall k :: 0 <= k ==> !BearerAt(h, k)
    ensures r.Some? ==> exists i :: 0 <= i < |h| && BearerAt(h, i) && r.value == h[SkipRegexSpace(h, i + 6)..]
  {
    match FindBearer(h, 0)
    case None => None
    case Some(i) => Some(h[SkipRegexSpace(h, i + 6)..])
  }

  /** Neither header supplies a key. */
  predicate NoHeaderKey(req: Request) {
    BearerCapture(OrEmpty(req.authorization)).None? && IsBlank(OrEmpty(req.xApiKey))
  }

  /** A POST whose Content-Type mentions application/json. */
  predicate IsJsonPost(req: Request) {
    req.httpMethod == "POST" && req.contentType.Some? && Contains(req.contentType.value, "application/json")
  }

  /** getApiKeyFromRequest(): the first source that applies, in order:
      a Bearer Authorization header, a non-empty X-API-Key header, the
      `api_key` query parameter, the `api_key` form field of a POST, the
      `api_key` member of a JSON POST body; each trimmed. None is `null`. */
  function ExtractApiKey(req: Request): (r: Option<string>)
    ensures BearerCapture(OrEmpty(req.authorization)).Some? ==>
              r == Some(Trim(BearerCapture(OrEmpty(req.authorization)).value))
    ensures BearerCapture(OrEmpty(req.authorization)).None? && !IsBlank(OrEmpty(req.xApiKey)) ==>
              r == Some(Trim(req.xApiKey.value))
    ensures NoHeaderKey(req) && "api_key" in req.query ==> r == Some(Trim(req.query["api_key"]))
    ensures NoHeaderKey(req) && "api_key" !in req.query && req.httpMethod == "POST" && "api_key" in req.form ==>
              r == Some(Trim(req.form["api_key"]))
    ensures NoHeaderKey(req) && "api_key" !in req.query && !(req.httpMethod == "POST" && "api_key" in req.form)
            && IsJsonPost(req) && JsonField(req.body, "api_key").Some? ==>
              r == Some(Trim(JsonField(req.body, "api_key").value))
    ensures r.None? <==> && NoHeaderKey(req)
                         && "api_key" !in req.query
                         && (req.httpMethod == "POST" ==> "api_key" !in req.form)
                         && (IsJsonPost(req) ==> JsonField(req.body, "api_key").None?)
  {
    var auth := OrEmpty(req.authorization);
    var bearer := BearerCapture(auth);
    if bearer.Some? then Some(Trim(bearer.value))
    else if !IsBlank(OrEmpty(req.xApiKey)) then Some(Trim(req.xApiKey.value))
    else if "api_key" in req.query then Some(Trim(req.query["api_key"]))
    else if req.httpMethod == "POST" && "api_key" in req.form then Some(Trim(req.form["api_key"]))
    else if IsJsonPost(req) && JsonField(req.body, "api_key").Some? then
      Some(Trim(JsonField(req.body, "api_key").value))
    else None
  }

  /** The key `validate` is called with; `null` becomes the empty string,
      which `validate` rejects just as validateFromRequest's `!$apiKey` does. */
  function Credential(req: Request): string {
    OrEmpty(ExtractApiKey(req))
  }

  /** validateFromRequest(): false for a missing or PHP-empty key without
      consulting the table, otherwise whatever `validate` finds. */
  method ValidateFromRequest(req: Request, table: ApiKey.KeyTable,
                             verify: (string, string) -> bool, now: int) returns (r: Option<ApiKey.KeyRow>)
    ensures ExtractApiKey(req).None? || IsBlank(ExtractApiKey(req).value) ==> r.None?
    ensures ExtractApiKey(req).Some? && !IsBlank(ExtractApiKey(req).value) ==>
              r == ApiKey.FirstAccepted(table.rows, ExtractApiKey(req).value, verify, now)
    ensures r == ApiKey.Validated(table.rows, Credential(req), verify, now)
  {
    var key := ExtractApiKey(req);
    if key.None? || IsBlank(key.value) {
      return None;
    }
    r := table.Validate(key.value, verify, now);
  }

  // ----- Properties -----

  /** "Bearer <token>" (any letter case, any `\s` run) yields the trimmed
      token. */
  lemma BearerHeaderYieldsToken(req: Request, scheme: string, sp: string, token: string)
    requires Lower(scheme) == "bearer" && |sp| > 0 && (forall i :: 0 <= i < |sp| ==> IsRegexSpace(sp[i]))
    requires token == [] || !IsRegexSpace(token[0])
    requires req.authorization == Some(scheme + sp + token)
    ensures ExtractApiKey(req) == Some(Trim(token))
  {
    var h := scheme + sp + token;
    assert h[0..6] == scheme;
    assert BearerAt(h, 0);
    assert FindBearer(h, 0) == Some(0);
    SkipOverRun(h, 6, sp, token);
    assert h[6 + |sp|..] == token;
  }

  lemma {:induction false} SkipOverRun(h: string, j: nat, sp: string, token: string)
    requires j + |sp| + |token| == |h| && h[j..] == sp + token
    requires forall i :: 0 <= i < |sp| ==> IsRegexSpace(sp[i])
    requires token == [] || !IsRegexSpace(token[0])
    ensures SkipRegexSpace(h, j) == j + |sp|
    decreases |sp|
  {
    if sp != [] {
      assert h[j] == sp[0];
      assert h[j + 1..] == sp[1..] + token;
      SkipOverRun(h, j + 1, sp[1..], token);
    } else if token != [] {
      assert h[j] == token[0];
    }
  }

  /** A Bearer header shadows every later source, even when the token after
      it is empty: the other headers, the query, the form and the body are
      then never read. */
  lemma BearerShadowsLaterSources(req: Request, other: Request)
    requires req.authorization == other.authorization
    requires BearerCapture(OrEmpty(req.authorization)).Some?
    ensures ExtractApiKey(req) == ExtractApiKey(other)
  {
  }

  /** So a bare "Bearer " header makes the request unauthenticated even when
      a valid key is sent in X-API-Key. */
  lemma EmptyBearerRejectsRequest(req: Request, rows: seq<ApiKey.KeyRow>,
                                  verify: (string, string) -> bool, now: int)
    requires req.authorization == Some("Bearer ")
    ensures ApiKey.Validated(rows, Credential(req), verify, now).None?
  {
    var h := "Bearer ";
    assert h[0..6] == "Bearer";
    assert BearerAt(h, 0);
    assert SkipRegexSpace(h, 6) == 7;
    assert h[7..] == "";
  }

  /** The X-API-Key header "0" is PHP-empty and is passed over, so a set
      query parameter decides instead. */
  lemma ZeroHeaderIsSkipped(req: Request)
    requires BearerCapture(OrEmpty(req.authorization)).None?
    requires req.xApiKey == Some("0") && "api_key" in req.query
    ensures ExtractApiKey(req) == Some(Trim(req.query["api_key"]))
  {
  }

  /** The form and JSON sources are only read for POST requests. */
  lemma BodyIgnoredUnlessPost(req: Request, form: map<string, string>, body: JsonBody)
    requires req.httpMethod != "POST"
    ensures ExtractApiKey(req) == ExtractApiKey(req.(form := form, body := body))
  {
  }
}
