/** The parts of an HTTP request that the endpoints and the key extraction
    read, and the pieces of a JSON response they produce. */
module Http {
  import opened Php

  /** php://input passed through json_decode(…, true): either a decoding
      failure, or the top-level members whose values PHP would turn into a
      string (null members count as absent, as `isset` and `??` see them). */
  datatype JsonBody = Undecodable | Decoded(fields: map<string, string>)

  datatype Request = Request(
    /** $_SERVER['REQUEST_METHOD'] */
    httpMethod: string,
    /** $_SERVER['HTTP_AUTHORIZATION'] */
    authorization: Option<string>,
    /** $_SERVER['HTTP_X_API_KEY'] */
    xApiKey: Option<string>,
    /** $_SERVER['CONTENT_TYPE'] */
    contentType: Option<string>,
    /** $_SERVER['HTTP_ORIGIN'] */
    origin: Option<string>,
    /** $_GET */
    query: map<string, string>,
    /** $_POST */
    form: map<string, string>,
    body: JsonBody,
    /** the address RateLimiter::getClientIp derives from the request */
    clientIp: string)

  /** `$json['name']` for a decoded body, if set. */
  function JsonField(body: JsonBody, name: string): Option<string> {
    if body.Decoded? && name in body.fields then Some(body.fields[name]) else None
  }

  /** PHP `$x ?? ''` for an optional string. */
  function OrEmpty(x: Option<string>): string {
    if x.Some? then x.value else ""
  }
}
