/** The e-mail hashing layer (src/Utils/EmailHasher.php): a reversible,
    randomised storage form (AES-256-GCM, laid out as iv || tag || ciphertext
    and base64-encoded) and a deterministic lookup hash (HMAC-SHA256), both
    computed on the normalised address.

    The primitives are not modelled: they are the fields of a `Crypto`
    value, and `Sound` states the only facts about them that the layer
    relies on. */
module EmailHasher {
  import opened Php

  /** openssl_cipher_iv_length('aes-256-gcm') */
  const IvLength: nat := 12
  /** A GCM tag is always 16 bytes. */
  const TagLength: nat := 16
  /** The secret used when EMAIL_ENCRYPTION_KEY is unset or empty. */
  const DefaultSecret: string := "cepi_default_email_key_change_in_production"

  datatype Crypto = Crypto(
    /** hash('sha256', $s, true): the raw 32-byte digest */
    sha256: string -> string,
    /** hash_hmac('sha256', $message, $key): (key, message) -> hex digest */
    hmacSha256Hex: (string, string) -> string,
    /** openssl_encrypt in GCM mode: (key, iv, plaintext) -> (tag, ciphertext), or false */
    encrypt: (string, string, string) -> Option<(string, string)>,
    /** openssl_decrypt in GCM mode: (key, iv, tag, ciphertext) -> plaintext, or false */
    decrypt: (string, string, string, string) -> Option<string>,
    /** base64_encode */
    base64Encode: string -> string,
    /** base64_decode($s, true): strict decoding, false on invalid input */
    base64DecodeStrict: string -> Option<string>)

  /** What the layer assumes of the primitives: decryption under the same
      key, iv and tag inverts encryption and the tag has 16 bytes; strict
      base64 decoding inverts encoding, whose output has the standard
      length; an HMAC-SHA256 hex digest has 64 characters. */
  ghost predicate Sound(c: Crypto) {
    && (forall k, iv, p :: c.encrypt(k, iv, p).Some? ==>
          && |c.encrypt(k, iv, p).value.0| == TagLength
          && c.decrypt(k, iv, c.encrypt(k, iv, p).value.0, c.encrypt(k, iv, p).value.1) == Some(p))
    && (forall b :: c.base64DecodeStrict(c.base64Encode(b)) == Some(b))
    && (forall b :: |c.base64Encode(b)| == 4 * ((|b| + 2) / 3))
    && (forall k, m :: |c.hmacSha256Hex(k, m)| == 64)
  }

  /** Outcome of `unhash`: a string, or PHP's `false`. */
  datatype Decrypted = Plain(text: string) | Failed

  /** The secret actually used: the configured EMAIL_ENCRYPTION_KEY unless
      it is missing or PHP-empty, the fixed default secret otherwise. */
  function Secret(configured: Option<string>): (s: string)
    ensures configured.Some? && !IsBlank(configured.value) ==> s == configured.value
    ensures configured.None? || IsBlank(configured.value) ==> s == DefaultSecret
  {
    if configured.Some? && !IsBlank(configured.value) then configured.value else DefaultSecret
  }

  /** getKey(): the SHA-256 digest of the secret. */
  function GetKey(c: Crypto, configured: Option<string>): string {
    c.sha256(Secret(configured))
  }

  /** hash(): '' for a PHP-empty address; otherwise base64(iv || tag || ciphertext)
      of the normalised address, or None where openssl_encrypt fails (the
      source throws 'Failed to encrypt email address'). The iv is the random
      input. */
  function Hash(c: Crypto, configured: Option<string>, iv: string, email: string): (r: Option<string>)
    ensures IsBlank(email) ==> r == Some("")
    ensures !IsBlank(email) ==> (r.None? <==> c.encrypt(GetKey(c, configured), iv, Normalize(email)).None?)
    ensures !IsBlank(email) && r.Some? ==>
      exists tag, ct :: c.encrypt(GetKey(c, configured), iv, Normalize(email)) == Some((tag, ct))
                     && r.value == c.base64Encode(iv + tag + ct)
  {
    if IsBlank(email) then Some("")
    else
      match c.encrypt(GetKey(c, configured), iv, Normalize(email))
      case None => None
      case Some((tag, ct)) => Some(c.base64Encode(iv + tag + ct))
  }

  /** unhash(): '' for a PHP-empty input; false for invalid strict base64 or
      fewer than iv + tag bytes; otherwise the first IvLength bytes are the iv,
      the next 16 the tag and the rest the ciphertext, and the result is what
      openssl_decrypt returns. */
  function Unhash(c: Crypto, configured: Option<string>, stored: string): (r: Decrypted)
    ensures IsBlank(stored) ==> r == Plain("")
    ensures !IsBlank(stored) && c.base64DecodeStrict(stored).None? ==> r == Failed
    ensures (!IsBlank(stored) && c.base64DecodeStrict(stored).Some?
             && |c.base64DecodeStrict(stored).value| < IvLength + TagLength) ==> r == Failed
    ensures (!IsBlank(stored) && c.base64DecodeStrict(stored).Some?
             && |c.base64DecodeStrict(stored).value| >= IvLength + TagLength) ==>
              var d := c.base64DecodeStrict(stored).value;
              var p := c.decrypt(GetKey(c, configured), d[..IvLength], d[IvLength..IvLength + TagLength],
                                 d[IvLength + TagLength..]);
              r == if p.Some? then Plain(p.value) else Failed
  {
    if IsBlank(stored) then Plain("")
    else
      match c.base64DecodeStrict(stored)
      case None => Failed
      case Some(combined) =>
        if |combined| < IvLength + TagLength then Failed
        else
          var iv := combined[..IvLength];
          var tag := combined[IvLength..IvLength + TagLength];
          var ct := combined[IvLength + TagLength..];
          match c.decrypt(GetKey(c, configured), iv, tag, ct)
          case None => Failed
          case Some(p) => Plain(p)
  }

  /** verify(): false for empty arguments or a failed decryption; otherwise
      both sides compared after lower-casing and trimming. */
  function Verify(c: Crypto, configured: Option<string>, email: string, stored: string): (ok: bool)
    ensures IsBlank(email) || IsBlank(stored) ==> !ok
    ensures Unhash(c, configured, stored) == Failed ==> !ok
    ensures !IsBlank(email) && !IsBlank(stored) && Unhash(c, configured, stored).Plain? ==>
              (ok <==> Normalize(email) == Normalize(Unhash(c, configured, stored).text))
  {
    if IsBlank(email) || IsBlank(stored) then false
    else
      match Unhash(c, configured, stored)
      case Failed => false
      case Plain(p) => Normalize(email) == Normalize(p)
  }

  /** hashForLookup(): '' for a PHP-empty address, otherwise the HMAC of the
      normalised address under the key. */
  function HashForLookup(c: Crypto, configured: Option<string>, email: string): (h: string)
    ensures IsBlank(email) ==> h == ""
    ensures Sound(c) && !IsBlank(email) ==> |h| == 64
  {
    if IsBlank(email) then "" else c.hmacSha256Hex(GetKey(c, configured), Normalize(email))
  }

  /** verifyLookup(): false when either argument is PHP-empty, otherwise
      whether the recomputed lookup hash equals the stored one. */
  function VerifyLookup(c: Crypto, configured: Option<string>, email: string, lookup: string): (ok: bool)
    ensures IsBlank(email) || IsBlank(lookup) ==> !ok
    ensures !IsBlank(email) && !IsBlank(lookup) ==> (ok <==> HashForLookup(c, configured, email) == lookup)
  {
    if IsBlank(email) || IsBlank(lookup) then false
    else HashForLookup(c, configured, email) == lookup
  }

  // ----- Properties -----

  /** A missing key, an empty one and "0" all fall back to the built-in
      default secret, so they encrypt and hash exactly as if that default
      had been configured explicitly. */
  lemma BlankKeyFallsBackToDefault(c: Crypto, configured: Option<string>)
    requires configured.None? || IsBlank(configured.value)
    ensures GetKey(c, configured) == GetKey(c, Some(DefaultSecret))
  {
  }

  /** The storage form is never PHP-empty for a non-empty address. */
  lemma HashNotBlank(c: Crypto, configured: Option<string>, iv: string, email: string)
    requires Sound(c) && |iv| == IvLength && !IsBlank(email)
    requires Hash(c, configured, iv, email).Some?
    ensures |Hash(c, configured, iv, email).value| >= 40
  {
    var tag, ct :| c.encrypt(GetKey(c, configured), iv, Normalize(email)) == Some((tag, ct))
                && Hash(c, configured, iv, email).value == c.base64Encode(iv + tag + ct);
    assert |iv + tag + ct| >= IvLength + TagLength;
  }

  /** Round trip: decrypting the stored form of a non-empty address gives
      back its normal form, whatever random iv was used. */
  lemma UnhashHash(c: Crypto, configured: Option<string>, iv: string, email: string)
    requires Sound(c) && |iv| == IvLength && !IsBlank(email)
    requires Hash(c, configured, iv, email).Some?
    ensures Unhash(c, configured, Hash(c, configured, iv, email).value) == Plain(Normalize(email))
  {
    var key := GetKey(c, configured);
    var tag, ct :| c.encrypt(key, iv, Normalize(email)) == Some((tag, ct))
                && Hash(c, configured, iv, email).value == c.base64Encode(iv + tag + ct);
    var combined := iv + tag + ct;
    var stored := c.base64Encode(combined);
    HashNotBlank(c, configured, iv, email);
    assert !IsBlank(stored);
    assert c.base64DecodeStrict(stored) == Some(combined);
    assert |tag| == TagLength;
    assert combined[..IvLength] == iv;
    assert combined[IvLength..IvLength + TagLength] == tag;
    assert combined[IvLength + TagLength..] == ct;
  }

  /** verify() against a stored form accepts exactly the addresses with the
      same normal form as the one that was stored. */
  lemma VerifyHash(c: Crypto, configured: Option<string>, iv: string, stored: string, email: string)
    requires Sound(c) && |iv| == IvLength && !IsBlank(stored) && !IsBlank(email)
    requires Hash(c, configured, iv, stored).Some?
    ensures Verify(c, configured, email, Hash(c, configured, iv, stored).value)
            <==> Normalize(email) == Normalize(stored)
  {
    var h := Hash(c, configured, iv, stored).value;
    UnhashHash(c, configured, iv, stored);
    HashNotBlank(c, configured, iv, stored);
    assert !IsBlank(h);
    assert Unhash(c, configured, h) == Plain(Normalize(stored));
    NormalizeIdempotent(stored);
    assert Verify(c, configured, email, h) == (Normalize(email) == Normalize(Normalize(stored)));
  }

  /** The lookup hash is deterministic and ignores letter case and the
      whitespace `trim` removes. */
  lemma LookupIgnoresCaseAndPadding(c: Crypto, configured: Option<string>,
                                    pre: string, a: string, b: string, post: string)
    requires AllTrimSpace(pre) && AllTrimSpace(post) && Lower(a) == Lower(b)
    requires !IsBlank(pre + a + post) && !IsBlank(b)
    ensures HashForLookup(c, configured, pre + a + post) == HashForLookup(c, configured, b)
  {
    NormalizeIgnoresCaseAndPadding(pre, a, b, post);
  }

  /** A non-empty address always verifies against its own lookup hash. */
  lemma VerifyLookupOwnHash(c: Crypto, configured: Option<string>, email: string)
    requires Sound(c) && !IsBlank(email)
    ensures VerifyLookup(c, configured, email, HashForLookup(c, configured, email))
  {
    assert |HashForLookup(c, configured, email)| == 64;
  }
}
