/** The form token of the admin pages (src/Utils/CsrfToken.php): a random
    token kept in the session with the time it was issued, valid for one
    hour. The session fields csrf_token and csrf_token_time are the
    state; the clock and the random bytes are inputs. */
module CsrfToken {
  import opened Php

  /** A token older than this many seconds has expired. */
  const Lifetime: int := 3600

  /** $_SESSION['csrf_token'] and $_SESSION['csrf_token_time']; None is unset. */
  datatype CsrfState = CsrfState(token: Option<string>, time: Option<int>)

  /** The expiry test shared by get() and validate(): a stored time that is
      more than an hour old. A missing time never expires. */
  predicate Expired(st: CsrfState, now: int) {
    st.time.Some? && now - st.time.value > Lifetime
  }

  /** generate(): a fresh token from 32 random bytes, stored with the time. */
  function GenerateStep(random: seq<byte>, now: int): (out: (string, CsrfState))
    requires |random| == 32
    ensures |out.0| == 64 && forall i :: 0 <= i < 64 ==> IsLowerHexDigit(out.0[i])
    ensures out.1 == CsrfState(Some(out.0), Some(now))
  {
    var token := Bin2Hex(random);
    (token, CsrfState(Some(token), Some(now)))
  }

  /** get(): the stored token while it is present and not expired,
      otherwise a newly generated one. */
  function GetStep(st: CsrfState, random: seq<byte>, now: int): (out: (string, CsrfState))
    requires |random| == 32
    ensures st.token.Some? && !Expired(st, now) ==> out == (st.token.value, st)
    ensures st.token.None? || Expired(st, now) ==> out == GenerateStep(random, now)
  {
    if st.token.None? || Expired(st, now) then GenerateStep(random, now)
    else (st.token.value, st)
  }

  /** validate(): false without a stored token; false with both fields
      cleared once expired; otherwise whether the submitted token equals
      the stored one (hash_equals), the state unchanged. */
  function ValidateStep(st: CsrfState, submitted: string, now: int): (out: (bool, CsrfState))
    ensures st.token.None? ==> out == (false, st)
    ensures st.token.Some? && Expired(st, now) ==> out == (false, CsrfState(None, None))
    ensures st.token.Some? && !Expired(st, now) ==> out == (submitted == st.token.value, st)
  {
    if st.token.None? then (false, st)
    else if Expired(st, now) then (false, CsrfState(None, None))
    else (submitted == st.token.value, st)
  }

  /** The session as the three static methods see it. */
  class Session {
    var token: Option<string>
    var time: Option<int>

    constructor (token: Option<string>, time: Option<int>)
      ensures this.token == token && this.time == time
    {
      this.token := token;
      this.time := time;
    }

    function State(): CsrfState
      reads this
    {
      CsrfState(token, time)
    }

    method Generate(random: seq<byte>, now: int) returns (t: string)
      requires |random| == 32
      modifies this
      ensures (t, State()) == GenerateStep(random, now)
    {
      t := Bin2Hex(random);
      token := Some(t);
      time := Some(now);
    }

    method Get(random: seq<byte>, now: int) returns (t: string)
      requires |random| == 32
      modifies this
      ensures (t, State()) == GetStep(old(State()), random, now)
    {
      if token.None? {
        t := Generate(random, now);
        return;
      }
      if time.Some? && now - time.value > Lifetime {
        t := Generate(random, now);
        return;
      }
      t := token.value;
    }

    method Validate(submitted: string, now: int) returns (ok: bool)
      modifies this
      ensures (ok, State()) == ValidateStep(old(State()), submitted, now)
    {
      if token.None? {
        return false;
      }
      if time.Some? && now - time.value > Lifetime {
        token := None;
        time := None;
        return false;
      }
      ok := submitted == token.value;
    }
  }

  // ----- Properties -----

  /** A token issued by get() is accepted by validate() until an hour has
      passed since it was issued, including at exactly 3600 seconds. */
  lemma IssuedTokenValidWithinHour(st: CsrfState, random: seq<byte>, issued: int, later: int)
    requires |random| == 32
    requires GetStep(st, random, issued).1.time.Some?
    requires later - GetStep(st, random, issued).1.time.value <= Lifetime
    ensures var (t, st') := GetStep(st, random, issued);
            ValidateStep(st', t, later) == (true, st')
  {
  }

  /** One second after the hour the token is refused and both session
      fields are cleared, so every later validation fails too. */
  lemma ExpiredTokenClears(st: CsrfState, submitted: string, now: int, later: int, again: string)
    requires st.token.Some? && st.time.Some? && now - st.time.value == Lifetime + 1
    ensures ValidateStep(st, submitted, now) == (false, CsrfState(None, None))
    ensures !ValidateStep(ValidateStep(st, submitted, now).1, again, later).0
  {
  }

  /** Within the hour get() keeps returning the same token. */
  lemma GetStableWithinHour(st: CsrfState, r1: seq<byte>, r2: seq<byte>, t1: int, t2: int)
    requires |r1| == 32 && |r2| == 32
    requires GetStep(st, r1, t1).1.time.Some? && t2 - GetStep(st, r1, t1).1.time.value <= Lifetime
    ensures GetStep(GetStep(st, r1, t1).1, r2, t2) == GetStep(st, r1, t1)
  {
  }

  /** A rejected submission on a live token changes nothing, so the right
      token still validates afterwards. */
  lemma WrongTokenKeepsState(st: CsrfState, wrong: string, now: int)
    requires st.token.Some? && !Expired(st, now) && wrong != st.token.value
    ensures ValidateStep(st, wrong, now) == (false, st)
    ensures ValidateStep(st, st.token.value, now).0
  {
  }
}
