/** The api_keys table and its operations (src/Models/ApiKey.php). Keys are
    stored only as password hashes; `password_hash` and `password_verify`
    are parameters, as is the clock. */
module ApiKey {
  import opened Php

  /** One api_keys row. Timestamps are seconds, as `strtotime` would read
      them. */
  datatype KeyRow = KeyRow(
    id: nat,
    name: string,
    hash: string,
    isActive: bool,
    expiresAt: Option<int>,
    lastUsedAt: Option<int>,
    updatedAt: Option<int>,
    createdBy: Option<int>)

  /** What `generate` returns: the new id, the plaintext key (shown once)
      and the name. */
  datatype Generated = Generated(id: nat, key: string, name: string)

  /** isExpired(): a key without an expiry never expires; otherwise it has
      expired once the expiry lies strictly before now. */
  predicate IsExpired(row: KeyRow, now: int) {
    row.expiresAt.Some? && row.expiresAt.value < now
  }

  /** The test `validate` applies to each row: active, the hash verifies the
      presented key, and not expired. */
  predicate Accepts(row: KeyRow, key: string, verify: (string, string) -> bool, now: int) {
    row.isActive && verify(key, row.hash) && !IsExpired(row, now)
  }

  /** The first accepting row in table order, if any. */
  function FirstAccepted(rows: seq<KeyRow>, key: string, verify: (string, string) -> bool, now: int): (r: Option<KeyRow>)
    ensures r.Some? ==> exists i :: 0 <= i < |rows| && rows[i] == r.value && Accepts(rows[i], key, verify, now)
                                    && forall j :: 0 <= j < i ==> !Accepts(rows[j], key, verify, now)
    ensures r.None? ==> forall i :: 0 <= i < |rows| ==> !Accepts(rows[i], key, verify, now)
  {
    if rows == [] then None
    else if Accepts(rows[0], key, verify, now) then Some(rows[0])
    else
      var r := FirstAccepted(rows[1..], key, verify, now);
      assert forall i :: 1 <= i < |rows| ==> rows[i] == rows[1..][i - 1];
      r
  }

  /** What `validate` returns: nothing for a PHP-empty key, otherwise the
      first accepting row. */
  function Validated(rows: seq<KeyRow>, key: string, verify: (string, string) -> bool, now: int): Option<KeyRow> {
    if IsBlank(key) then None else FirstAccepted(rows, key, verify, now)
  }

  /** The table after `activate`/`deactivate`: only the row with that id
      changes, and only in is_active and updated_at. */
  function WithActive(rows: seq<KeyRow>, id: nat, active: bool, now: int): (r: seq<KeyRow>)
    ensures |r| == |rows|
    ensures forall i :: 0 <= i < |rows| ==>
      r[i] == if rows[i].id == id then rows[i].(isActive := active, updatedAt := Some(now)) else rows[i]
  {
    seq(|rows|, i requires 0 <= i < |rows| =>
      if rows[i].id == id then rows[i].(isActive := active, updatedAt := Some(now)) else rows[i])
  }

  /** The table after `updateLastUsed`: only last_used_at of that id changes. */
  function WithLastUsed(rows: seq<KeyRow>, id: nat, now: int): (r: seq<KeyRow>)
    ensures |r| == |rows|
    ensures forall i :: 0 <= i < |rows| ==>
      r[i] == if rows[i].id == id then rows[i].(lastUsedAt := Some(now)) else rows[i]
  {
    seq(|rows|, i requires 0 <= i < |rows| =>
      if rows[i].id == id then rows[i].(lastUsedAt := Some(now)) else rows[i])
  }

  /** The table after `delete`: the rows with that id are gone, the others
      stay in order. */
  function Without(rows: seq<KeyRow>, id: nat): (r: seq<KeyRow>)
    ensures |r| <= |rows|
    ensures forall k :: k in r <==> k in rows && k.id != id
  {
    if rows == [] then []
    else if rows[0].id == id then Without(rows[1..], id)
    else [rows[0]] + Without(rows[1..], id)
  }

  /** Deleting distributes over concatenation, so the rows that stay keep
      their original order. */
  lemma {:induction false} WithoutAppend(a: seq<KeyRow>, b: seq<KeyRow>, id: nat)
    ensures Without(a + b, id) == Without(a, id) + Without(b, id)
  {
    if a == [] {
      assert a + b == b;
    } else {
      assert (a + b)[1..] == a[1..] + b;
      WithoutAppend(a[1..], b, id);
    }
  }

  /** One row stays exactly when its id is not the deleted one. */
  lemma WithoutSingle(k: KeyRow, id: nat)
    ensures Without([k], id) == (if k.id == id then [] else [k])
  {
    assert [k][1..] == [];
  }

  class KeyTable {
    var rows: seq<KeyRow>
    var nextId: nat

    /** Ids are distinct and below the next auto-increment value. */
    ghost predicate Valid()
      reads this
    {
      && (forall i :: 0 <= i < |rows| ==> rows[i].id < nextId)
      && (forall i, j :: 0 <= i < j < |rows| ==> rows[i].id != rows[j].id)
    }

    constructor ()
      ensures Valid() && rows == [] && nextId == 1
    {
      rows := [];
      nextId := 1;
    }

    /** generate(): the plaintext key is bin2hex of the 32 random bytes, 64
        lower-case hex digits; the new row is active and stores only the
        password hash of the key. */
    method Generate(name: string, expiresAt: Option<int>, createdBy: Option<int>,
                    random: seq<byte>, passwordHash: string -> string) returns (g: Generated)
      requires Valid() && |random| == 32
      modifies this
      ensures Valid()
      ensures g.key == Bin2Hex(random) && |g.key| == 64
      ensures forall i :: 0 <= i < |g.key| ==> IsLowerHexDigit(g.key[i])
      ensures g.id == old(nextId) && g.name == name && nextId == old(nextId) + 1
      ensures rows == old(rows) + [KeyRow(g.id, name, passwordHash(g.key), true, expiresAt, None, None, createdBy)]
    {
      var key := Bin2Hex(random);
      var row := KeyRow(nextId, name, passwordHash(key), true, expiresAt, None, None, createdBy);
      rows := rows + [row];
      g := Generated(nextId, key, name);
      nextId := nextId + 1;
    }

    /** validate(): a linear search over the active rows that skips expired
        ones and returns the first row whose hash verifies the key. */
    method Validate(key: string, verify: (string, string) -> bool, now: int) returns (r: Option<KeyRow>)
      ensures r == Validated(rows, key, verify, now)
    {
      if IsBlank(key) {
        return None;
      }
      var i := 0;
      while i < |rows|
        invariant 0 <= i <= |rows|
        invariant FirstAccepted(rows[i..], key, verify, now) == FirstAccepted(rows, key, verify, now)
      {
        var row := rows[i];
        assert rows[i..][1..] == rows[i + 1..];
        if row.isActive && verify(key, row.hash) {
          if row.expiresAt.Some? && row.expiresAt.value < now {
            i := i + 1;
            continue;
          }
          return Some(row);
        }
        i := i + 1;
      }
      return None;
    }

    /** updateLastUsed(): the statement succeeds even when no row has the id. */
    method UpdateLastUsed(id: nat, now: int) returns (ok: bool)
      requires Valid()
      modifies this
      ensures Valid() && ok
      ensures rows == WithLastUsed(old(rows), id, now) && nextId == old(nextId)
    {
      rows := WithLastUsed(rows, id, now);
      ok := true;
    }

    method Activate(id: nat, now: int) returns (ok: bool)
      requires Valid()
      modifies this
      ensures Valid() && ok
      ensures rows == WithActive(old(rows), id, true, now) && nextId == old(nextId)
    {
      rows := WithActive(rows, id, true, now);
      ok := true;
    }

    method Deactivate(id: nat, now: int) returns (ok: bool)
      requires Valid()
      modifies this
      ensures Valid() && ok
      ensures rows == WithActive(old(rows), id, false, now) && nextId == old(nextId)
    {
      rows := WithActive(rows, id, false, now);
      ok := true;
    }

    method Delete(id: nat) returns (ok: bool)
      requires Valid()
      modifies this
      ensures Valid() && ok
      ensures rows == Without(old(rows), id) && nextId == old(nextId)
    {
      WithoutKeepsIdsDistinct(rows, id, nextId);
      rows := Without(rows, id);
      ok := true;
    }
  }

  // ----- Properties -----

  /** Deleting rows keeps the ids distinct and below the counter. */
  lemma {:induction false} WithoutKeepsIdsDistinct(rows: seq<KeyRow>, id: nat, next: nat)
    requires forall i :: 0 <= i < |rows| ==> rows[i].id < next
    requires forall i, j :: 0 <= i < j < |rows| ==> rows[i].id != rows[j].id
    ensures forall i :: 0 <= i < |Without(rows, id)| ==> Without(rows, id)[i].id < next
    ensures forall i, j :: 0 <= i < j < |Without(rows, id)| ==> Without(rows, id)[i].id != Without(rows, id)[j].id
  {
    if rows != [] {
      WithoutKeepsIdsDistinct(rows[1..], id, next);
      var w := Without(rows[1..], id);
      if rows[0].id != id {
        forall j | 0 <= j < |w|
          ensures w[j].id != rows[0].id
        {
          assert w[j] in rows[1..];
        }
        assert Without(rows, id) == [rows[0]] + w;
      }
    }
  }

  /** isExpired and the test inside validate agree: a row that verifies the
      key is accepted exactly when it is active and not expired. */
  lemma AcceptsIffNotExpired(row: KeyRow, key: string, verify: (string, string) -> bool, now: int)
    requires row.isActive && verify(key, row.hash)
    ensures Accepts(row, key, verify, now) <==> !IsExpired(row, now)
  {
  }

  /** A freshly generated key validates (given that password_verify accepts
      the key against its own hash and the key has not expired), and when no
      older row accepts it, the row found is the new one. */
  lemma {:induction false} GeneratedKeyValidates(rows: seq<KeyRow>, row: KeyRow, key: string,
                                                 verify: (string, string) -> bool, now: int)
    requires !IsBlank(key) && Accepts(row, key, verify, now)
    ensures Validated(rows + [row], key, verify, now).Some?
    ensures FirstAccepted(rows, key, verify, now).None? ==> Validated(rows + [row], key, verify, now) == Some(row)
  {
    if rows != [] {
      assert (rows + [row])[1..] == rows[1..] + [row];
      GeneratedKeyValidates(rows[1..], row, key, verify, now);
    } else {
      assert rows + [row] == [row];
    }
  }

  /** After `deactivate(id)` or `delete(id)`, validate never returns that id. */
  lemma DeactivatedKeyRejected(rows: seq<KeyRow>, id: nat, key: string, verify: (string, string) -> bool,
                               t: int, now: int)
    ensures var r := Validated(WithActive(rows, id, false, t), key, verify, now); r.None? || r.value.id != id
    ensures var r := Validated(Without(rows, id), key, verify, now); r.None? || r.value.id != id
  {
  }

  /** Recording a use does not change which key validates. */
  lemma {:induction false} LastUsedKeepsValidation(rows: seq<KeyRow>, id: nat, t: int, key: string,
                                                   verify: (string, string) -> bool, now: int)
    ensures var before := FirstAccepted(rows, key, verify, now);
            var after := FirstAccepted(WithLastUsed(rows, id, t), key, verify, now);
            before.None? == after.None? && (before.Some? ==> after.value.id == before.value.id)
  {
    if rows != [] {
      assert WithLastUsed(rows, id, t)[1..] == WithLastUsed(rows[1..], id, t);
      LastUsedKeepsValidation(rows[1..], id, t, key, verify, now);
    }
  }
}
