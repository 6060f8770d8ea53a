/** The members table as the sync and the lookup endpoints use it. Rows
    that carry a lookup hash are keyed by the table's unique key
    (organisation_id, email_lookup_hash); rows without one (NULL, from
    before hashing existed) are kept apart, since no statement of the
    core can reach them by hash. */
module Members {
  import opened Php

  datatype Member = Member(emailHash: string, mmCepi: bool, isActive: bool)

  datatype UnhashedMember = UnhashedMember(org: int, emailHash: string, mmCepi: bool, isActive: bool)

  /** One row of the endpoints' lookup query (members JOIN organisations). */
  datatype Match = Match(orgId: int, orgName: string, mmCepi: bool)

  /** The organisation's current members as processSyncImport collects them:
      every row of that organisation whose lookup hash is not PHP-empty,
      keyed by that hash. */
  function CurrentEmails(rows: map<(int, string), Member>, org: int): (cur: map<string, Member>)
    ensures forall h :: h in cur <==> (org, h) in rows && !IsBlank(h)
    ensures forall h :: h in cur ==> cur[h] == rows[(org, h)]
  {
    map k | k in rows.Keys && k.0 == org && !IsBlank(k.1) :: k.1 := rows[k]
  }

  /** The rows of the other organisations and the rows of this organisation
      whose lookup hash is PHP-empty: what a sync of `org` must not touch. */
  function Untouched(rows: map<(int, string), Member>, org: int): map<(int, string), Member> {
    map k | k in rows.Keys && (k.0 != org || IsBlank(k.1)) :: rows[k]
  }

  /** A row the lookup query can return for this hash: an active member
      whose organisation exists. */
  predicate IsMatch(rows: map<(int, string), Member>, orgs: map<int, string>, lookup: string, org: int) {
    (org, lookup) in rows && rows[(org, lookup)].isActive && org in orgs
  }

  /** What `... LIMIT 1` may return: some matching row, or nothing when no
      row matches. Which of several matches comes back is left to the
      database. */
  ghost predicate IsLookupResult(rows: map<(int, string), Member>, orgs: map<int, string>,
                                 lookup: string, r: Option<Match>) {
    match r
    case None => forall org :: !IsMatch(rows, orgs, lookup, org)
    case Some(m) => IsMatch(rows, orgs, lookup, m.orgId)
                    && m.orgName == orgs[m.orgId] && m.mmCepi == rows[(m.orgId, lookup)].mmCepi
  }

  class MemberStore {
    var rows: map<(int, string), Member>
    var unhashed: seq<UnhashedMember>

    constructor (rows: map<(int, string), Member>, unhashed: seq<UnhashedMember>)
      ensures this.rows == rows && this.unhashed == unhashed
    {
      this.rows := rows;
      this.unhashed := unhashed;
    }

    /** The sync's INSERT … ON DUPLICATE KEY UPDATE: afterwards the row for
        (org, lookup) exists, is active and carries the new ciphertext and
        flag, whether it was inserted or updated; nothing else changes. */
    method Upsert(org: int, lookup: string, emailHash: string, mmCepi: bool)
      modifies this
      ensures rows == old(rows)[(org, lookup) := Member(emailHash, mmCepi, true)]
      ensures unhashed == old(unhashed)
    {
      rows := rows[(org, lookup) := Member(emailHash, mmCepi, true)];
    }

    /** DELETE … WHERE organisation_id = org AND email_lookup_hash = lookup;
        the result is the affected-row count. */
    method DeleteByHash(org: int, lookup: string) returns (count: nat)
      modifies this
      ensures rows == old(rows) - {(org, lookup)}
      ensures count == if (org, lookup) in old(rows) then 1 else 0
      ensures unhashed == old(unhashed)
    {
      count := if (org, lookup) in rows then 1 else 0;
      rows := rows - {(org, lookup)};
    }

    /** The endpoints' lookup: an active member with this lookup hash whose
        organisation exists, with the organisation's name. */
    method FindActive(orgs: map<int, string>, lookup: string) returns (r: Option<Match>)
      ensures IsLookupResult(rows, orgs, lookup, r)
    {
      if exists k :: k in rows && k.1 == lookup && IsMatch(rows, orgs, lookup, k.0) {
        var k :| k in rows && k.1 == lookup && IsMatch(rows, orgs, lookup, k.0);
        r := Some(Match(k.0, orgs[k.0], rows[k].mmCepi));
      } else {
        r := None;
        forall org
          ensures !IsMatch(rows, orgs, lookup, org)
        {
          var k := (org, lookup);
          assert k.0 == org && k.1 == lookup;
        }
      }
    }
  }

  // ----- Properties -----

  /** The lookup finds a member exactly when an active row with that hash
      belongs to an existing organisation; inactive rows and rows of other
      hashes are never returned. */
  lemma LookupFindsExactlyActive(rows: map<(int, string), Member>, orgs: map<int, string>,
                                 lookup: string, r: Option<Match>)
    requires IsLookupResult(rows, orgs, lookup, r)
    ensures r.Some? <==> exists org :: IsMatch(rows, orgs, lookup, org)
    ensures r.Some? ==> rows[(r.value.orgId, lookup)].isActive
  {
  }
}
