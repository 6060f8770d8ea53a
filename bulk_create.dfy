/** The POST handler of public/admin/bulk-create-organisations.php: the
    submitted names are trimmed and blank ones dropped, then each name is
    skipped as a duplicate of one created earlier in the batch, skipped as
    an existing organisation, created, or recorded as a failed creation.
    What Organisation::create returns for each name is an input. */
module BulkCreate {
  import opened Php
  import opened Audit
  import CsrfToken

  const DuplicateReason: string := "Duplicate in input"
  const ExistsReason: string := "Already exists"
  const BadTokenError: string := "Invalid security token. Please try again."
  const NoInputError: string := "Please enter at least one organization name"
  const NoValidNamesError: string := "No valid organization names found"
  const NothingCreatedError: string :=
    "No organizations were created. All organizations may already exist or there were errors."

  datatype CreatedOrg = CreatedOrg(id: int, name: string)
  datatype SkippedOrg = SkippedOrg(name: string, reason: string)

  /** The $results array the page renders. */
  datatype BulkResults = BulkResults(
    total: nat,
    created: nat,
    skipped: nat,
    errors: seq<string>,
    createdOrgs: seq<CreatedOrg>,
    skippedOrgs: seq<SkippedOrg>)

  /** What Organisation::create does for one name: it returns the
      lastInsertId (0 is PHP-falsy) or throws. */
  datatype Attempt = Returned(id: int) | Threw(message: string)

  // ----- Cleaning the input -----

  /** array_map('trim', $organisationsArray) */
  function TrimAll(raw: seq<string>): (ts: seq<string>)
    ensures |ts| == |raw| && forall i :: 0 <= i < |raw| ==> ts[i] == Trim(raw[i])
  {
    seq(|raw|, i requires 0 <= i < |raw| => Trim(raw[i]))
  }

  /** array_filter($names, fn($name) => !empty($name)), in order: every
      non-blank entry is kept as often as it occurs, every blank one goes.
      DropBlankCounts, DropBlankSingle and DropBlankAppend state this. */
  function DropBlank(ts: seq<string>): (names: seq<string>)
    ensures |names| <= |ts|
    ensures forall x :: x in names <==> x in ts && !IsBlank(x)
  {
    if ts == [] then []
    else
      var prefix := DropBlank(ts[..|ts| - 1]);
      assert ts == ts[..|ts| - 1] + [ts[|ts| - 1]];
      if IsBlank(ts[|ts| - 1]) then prefix else prefix + [ts[|ts| - 1]]
  }

  /** The cleaned names: exactly the trimmed submissions that are not
      PHP-empty ("  Acme " is kept as "Acme"; "0" and "   " are dropped),
      in submission order, each of them already trimmed. */
  function CleanNames(raw: seq<string>): (names: seq<string>)
    ensures names == DropBlank(TrimAll(raw))
    ensures |names| <= |raw|
    ensures forall x :: x in names <==> x in TrimAll(raw) && !IsBlank(x)
    ensures forall x :: x in names ==> Trim(x) == x
  {
    var ts := TrimAll(raw);
    forall x | x in ts ensures Trim(x) == x {
      var i :| 0 <= i < |ts| && ts[i] == x;
      TrimIdempotent(raw[i]);
    }
    DropBlank(ts)
  }

  /** Every non-blank entry is kept as many times as it was submitted, and
      no blank entry is kept. */
  lemma {:induction false} DropBlankCounts(ts: seq<string>)
    ensures forall x :: multiset(DropBlank(ts))[x] == if IsBlank(x) then 0 else multiset(ts)[x]
  {
    if ts != [] {
      var n := |ts| - 1;
      DropBlankCounts(ts[..n]);
      assert ts == ts[..n] + [ts[n]];
      assert multiset(ts) == multiset(ts[..n]) + multiset{ts[n]};
    }
  }

  /** A single entry survives exactly when it is not blank. */
  lemma DropBlankSingle(x: string)
    ensures DropBlank([x]) == if IsBlank(x) then [] else [x]
  {
    assert [x][..0] == [];
  }

  /** One unfolding of DropBlank at the last entry. */
  lemma DropBlankLast(ts: seq<string>)
    requires ts != []
    ensures DropBlank(ts) == DropBlank(ts[..|ts| - 1]) + if IsBlank(ts[|ts| - 1]) then [] else [ts[|ts| - 1]]
  {
  }

  /** Filtering a concatenation filters each part and keeps them in order;
      with DropBlankSingle this fixes DropBlank as the order-preserving
      filter. */
  lemma {:induction false} DropBlankAppend(a: seq<string>, b: seq<string>)
    ensures DropBlank(a + b) == DropBlank(a) + DropBlank(b)
    decreases |b|
  {
    if b == [] {
      assert a + b == a;
    } else {
      var n := |b| - 1;
      var c := a + b;
      var tail := if IsBlank(b[n]) then [] else [b[n]];
      DropBlankAppend(a, b[..n]);
      assert c[..|c| - 1] == a + b[..n] && c[|c| - 1] == b[n];
      DropBlankLast(c);
      DropBlankLast(b);
      assert DropBlank(a) + DropBlank(b[..n]) + tail == DropBlank(a) + (DropBlank(b[..n]) + tail);
    }
  }

  // ----- The loop, as a function of the names processed so far -----

  /** The lower-cased names created so far in this batch. */
  function CreatedLower(cs: seq<CreatedOrg>): set<string> {
    set i | 0 <= i < |cs| :: Lower(cs[i].name)
  }

  /** The loop's state: the results and $existingNames (as a set; only
      membership is asked of it). Both membership tests are `in_array`
      without its strict flag, so "7" is found in a list holding "007". */
  datatype BulkState = BulkState(results: BulkResults, existing: set<string>)

  /** One iteration of the foreach for a cleaned name. */
  function Step(st: BulkState, name: string, attempt: Attempt): BulkState {
    var r := st.results;
    var lower := Lower(name);
    if LooseIn(lower, CreatedLower(r.createdOrgs)) then
      BulkState(r.(skipped := r.skipped + 1, skippedOrgs := r.skippedOrgs + [SkippedOrg(name, DuplicateReason)]),
                st.existing)
    else if LooseIn(lower, st.existing) then
      BulkState(r.(skipped := r.skipped + 1, skippedOrgs := r.skippedOrgs + [SkippedOrg(name, ExistsReason)]),
                st.existing)
    else match attempt
      case Returned(id) =>
        if id != 0 then
          BulkState(r.(created := r.created + 1, createdOrgs := r.createdOrgs + [CreatedOrg(id, name)]),
                    st.existing + {lower})
        else
          BulkState(r.(errors := r.errors + ["Failed to create: " + name]), st.existing)
      case Threw(message) =>
        BulkState(r.(errors := r.errors + ["Error creating '" + name + "': " + message]), st.existing)
  }

  /** The state after the first |names| iterations; attempts[i] is what
      create does for names[i] if the loop gets that far. */
  function Run(names: seq<string>, attempts: seq<Attempt>, existing: set<string>, total: nat): BulkState
    requires |attempts| == |names|
  {
    if names == [] then BulkState(BulkResults(total, 0, 0, [], [], []), existing)
    else
      var n := |names| - 1;
      Step(Run(names[..n], attempts[..n], existing, total), names[n], attempts[n])
  }

  /** $existingNames before the loop: every organisation name, trimmed and
      lower-cased. */
  function ExistingNames(orgs: map<int, string>): set<string> {
    set id | id in orgs :: Lower(Trim(orgs[id]))
  }

  /** The organisations table after inserting the created rows in order. */
  function Inserted(orgs: map<int, string>, cs: seq<CreatedOrg>): map<int, string> {
    if cs == [] then orgs
    else Inserted(orgs, cs[..|cs| - 1])[cs[|cs| - 1].id := cs[|cs| - 1].name]
  }

  /** The organisations table. */
  class OrganisationTable {
    var names: map<int, string>

    constructor (names: map<int, string>)
      ensures this.names == names
    {
      this.names := names;
    }

    /** Organisation::create for a name whose insert returned `id`. */
    method Insert(id: int, name: string)
      modifies this
      ensures names == old(names)[id := name]
    {
      names := names[id := name];
    }
  }

  lemma RunStep(names: seq<string>, attempts: seq<Attempt>, existing: set<string>, total: nat, i: nat)
    requires |attempts| == |names| && i < |names|
    ensures Run(names[..i + 1], attempts[..i + 1], existing, total)
            == Step(Run(names[..i], attempts[..i], existing, total), names[i], attempts[i])
  {
    assert names[..i + 1][..i] == names[..i];
    assert attempts[..i + 1][..i] == attempts[..i];
  }

  /** The foreach over the cleaned names. */
  method CreateAll(table: OrganisationTable, names: seq<string>, attempts: seq<Attempt>) returns (results: BulkResults)
    requires |attempts| == |names|
    modifies table
    ensures results == Run(names, attempts, ExistingNames(old(table.names)), |names|).results
    ensures table.names == Inserted(old(table.names), results.createdOrgs)
  {
    var existing := ExistingNames(table.names);
    ghost var orgs0 := table.names;
    results := BulkResults(|names|, 0, 0, [], [], []);
    var i := 0;
    while i < |names|
      invariant 0 <= i <= |names|
      invariant BulkState(results, existing) == Run(names[..i], attempts[..i], ExistingNames(orgs0), |names|)
      invariant table.names == Inserted(orgs0, results.createdOrgs)
    {
      RunStep(names, attempts, ExistingNames(orgs0), |names|, i);
      var name := names[i];
      var lower := Lower(name);
      if LooseIn(lower, CreatedLower(results.createdOrgs)) {
        results := results.(skipped := results.skipped + 1,
                            skippedOrgs := results.skippedOrgs + [SkippedOrg(name, DuplicateReason)]);
      } else if LooseIn(lower, existing) {
        results := results.(skipped := results.skipped + 1,
                            skippedOrgs := results.skippedOrgs + [SkippedOrg(name, ExistsReason)]);
      } else {
        match attempts[i]
        case Returned(id) =>
          if id != 0 {
            table.Insert(id, name);
            results := results.(created := results.created + 1,
                                createdOrgs := results.createdOrgs + [CreatedOrg(id, name)]);
            existing := existing + {lower};
          } else {
            results := results.(errors := results.errors + ["Failed to create: " + name]);
          }
        case Threw(message) =>
          results := results.(errors := results.errors + ["Error creating '" + name + "': " + message]);
      }
      i := i + 1;
    }
    assert names[..i] == names && attempts[..i] == attempts;
  }

  // ----- The page -----

  /** What the page shows after a POST: the message, the error and the
      results table (null before the loop is reached). */
  datatype PostOutcome = PostOutcome(message: string, error: string, results: Option<BulkResults>)

  function Summary(r: BulkResults): (out: (string, string)) {
    if r.created > 0 then
      ("Successfully created " + NatToString(r.created) + " organization(s)."
       + (if r.skipped > 0 then " " + NatToString(r.skipped) + " organization(s) were skipped (duplicates or already exist)." else ""),
       "")
    else ("", NothingCreatedError)
  }

  function BulkDetails(r: BulkResults): map<string, Scalar> {
    map["total" := SInt(r.total), "created" := SInt(r.created), "skipped" := SInt(r.skipped),
        "errors" := SInt(|r.errors|)]
  }

  /** The POST branch: the form token, the input checks, the loop, the
      activity entry and the summary. `organisations` is None when the field
      is missing or not an array. */
  method HandlePost(session: CsrfToken.Session, table: OrganisationTable, activity: Log,
                    csrfToken: Option<string>, now: int, organisations: Option<seq<string>>,
                    attempts: seq<Attempt>, adminId: int, adminUsername: Option<string>)
    returns (out: PostOutcome)
    requires organisations.Some? ==> |attempts| == |CleanNames(organisations.value)|
    modifies session, table, activity
    ensures var submitted := if csrfToken.Some? then csrfToken.value else "";
            var (ok, after) := CsrfToken.ValidateStep(old(session.State()), submitted, now);
            && session.State() == after
            && (!ok ==> out == PostOutcome("", BadTokenError, None))
            && (ok && (organisations.None? || organisations.value == []) ==> out == PostOutcome("", NoInputError, None))
            && (ok && organisations.Some? && organisations.value != [] && CleanNames(organisations.value) == [] ==>
                  out == PostOutcome("", NoValidNamesError, None))
            && (ok && organisations.Some? && CleanNames(organisations.value) != [] ==> out.results.Some?)
    ensures out.results.None? ==> table.names == old(table.names) && activity.entries == old(activity.entries)
    ensures out.results.Some? ==>
              var names := CleanNames(organisations.value);
              && out.results.value == Run(names, attempts, ExistingNames(old(table.names)), |names|).results
              && table.names == Inserted(old(table.names), out.results.value.createdOrgs)
              && activity.entries == old(activity.entries)
                   + [Entry("admin", Some(adminId), adminUsername, "bulk_create_organisations",
                            BulkDetails(out.results.value), None)]
              && (out.message, out.error) == Summary(out.results.value)
  {
    var submitted := if csrfToken.Some? then csrfToken.value else "";
    var ok := session.Validate(submitted, now);
    if !ok {
      return PostOutcome("", BadTokenError, None);
    }
    if organisations.None? || organisations.value == [] {
      return PostOutcome("", NoInputError, None);
    }
    var names := CleanNames(organisations.value);
    if names == [] {
      return PostOutcome("", NoValidNamesError, None);
    }
    var results := CreateAll(table, names, attempts);
    activity.Append([Entry("admin", Some(adminId), adminUsername, "bulk_create_organisations", BulkDetails(results), None)]);
    var (message, error) := Summary(results);
    out := PostOutcome(message, error, Some(results));
  }

  // ----- Properties of the loop -----

  /** What the loop keeps true: every processed name is in exactly one
      bucket, the counters match the lists, and $existingNames is the
      pre-existing names plus the lower-cased created ones. */
  ghost predicate Consistent(count: nat, st: BulkState, existing: set<string>) {
    var r := st.results;
    && r.created + r.skipped + |r.errors| == count
    && r.created == |r.createdOrgs|
    && r.skipped == |r.skippedOrgs|
    && st.existing == existing + CreatedLower(r.createdOrgs)
    && (forall i, j :: 0 <= i < j < |r.createdOrgs| ==> !LooseEquals(Lower(r.createdOrgs[j].name), Lower(r.createdOrgs[i].name)))
    && (forall i :: 0 <= i < |r.createdOrgs| ==> !LooseIn(Lower(r.createdOrgs[i].name), existing))
  }

  lemma StepConsistent(count: nat, st: BulkState, existing: set<string>, name: string, attempt: Attempt)
    requires Consistent(count, st, existing)
    ensures Consistent(count + 1, Step(st, name, attempt), existing)
  {
    var r := st.results;
    var lower := Lower(name);
    if !LooseIn(lower, CreatedLower(r.createdOrgs)) && !LooseIn(lower, st.existing) && attempt.Returned? && attempt.id != 0 {
      CreationConsistent(count, st, existing, name, attempt.id);
    }
  }

  /** The one branch that changes the created list and $existingNames. */
  lemma CreationConsistent(count: nat, st: BulkState, existing: set<string>, name: string, id: int)
    requires Consistent(count, st, existing)
    requires !LooseIn(Lower(name), CreatedLower(st.results.createdOrgs)) && !LooseIn(Lower(name), st.existing) && id != 0
    ensures Consistent(count + 1, Step(st, name, Returned(id)), existing)
  {
    var r := st.results;
    var lower := Lower(name);
    var cs := r.createdOrgs + [CreatedOrg(id, name)];
    assert Step(st, name, Returned(id))
           == BulkState(r.(created := r.created + 1, createdOrgs := cs), st.existing + {lower});
    assert CreatedLower(cs) == CreatedLower(r.createdOrgs) + {lower} by {
      forall x | x in CreatedLower(cs) ensures x in CreatedLower(r.createdOrgs) + {lower} {
        var i :| 0 <= i < |cs| && x == Lower(cs[i].name);
        if i < |r.createdOrgs| { assert cs[i] == r.createdOrgs[i]; }
      }
      forall x | x in CreatedLower(r.createdOrgs) ensures x in CreatedLower(cs) {
        var i :| 0 <= i < |r.createdOrgs| && x == Lower(r.createdOrgs[i].name);
        assert cs[i] == r.createdOrgs[i];
      }
      assert Lower(cs[|r.createdOrgs|].name) == lower;
    }
    forall i, j | 0 <= i < j < |cs| ensures !LooseEquals(Lower(cs[j].name), Lower(cs[i].name)) {
      if j == |r.createdOrgs| {
        assert cs[i] == r.createdOrgs[i];
        assert Lower(r.createdOrgs[i].name) in CreatedLower(r.createdOrgs);
      }
    }
    forall x | x in existing ensures !LooseEquals(lower, x) {
      assert x in st.existing;
    }
  }

  lemma {:induction false} RunConsistent(names: seq<string>, attempts: seq<Attempt>, existing: set<string>, total: nat)
    requires |attempts| == |names|
    ensures Consistent(|names|, Run(names, attempts, existing, total), existing)
  {
    if names != [] {
      var n := |names| - 1;
      RunConsistent(names[..n], attempts[..n], existing, total);
      StepConsistent(n, Run(names[..n], attempts[..n], existing, total), existing, names[n], attempts[n]);
    }
  }

  /** Every cleaned name lands in exactly one of created, skipped and
      errors: created + skipped + |errors| == total. */
  lemma BucketsAddUp(names: seq<string>, attempts: seq<Attempt>, orgs: map<int, string>)
    requires |attempts| == |names|
    ensures var r := Run(names, attempts, ExistingNames(orgs), |names|).results;
            r.created + r.skipped + |r.errors| == |names|
            && r.created == |r.createdOrgs| && r.skipped == |r.skippedOrgs|
  {
    RunConsistent(names, attempts, ExistingNames(orgs), |names|);
  }

  /** No two organisations created in one batch are equal once lower-cased
      (under PHP's loose `==`, so not "007" and "7" either), and none
      matches a name that existed before, trimmed and lower-cased. */
  lemma CreatedNamesAreNew(names: seq<string>, attempts: seq<Attempt>, orgs: map<int, string>)
    requires |attempts| == |names|
    ensures var cs := Run(names, attempts, ExistingNames(orgs), |names|).results.createdOrgs;
            && (forall i, j :: 0 <= i < |cs| && 0 <= j < |cs| && i != j ==> !LooseEquals(Lower(cs[i].name), Lower(cs[j].name)))
            && (forall i, id :: 0 <= i < |cs| && id in orgs ==> !LooseEquals(Lower(cs[i].name), Lower(Trim(orgs[id]))))
  {
    RunConsistent(names, attempts, ExistingNames(orgs), |names|);
    var cs := Run(names, attempts, ExistingNames(orgs), |names|).results.createdOrgs;
    forall i, j | 0 <= i < |cs| && 0 <= j < |cs| && i != j ensures !LooseEquals(Lower(cs[i].name), Lower(cs[j].name)) {
      LooseEqualsSymmetric(Lower(cs[i].name), Lower(cs[j].name));
    }
    forall i, id | 0 <= i < |cs| && id in orgs ensures !LooseEquals(Lower(cs[i].name), Lower(Trim(orgs[id]))) {
      assert Lower(Trim(orgs[id])) in ExistingNames(orgs);
    }
  }

  /** A name repeated in the batch after it was created is skipped as a
      duplicate in the input, not as an existing organisation, although
      it is in $existingNames too: the batch check runs first. */
  lemma RepeatIsDuplicateInInput(st: BulkState, name: string, again: string, id: int, attempt: Attempt)
    requires id != 0 && LooseEquals(Lower(again), Lower(name))
    requires !LooseIn(Lower(name), CreatedLower(st.results.createdOrgs)) && !LooseIn(Lower(name), st.existing)
    ensures var after := Step(st, name, Returned(id));
            Step(after, again, attempt).results.skippedOrgs
            == after.results.skippedOrgs + [SkippedOrg(again, DuplicateReason)]
  {
    var cs := st.results.createdOrgs + [CreatedOrg(id, name)];
    assert Lower(cs[|cs| - 1].name) == Lower(name);
    assert Lower(name) in CreatedLower(cs);
  }

  /** A failed creation is recorded and changes nothing else, so the loop
      goes on with the next name. */
  lemma FailedCreationRecorded(st: BulkState, name: string, message: string)
    requires !LooseIn(Lower(name), CreatedLower(st.results.createdOrgs)) && !LooseIn(Lower(name), st.existing)
    ensures Step(st, name, Threw(message))
            == BulkState(st.results.(errors := st.results.errors + ["Error creating '" + name + "': " + message]), st.existing)
    ensures Step(st, name, Returned(0))
            == BulkState(st.results.(errors := st.results.errors + ["Failed to create: " + name]), st.existing)
  {
  }

  /** With an organisation "007" on file, a submitted "7" is skipped as
      already existing: `in_array` compares the two numeric strings as
      numbers. */
  lemma NumericSpellingAlreadyExists(st: BulkState, attempt: Attempt)
    requires "007" in st.existing && !LooseIn("7", CreatedLower(st.results.createdOrgs))
    ensures Step(st, "7", attempt).results.skippedOrgs == st.results.skippedOrgs + [SkippedOrg("7", ExistsReason)]
  {
    assert Lower("7") == "7";
    LeadingZerosAreLooselyEqual("007", "7");
    LooseEqualsSymmetric("007", "7");
  }

  /** "1e1" submitted after "10" was created in the same batch is skipped as
      a duplicate in the input. */
  lemma ExponentSpellingIsDuplicate(st: BulkState, id: int, attempt: Attempt)
    requires id != 0
    requires !LooseIn("10", CreatedLower(st.results.createdOrgs)) && !LooseIn("10", st.existing)
    ensures var after := Step(st, "10", Returned(id));
            Step(after, "1e1", attempt).results.skippedOrgs
            == after.results.skippedOrgs + [SkippedOrg("1e1", DuplicateReason)]
  {
    assert Lower("10") == "10" && Lower("1e1") == "1e1";
    ExponentIsLooselyEqual("10", "1e1");
    LooseEqualsSymmetric("10", "1e1");
    RepeatIsDuplicateInInput(st, "10", "1e1", id, attempt);
  }
}
