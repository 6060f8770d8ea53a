/** The POST handler of public/admin/create-account.php: the organisation
    login accounts (the organisation_auth table) are created, updated and
    deleted behind three first-error-wins validation chains. What each
    database statement returns is an input; password_hash and
    filter_var(FILTER_VALIDATE_EMAIL) are parameters. */
module CreateAccount {
  import opened Php
  import opened Audit
  import CsrfToken

  // ----- Messages -----

  const BadTokenError: string := "Invalid security token. Please try again."
  const BadOrganisationError: string := "Please select a valid organization."
  const UsernameRequiredError: string := "Username is required."
  const UsernameTooLongError: string := "Username must be 100 characters or less."
  const UsernameCharsError: string := "Username contains invalid characters. Use only letters, numbers, and underscores."
  const PasswordRequiredError: string := "Password is required."
  const PasswordTooShortError: string := "Password must be at least 8 characters long."
  const PasswordTooLongError: string := "Password must be 255 characters or less."
  const PasswordMismatchError: string := "Passwords do not match."
  const BadEmailError: string := "Please enter a valid email address."
  const PasswordRangeError: string := "Password must be between 8 and 255 characters."
  const BadAuthIdError: string := "Invalid account ID."
  const OrganisationHasAccountError: string := "This organization already has an account."
  const UsernameExistsError: string := "This username already exists. Please choose another username."
  const UsernameTakenError: string := "This username is already taken by another account."
  const AccountNotFoundError: string := "Account not found."

  const MaxUsernameLength: nat := 100
  const MinPasswordLength: nat := 8
  const MaxPasswordLength: nat := 255
  const MaxEmailLength: nat := 255

  // ----- The forms and their checks -----

  /** `^[a-zA-Z0-9_]+$`; the username is trimmed first, so the `$` that
      PHP also lets match before a final newline never sees one. */
  predicate IsUsernameChar(c: char) {
    'a' <= c <= 'z' || 'A' <= c <= 'Z' || '0' <= c <= '9' || c == '_'
  }

  predicate IsUsername(u: string) {
    |u| > 0 && forall i :: 0 <= i < |u| ==> IsUsernameChar(u[i])
  }

  /** `!empty($email) && (!filter_var(...) || strlen($email) > 255)` */
  predicate BadEmail(email: string, isEmail: string -> bool) {
    !IsBlank(email) && (!isEmail(email) || |email| > MaxEmailLength)
  }

  /** `$_POST[name] ?? ''` */
  function Field(post: map<string, string>, name: string): string {
    if name in post then post[name] else ""
  }

  /** `isset($_POST[name]) ? (int)$_POST[name] : 0`; PHP's integer cast of a
      string is the parameter `toInt`. */
  function IdField(post: map<string, string>, name: string, toInt: string -> int): int {
    if name in post then toInt(post[name]) else 0
  }

  /** The fields a create or update request is checked on, as the page
      reads them: `id` is the organisation id (create) or the account id
      (update), username and e-mail are trimmed, the password and its
      confirmation are taken as submitted. */
  datatype Form = Form(id: int, username: string, password: string, confirm: string, email: string)

  /** Reads the form of a create request (`id` from organisation_id) or of
      an update request (`id` from auth_id). */
  function ReadForm(post: map<string, string>, idName: string, toInt: string -> int): (f: Form)
    ensures f.username == Trim(Field(post, "username")) && f.email == Trim(Field(post, "email"))
    ensures f.password == Field(post, "password") && f.confirm == Field(post, "password_confirm")
    ensures f.id == IdField(post, idName, toInt)
  {
    Form(IdField(post, idName, toInt), Trim(Field(post, "username")), Field(post, "password"),
         Field(post, "password_confirm"), Trim(Field(post, "email")))
  }

  /** The create chain: None when every check passes. */
  function CreateError(f: Form, isEmail: string -> bool): Option<string> {
    if f.id <= 0 then Some(BadOrganisationError)
    else if IsBlank(f.username) then Some(UsernameRequiredError)
    else if |f.username| > MaxUsernameLength then Some(UsernameTooLongError)
    else if !IsUsername(f.username) then Some(UsernameCharsError)
    else if IsBlank(f.password) then Some(PasswordRequiredError)
    else if |f.password| < MinPasswordLength then Some(PasswordTooShortError)
    else if |f.password| > MaxPasswordLength then Some(PasswordTooLongError)
    else if f.password != f.confirm then Some(PasswordMismatchError)
    else if BadEmail(f.email, isEmail) then Some(BadEmailError)
    else None
  }

  /** The update chain: the password checks apply only when a new password
      is given (PHP-empty means none). */
  function UpdateError(f: Form, isEmail: string -> bool): Option<string> {
    if f.id <= 0 then Some(BadAuthIdError)
    else if IsBlank(f.username) then Some(UsernameRequiredError)
    else if |f.username| > MaxUsernameLength then Some(UsernameTooLongError)
    else if !IsUsername(f.username) then Some(UsernameCharsError)
    else if BadEmail(f.email, isEmail) then Some(BadEmailError)
    else if !IsBlank(f.password) && (|f.password| < MinPasswordLength || |f.password| > MaxPasswordLength) then
      Some(PasswordRangeError)
    else if !IsBlank(f.password) && f.password != f.confirm then Some(PasswordMismatchError)
    else None
  }

  // ----- The same chains as lists of checks -----

  /** A check: whether it fails, and the message it reports. */
  datatype Check = Check(fails: bool, message: string)

  /** The message of the first failing check, None when all pass. */
  function FirstFailure(checks: seq<Check>): Option<string> {
    if checks == [] then None
    else if checks[0].fails then Some(checks[0].message)
    else FirstFailure(checks[1..])
  }

  /** FirstFailure reports a failing check whose predecessors all pass, and
      reports nothing exactly when every check passes. */
  lemma {:induction false} FirstFailureIsFirst(checks: seq<Check>)
    ensures FirstFailure(checks).None? <==> forall i :: 0 <= i < |checks| ==> !checks[i].fails
    ensures FirstFailure(checks).Some? ==>
              exists k :: 0 <= k < |checks| && checks[k].fails && checks[k].message == FirstFailure(checks).value
                          && forall i :: 0 <= i < k ==> !checks[i].fails
  {
    if checks != [] && !checks[0].fails {
      var rest := checks[1..];
      FirstFailureIsFirst(rest);
      assert forall i :: 1 <= i < |checks| ==> checks[i] == rest[i - 1];
      if FirstFailure(rest).Some? {
        var k :| 0 <= k < |rest| && rest[k].fails && rest[k].message == FirstFailure(rest).value
                 && forall i :: 0 <= i < k ==> !rest[i].fails;
        assert checks[k + 1] == rest[k];
      }
    }
  }

  /** The nine create checks in the order the page lists them. */
  function CreateChecks(f: Form, isEmail: string -> bool): seq<Check> {
    [Check(f.id <= 0, BadOrganisationError),
     Check(IsBlank(f.username), UsernameRequiredError),
     Check(|f.username| > MaxUsernameLength, UsernameTooLongError),
     Check(!IsUsername(f.username), UsernameCharsError),
     Check(IsBlank(f.password), PasswordRequiredError),
     Check(|f.password| < MinPasswordLength, PasswordTooShortError),
     Check(|f.password| > MaxPasswordLength, PasswordTooLongError),
     Check(f.password != f.confirm, PasswordMismatchError),
     Check(BadEmail(f.email, isEmail), BadEmailError)]
  }

  /** The update checks; both password checks are guarded by a non-empty
      new password. */
  function UpdateChecks(f: Form, isEmail: string -> bool): seq<Check> {
    var newPassword := !IsBlank(f.password);
    [Check(f.id <= 0, BadAuthIdError),
     Check(IsBlank(f.username), UsernameRequiredError),
     Check(|f.username| > MaxUsernameLength, UsernameTooLongError),
     Check(!IsUsername(f.username), UsernameCharsError),
     Check(BadEmail(f.email, isEmail), BadEmailError),
     Check(newPassword && (|f.password| < MinPasswordLength || |f.password| > MaxPasswordLength), PasswordRangeError),
     Check(newPassword && f.password != f.confirm, PasswordMismatchError)]
  }

  /** FirstFailure written out for a list of nine checks. */
  lemma FirstFailureOfNine(cs: seq<Check>)
    requires |cs| == 9
    ensures FirstFailure(cs) ==
      if cs[0].fails then Some(cs[0].message)
      else if cs[1].fails then Some(cs[1].message)
      else if cs[2].fails then Some(cs[2].message)
      else if cs[3].fails then Some(cs[3].message)
      else if cs[4].fails then Some(cs[4].message)
      else if cs[5].fails then Some(cs[5].message)
      else if cs[6].fails then Some(cs[6].message)
      else if cs[7].fails then Some(cs[7].message)
      else if cs[8].fails then Some(cs[8].message)
      else None
  {
    FirstFailureOfSeven(cs[2..]);
  }

  /** FirstFailure written out for a list of seven checks. */
  lemma FirstFailureOfSeven(cs: seq<Check>)
    requires |cs| == 7
    ensures FirstFailure(cs) ==
      if cs[0].fails then Some(cs[0].message)
      else if cs[1].fails then Some(cs[1].message)
      else if cs[2].fails then Some(cs[2].message)
      else if cs[3].fails then Some(cs[3].message)
      else if cs[4].fails then Some(cs[4].message)
      else if cs[5].fails then Some(cs[5].message)
      else if cs[6].fails then Some(cs[6].message)
      else None
  {
    var c1 := cs[1..];
    var c2 := c1[1..];
    var c3 := c2[1..];
    var c4 := c3[1..];
    var c5 := c4[1..];
    var c6 := c5[1..];
    assert FirstFailure(c6) == if cs[6].fails then Some(cs[6].message) else None by {
      assert c6 == [cs[6]];
    }
    assert FirstFailure(c5) == if cs[5].fails then Some(cs[5].message) else FirstFailure(c6);
    assert FirstFailure(c4) == if cs[4].fails then Some(cs[4].message) else FirstFailure(c5);
    assert FirstFailure(c3) == if cs[3].fails then Some(cs[3].message) else FirstFailure(c4);
    assert FirstFailure(c2) == if cs[2].fails then Some(cs[2].message) else FirstFailure(c3);
    assert FirstFailure(c1) == if cs[1].fails then Some(cs[1].message) else FirstFailure(c2);
  }

  /** The create chain reports exactly the first failing check of the list. */
  lemma CreateReportsFirstFailure(f: Form, isEmail: string -> bool)
    ensures CreateError(f, isEmail) == FirstFailure(CreateChecks(f, isEmail))
  {
    FirstFailureOfNine(CreateChecks(f, isEmail));
  }

  /** The update chain reports exactly the first failing check of its list. */
  lemma UpdateReportsFirstFailure(f: Form, isEmail: string -> bool)
    ensures UpdateError(f, isEmail) == FirstFailure(UpdateChecks(f, isEmail))
  {
    FirstFailureOfSeven(UpdateChecks(f, isEmail));
  }

  // ----- The organisation_auth table -----

  /** A row of organisation_auth. The e-mail is kept as submitted (None for
      the empty string, as `$email ?: null` passes it); its encrypted and
      lookup forms are not modelled here. */
  datatype Account = Account(orgId: int, username: string, passwordHash: string, email: Option<string>, active: bool)

  /** `$x ?: null` on a string. */
  function NonEmpty(s: string): (r: Option<string>)
    ensures r.None? <==> IsBlank(s)
    ensures r.Some? ==> r.value == s
  {
    if IsBlank(s) then None else Some(s)
  }

  /** getByOrganisationId: the organisation has an active account. */
  predicate HasActiveAccount(rows: map<int, Account>, orgId: int) {
    exists id :: id in rows && rows[id].active && rows[id].orgId == orgId
  }

  /** The username check: an active account other than `except` uses the
      name (create passes None, update the account being edited). */
  predicate UsernameTaken(rows: map<int, Account>, username: string, except: Option<int>) {
    exists id :: id in rows && rows[id].active && rows[id].username == username && except != Some(id)
  }

  /** What the table promises about active accounts: at most one per
      organisation, and no two with the same username. */
  ghost predicate ActiveUnique(rows: map<int, Account>) {
    forall i, j :: i in rows && j in rows && i != j && rows[i].active && rows[j].active ==>
      rows[i].orgId != rows[j].orgId && rows[i].username != rows[j].username
  }

  /** What a write statement did: ran and reported success, ran and reported
      failure, or threw a PDOException. */
  datatype Write = Written | NotWritten | Raised

  /** The logged-in administrator the activity entries name. */
  datatype Admin = Admin(id: int, username: Option<string>)

  /** The page's $message and $error after the POST. */
  datatype PostOutcome = PostOutcome(message: string, error: string)

  function Refused(error: string): PostOutcome {
    PostOutcome("", error)
  }

  /** What one action does: the page's outcome, the table after it, and the
      activity entries it appends. */
  datatype Effect = Effect(outcome: PostOutcome, rows: map<int, Account>, logged: seq<Entry>)

  /** PHP htmlspecialchars with the PHP 8.1 defaults (ENT_QUOTES). */
  function HtmlEscape(s: string): (r: string)
    ensures |r| >= |s|
  {
    if s == [] then []
    else
      var c := s[0];
      var e := if c == '&' then "&amp;" else if c == '"' then "&quot;" else if c == '\'' then "&#039;"
               else if c == '<' then "&lt;" else if c == '>' then "&gt;" else [c];
      e + HtmlEscape(s[1..])
  }

  /** The escaped text holds no character that opens a tag or ends an
      attribute value. */
  lemma {:induction false} EscapedHasNoMarkup(s: string)
    ensures forall i :: 0 <= i < |HtmlEscape(s)| ==> HtmlEscape(s)[i] !in {'<', '>', '"', '\''}
  {
    if s != [] {
      EscapedHasNoMarkup(s[1..]);
    }
  }

  /** Characters other than the five special ones are kept as they are. */
  lemma {:induction false} PlainTextUnescaped(s: string)
    requires forall i :: 0 <= i < |s| ==> s[i] !in {'&', '<', '>', '"', '\''}
    ensures HtmlEscape(s) == s
  {
    if s != [] {
      PlainTextUnescaped(s[1..]);
    }
  }

  /** `$org ? $org['organisation_name'] : 'Unknown'` */
  function OrganisationName(orgNames: map<int, string>, orgId: int): string {
    if orgId in orgNames then orgNames[orgId] else "Unknown"
  }

  /** `$account['organisation_name']`, the joined name, null without one. */
  function JoinedName(orgNames: map<int, string>, orgId: int): Scalar {
    if orgId in orgNames then SStr(orgNames[orgId]) else SNull
  }

  // ----- The three actions -----

  /** Why a create request is refused before anything is written, if it is:
      the form chain first, then an active account of the organisation, then
      an active account with the username. */
  function CreateRefusal(rows: map<int, Account>, f: Form, isEmail: string -> bool): (r: Option<string>)
    ensures CreateError(f, isEmail).Some? ==> r == CreateError(f, isEmail)
    ensures r.None? <==> CreateError(f, isEmail).None? && !HasActiveAccount(rows, f.id) && !UsernameTaken(rows, f.username, None)
  {
    if CreateError(f, isEmail).Some? then CreateError(f, isEmail)
    else if HasActiveAccount(rows, f.id) then Some(OrganisationHasAccountError)
    else if UsernameTaken(rows, f.username, None) then Some(UsernameExistsError)
    else None
  }

  /** create_account: the new row gets id `newId` (the next auto-increment
      value) and is active. */
  function CreateEffect(rows: map<int, Account>, newId: int, f: Form, isEmail: string -> bool,
                        hash: string -> string, write: Write, orgNames: map<int, string>, admin: Admin): (e: Effect)
    ensures e.rows.Keys <= rows.Keys + {newId}
  {
    if CreateRefusal(rows, f, isEmail).Some? then Effect(Refused(CreateRefusal(rows, f, isEmail).value), rows, [])
    else match write
      case Raised => Effect(Refused("Failed to create account. Please try again."), rows, [])
      case NotWritten => Effect(Refused("Failed to create account."), rows, [])
      case Written =>
        var name := OrganisationName(orgNames, f.id);
        Effect(PostOutcome("Account created successfully for organization \"" + HtmlEscape(name) + "\".", ""),
               rows[newId := Account(f.id, f.username, hash(f.password), NonEmpty(f.email), true)],
               [Entry("admin", Some(admin.id), admin.username, "create_account",
                      map["organisation_id" := SInt(f.id), "organisation_name" := SStr(name), "username" := SStr(f.username)],
                      None)])
  }

  /** Why an update request is refused before anything is written, if it is. */
  function UpdateRefusal(rows: map<int, Account>, f: Form, isEmail: string -> bool): (r: Option<string>)
    ensures UpdateError(f, isEmail).Some? ==> r == UpdateError(f, isEmail)
    ensures r.None? <==> UpdateError(f, isEmail).None? && f.id in rows && !UsernameTaken(rows, f.username, Some(f.id))
  {
    if UpdateError(f, isEmail).Some? then UpdateError(f, isEmail)
    else if f.id !in rows then Some(AccountNotFoundError)
    else if UsernameTaken(rows, f.username, Some(f.id)) then Some(UsernameTakenError)
    else None
  }

  /** The row an update writes: new username and e-mail, and a new password
      hash only when a new password is given. */
  function Updated(a: Account, f: Form, hash: string -> string): Account {
    a.(username := f.username, email := NonEmpty(f.email),
       passwordHash := if IsBlank(f.password) then a.passwordHash else hash(f.password))
  }

  /** update_account */
  function UpdateEffect(rows: map<int, Account>, f: Form, isEmail: string -> bool, hash: string -> string,
                        write: Write, orgNames: map<int, string>, admin: Admin): (e: Effect)
    ensures e.rows.Keys <= rows.Keys
  {
    if UpdateRefusal(rows, f, isEmail).Some? then Effect(Refused(UpdateRefusal(rows, f, isEmail).value), rows, [])
    else match write
      case Raised => Effect(Refused("Failed to update account. Please try again."), rows, [])
      case NotWritten => Effect(Refused("Failed to update account."), rows, [])
      case Written =>
        var a := rows[f.id];
        Effect(PostOutcome("Account updated successfully.", ""),
               rows[f.id := Updated(a, f, hash)],
               [Entry("admin", Some(admin.id), admin.username, "update_account",
                      map["auth_id" := SInt(f.id), "organisation_id" := SInt(a.orgId),
                          "organisation_name" := JoinedName(orgNames, a.orgId), "username" := SStr(f.username)],
                      None)])
  }

  /** delete_account */
  function DeleteEffect(rows: map<int, Account>, authId: int, write: Write, orgNames: map<int, string>, admin: Admin): (e: Effect)
    ensures e.rows.Keys <= rows.Keys
  {
    if authId <= 0 then Effect(Refused(BadAuthIdError), rows, [])
    else if authId !in rows then Effect(Refused(AccountNotFoundError), rows, [])
    else match write
      case Raised => Effect(Refused("Failed to delete account. Please try again."), rows, [])
      case NotWritten => Effect(Refused("Failed to delete account."), rows, [])
      case Written =>
        var a := rows[authId];
        Effect(PostOutcome("Account deleted successfully.", ""),
               rows - {authId},
               [Entry("admin", Some(admin.id), admin.username, "delete_account",
                      map["auth_id" := SInt(authId), "organisation_id" := SInt(a.orgId),
                          "organisation_name" := JoinedName(orgNames, a.orgId), "username" := SStr(a.username)],
                      None)])
  }

  /** The POST as a whole: the CSRF check, then the action named by
      `$_POST['action']`; an unknown or missing action does nothing. */
  function PostEffect(tokenOk: bool, rows: map<int, Account>, newId: int, post: map<string, string>,
                      toInt: string -> int, isEmail: string -> bool, hash: string -> string, write: Write,
                      orgNames: map<int, string>, admin: Admin): (e: Effect)
    ensures e.rows.Keys <= rows.Keys + {newId}
  {
    var action := Field(post, "action");
    if !tokenOk then Effect(Refused(BadTokenError), rows, [])
    else if "action" in post && action == "create_account" then
      CreateEffect(rows, newId, ReadForm(post, "organisation_id", toInt), isEmail, hash, write, orgNames, admin)
    else if "action" in post && action == "update_account" then
      UpdateEffect(rows, ReadForm(post, "auth_id", toInt), isEmail, hash, write, orgNames, admin)
    else if "action" in post && action == "delete_account" then
      DeleteEffect(rows, IdField(post, "auth_id", toInt), write, orgNames, admin)
    else Effect(PostOutcome("", ""), rows, [])
  }

  /** The organisation_auth table; `nextId` is the next auto-increment id. */
  class AccountTable {
    var rows: map<int, Account>
    var nextId: int

    ghost predicate Valid()
      reads this
    {
      forall id :: id in rows ==> id < nextId
    }

    constructor (rows: map<int, Account>, nextId: int)
      requires forall id :: id in rows ==> id < nextId
      ensures this.rows == rows && this.nextId == nextId && Valid()
    {
      this.rows := rows;
      this.nextId := nextId;
    }

    /** Applies the effect of one action; a new row takes `nextId`. */
    method Apply(e: Effect)
      requires Valid() && e.rows.Keys <= rows.Keys + {nextId}
      modifies this
      ensures rows == e.rows
      ensures nextId == if old(nextId) in e.rows then old(nextId) + 1 else old(nextId)
      ensures Valid()
    {
      var added := nextId in e.rows;
      rows := e.rows;
      if added {
        nextId := nextId + 1;
      }
    }
  }

  /** The POST handler: checks the CSRF token (which may clear the session's
      token), runs the action on the table and appends what it logs. */
  method HandlePost(session: CsrfToken.Session, table: AccountTable, activity: Log, now: int,
                    post: map<string, string>, toInt: string -> int, isEmail: string -> bool,
                    hash: string -> string, write: Write, orgNames: map<int, string>, admin: Admin)
    returns (out: PostOutcome)
    requires table.Valid()
    modifies session, table, activity
    ensures var (ok, st) := CsrfToken.ValidateStep(old(session.State()), Field(post, "csrf_token"), now);
            var e := PostEffect(ok, old(table.rows), old(table.nextId), post, toInt, isEmail, hash, write, orgNames, admin);
            && session.State() == st
            && out == e.outcome
            && table.rows == e.rows
            && activity.entries == old(activity.entries) + e.logged
    ensures table.Valid()
  {
    var ok := session.Validate(Field(post, "csrf_token"), now);
    var e := PostEffect(ok, table.rows, table.nextId, post, toInt, isEmail, hash, write, orgNames, admin);
    table.Apply(e);
    activity.Append(e.logged);
    out := e.outcome;
  }

  // ----- Properties -----

  /** Leading blanks around the username are ignored, while the password is
      checked as typed: a blank in front of it counts towards its length. */
  lemma UsernameTrimmedPasswordNot(post: map<string, string>, idName: string, toInt: string -> int, u: string, p: string)
    ensures ReadForm(post["username" := " " + u], idName, toInt).username == ReadForm(post["username" := u], idName, toInt).username
    ensures ReadForm(post["password" := " " + p], idName, toInt).password == " " + p
  {
    assert (" " + u)[1..] == u;
  }

  /** "0" is a well-formed username but PHP-empty, so it is refused as
      missing, on create and on update alike. */
  lemma ZeroUsernameRequired(f: Form, isEmail: string -> bool)
    requires f.id > 0 && f.username == "0"
    ensures IsUsername(f.username)
    ensures CreateError(f, isEmail) == Some(UsernameRequiredError)
    ensures UpdateError(f, isEmail) == Some(UsernameRequiredError)
  {
  }

  /** A seven-character password is too short, but the same password typed
      with a leading blank passes every password check. */
  lemma PaddedPasswordPassesLength(f: Form, p: string, isEmail: string -> bool)
    requires f.id > 0 && !IsBlank(f.username) && IsUsername(f.username) && |f.username| <= MaxUsernameLength
    requires |p| == MinPasswordLength - 1
    ensures CreateError(f.(password := p, confirm := p), isEmail) == Some(PasswordTooShortError)
    ensures CreateError(f.(password := " " + p, confirm := " " + p), isEmail) == if BadEmail(f.email, isEmail) then Some(BadEmailError) else None
  {
  }

  /** On update, an empty password (or "0") skips both password checks: the
      confirmation is then never looked at, and the stored hash is kept. */
  lemma UpdatePasswordOptional(a: Account, f: Form, confirm: string, isEmail: string -> bool, hash: string -> string)
    requires IsBlank(f.password)
    ensures UpdateError(f, isEmail) != Some(PasswordRangeError) && UpdateError(f, isEmail) != Some(PasswordMismatchError)
    ensures UpdateError(f.(confirm := confirm), isEmail) == UpdateError(f, isEmail)
    ensures Updated(a, f, hash).passwordHash == a.passwordHash
  {
    assert |PasswordRangeError| != |UsernameRequiredError|;
    assert |PasswordMismatchError| != |UsernameRequiredError|;
  }

  /** With a new password, a mismatching confirmation is refused even when
      every other field is fine. */
  lemma UpdateMismatchRefused(f: Form, isEmail: string -> bool)
    requires f.id > 0 && !IsBlank(f.username) && IsUsername(f.username) && |f.username| <= MaxUsernameLength
    requires !BadEmail(f.email, isEmail)
    requires MinPasswordLength <= |f.password| <= MaxPasswordLength && f.password != f.confirm
    ensures UpdateError(f, isEmail) == Some(PasswordMismatchError)
  {
  }

  /** A create request whose form passes is refused when the organisation
      already has an active account (checked first) or an active account
      uses the username, and then nothing is written or logged. */
  lemma CreateRefusedWhenTaken(rows: map<int, Account>, newId: int, f: Form, isEmail: string -> bool,
                               hash: string -> string, write: Write, orgNames: map<int, string>, admin: Admin)
    requires CreateError(f, isEmail).None?
    requires HasActiveAccount(rows, f.id) || UsernameTaken(rows, f.username, None)
    ensures var e := CreateEffect(rows, newId, f, isEmail, hash, write, orgNames, admin);
            && e.rows == rows && e.logged == []
            && e.outcome.error == (if HasActiveAccount(rows, f.id) then OrganisationHasAccountError else UsernameExistsError)
  {
  }

  /** An update or delete with a non-positive id, or the id of no account,
      reports an error and changes nothing. */
  lemma UnknownAccountChangesNothing(rows: map<int, Account>, f: Form, authId: int, isEmail: string -> bool,
                                     hash: string -> string, write: Write, orgNames: map<int, string>, admin: Admin)
    requires f.id <= 0 || f.id !in rows
    requires authId <= 0 || authId !in rows
    ensures var e := UpdateEffect(rows, f, isEmail, hash, write, orgNames, admin);
            && e.rows == rows && e.logged == [] && e.outcome.error != ""
            && e.outcome.error == (if f.id <= 0 then BadAuthIdError
                                   else if UpdateError(f, isEmail).Some? then UpdateError(f, isEmail).value
                                   else AccountNotFoundError)
    ensures var e := DeleteEffect(rows, authId, write, orgNames, admin);
            && e.rows == rows && e.logged == []
            && e.outcome.error == (if authId <= 0 then BadAuthIdError else AccountNotFoundError)
  {
    var e := UpdateEffect(rows, f, isEmail, hash, write, orgNames, admin);
    assert UpdateRefusal(rows, f, isEmail).Some?;
    assert e.outcome.error != "" by {
      var m := UpdateRefusal(rows, f, isEmail).value;
      assert m == BadAuthIdError || m == UsernameRequiredError || m == UsernameTooLongError || m == UsernameCharsError
          || m == BadEmailError || m == PasswordRangeError || m == PasswordMismatchError || m == AccountNotFoundError;
    }
  }

  /** Keeping one's own username is never "taken": the update check leaves
      the edited account out, while the create check would count it. */
  lemma OwnUsernameNotTaken(rows: map<int, Account>, id: int)
    requires ActiveUnique(rows) && id in rows && rows[id].active
    ensures !UsernameTaken(rows, rows[id].username, Some(id))
    ensures UsernameTaken(rows, rows[id].username, None)
  {
  }

  /** Creating an account keeps active accounts unique per organisation and
      per username. */
  lemma CreateKeepsUnique(rows: map<int, Account>, newId: int, f: Form, isEmail: string -> bool,
                          hash: string -> string, write: Write, orgNames: map<int, string>, admin: Admin)
    requires ActiveUnique(rows) && newId !in rows
    ensures ActiveUnique(CreateEffect(rows, newId, f, isEmail, hash, write, orgNames, admin).rows)
  {
    var e := CreateEffect(rows, newId, f, isEmail, hash, write, orgNames, admin);
    if e.rows != rows {
      assert !HasActiveAccount(rows, f.id) && !UsernameTaken(rows, f.username, None);
      forall i, j | i in e.rows && j in e.rows && i != j && e.rows[i].active && e.rows[j].active
        ensures e.rows[i].orgId != e.rows[j].orgId && e.rows[i].username != e.rows[j].username
      {
        if i == newId {
          assert j in rows && e.rows[j] == rows[j];
        } else if j == newId {
          assert i in rows && e.rows[i] == rows[i];
        }
      }
    }
  }

  /** Updating an account keeps active accounts unique. */
  lemma UpdateKeepsUnique(rows: map<int, Account>, f: Form, isEmail: string -> bool,
                          hash: string -> string, write: Write, orgNames: map<int, string>, admin: Admin)
    requires ActiveUnique(rows)
    ensures ActiveUnique(UpdateEffect(rows, f, isEmail, hash, write, orgNames, admin).rows)
  {
    var e := UpdateEffect(rows, f, isEmail, hash, write, orgNames, admin);
    if e.rows != rows {
      assert f.id in rows && !UsernameTaken(rows, f.username, Some(f.id));
      forall i, j | i in e.rows && j in e.rows && i != j && e.rows[i].active && e.rows[j].active
        ensures e.rows[i].orgId != e.rows[j].orgId && e.rows[i].username != e.rows[j].username
      {
        if i == f.id {
          assert e.rows[j] == rows[j];
        } else if j == f.id {
          assert e.rows[i] == rows[i];
        }
      }
    }
  }

  /** Deleting an account keeps active accounts unique. */
  lemma DeleteKeepsUnique(rows: map<int, Account>, authId: int, write: Write, orgNames: map<int, string>, admin: Admin)
    requires ActiveUnique(rows)
    ensures ActiveUnique(DeleteEffect(rows, authId, write, orgNames, admin).rows)
  {
  }

  /** A successful create stores exactly one new row, for the submitted
      organisation, username, hashed password and e-mail, active; every
      other row is unchanged, one `create_account` entry is logged, and the
      organisation is left with exactly this active account. */
  lemma CreatedAccountIsTheOrganisations(rows: map<int, Account>, newId: int, f: Form, isEmail: string -> bool,
                                         hash: string -> string, orgNames: map<int, string>, admin: Admin)
    requires ActiveUnique(rows) && newId !in rows
    requires CreateRefusal(rows, f, isEmail).None?
    ensures var e := CreateEffect(rows, newId, f, isEmail, hash, Written, orgNames, admin);
            && e.rows == rows[newId := Account(f.id, f.username, hash(f.password), NonEmpty(f.email), true)]
            && e.outcome.error == ""
            && e.logged == [Entry("admin", Some(admin.id), admin.username, "create_account",
                                  map["organisation_id" := SInt(f.id),
                                      "organisation_name" := SStr(OrganisationName(orgNames, f.id)),
                                      "username" := SStr(f.username)],
                                  None)]
    ensures var r := CreateEffect(rows, newId, f, isEmail, hash, Written, orgNames, admin).rows;
            forall id :: id in r && r[id].active && (r[id].orgId == f.id || r[id].username == f.username) ==> id == newId
  {
    CreateKeepsUnique(rows, newId, f, isEmail, hash, Written, orgNames, admin);
  }

  /** A successful update rewrites only the edited row: same organisation
      and active flag, the new username and e-mail, and the old hash unless a
      new password was given; one `update_account` entry is logged. */
  lemma UpdatedAccountIsRewritten(rows: map<int, Account>, f: Form, isEmail: string -> bool,
                                  hash: string -> string, orgNames: map<int, string>, admin: Admin)
    requires UpdateRefusal(rows, f, isEmail).None?
    ensures f.id in rows
    ensures var e := UpdateEffect(rows, f, isEmail, hash, Written, orgNames, admin);
            && e.rows == rows[f.id := Updated(rows[f.id], f, hash)]
            && e.rows.Keys == rows.Keys
            && e.rows[f.id].orgId == rows[f.id].orgId && e.rows[f.id].active == rows[f.id].active
            && e.rows[f.id].username == f.username && e.rows[f.id].email == NonEmpty(f.email)
            && e.rows[f.id].passwordHash == (if IsBlank(f.password) then rows[f.id].passwordHash else hash(f.password))
            && e.outcome.error == ""
            && |e.logged| == 1 && e.logged[0].action == "update_account"
            && e.logged[0].details["auth_id"] == SInt(f.id)
            && e.logged[0].details["organisation_id"] == SInt(rows[f.id].orgId)
            && e.logged[0].details["username"] == SStr(f.username)
  {
  }

  /** A successful delete removes exactly the named row and logs one
      `delete_account` entry naming the removed account. */
  lemma DeletedAccountIsRemoved(rows: map<int, Account>, authId: int, orgNames: map<int, string>, admin: Admin)
    requires 0 < authId && authId in rows
    ensures var e := DeleteEffect(rows, authId, Written, orgNames, admin);
            && e.rows == rows - {authId}
            && authId !in e.rows && (forall id :: id in rows && id != authId ==> id in e.rows && e.rows[id] == rows[id])
            && e.outcome.error == ""
            && |e.logged| == 1 && e.logged[0].action == "delete_account"
            && e.logged[0].details["auth_id"] == SInt(authId)
            && e.logged[0].details["organisation_id"] == SInt(rows[authId].orgId)
            && e.logged[0].details["username"] == SStr(rows[authId].username)
  {
  }

  /** When the create write itself fails (an exception, or no row
      affected), its failure message is reported and nothing is stored or
      logged. */
  lemma FailedCreateChangesNothing(rows: map<int, Account>, newId: int, f: Form, isEmail: string -> bool,
                                   hash: string -> string, write: Write, orgNames: map<int, string>, admin: Admin)
    requires write != Written && CreateRefusal(rows, f, isEmail).None?
    ensures var e := CreateEffect(rows, newId, f, isEmail, hash, write, orgNames, admin);
            && e.rows == rows && e.logged == []
            && e.outcome.error == (if write == Raised then "Failed to create account. Please try again." else "Failed to create account.")
  {
  }

  /** The same for a failed update write. */
  lemma FailedUpdateChangesNothing(rows: map<int, Account>, f: Form, isEmail: string -> bool,
                                   hash: string -> string, write: Write, orgNames: map<int, string>, admin: Admin)
    requires write != Written && UpdateRefusal(rows, f, isEmail).None?
    ensures var e := UpdateEffect(rows, f, isEmail, hash, write, orgNames, admin);
            && e.rows == rows && e.logged == []
            && e.outcome.error == (if write == Raised then "Failed to update account. Please try again." else "Failed to update account.")
  {
  }

  /** The same for a failed delete write. */
  lemma FailedDeleteChangesNothing(rows: map<int, Account>, authId: int, write: Write, orgNames: map<int, string>, admin: Admin)
    requires write != Written && 0 < authId && authId in rows
    ensures var e := DeleteEffect(rows, authId, write, orgNames, admin);
            && e.rows == rows && e.logged == []
            && e.outcome.error == (if write == Raised then "Failed to delete account. Please try again." else "Failed to delete account.")
  {
  }

  /** Whatever the POST does, active accounts stay unique per organisation
      and per username. */
  lemma PostKeepsUnique(tokenOk: bool, rows: map<int, Account>, newId: int, post: map<string, string>,
                        toInt: string -> int, isEmail: string -> bool, hash: string -> string, write: Write,
                        orgNames: map<int, string>, admin: Admin)
    requires ActiveUnique(rows) && newId !in rows
    ensures ActiveUnique(PostEffect(tokenOk, rows, newId, post, toInt, isEmail, hash, write, orgNames, admin).rows)
  {
    var action := Field(post, "action");
    if tokenOk && "action" in post {
      if action == "create_account" {
        CreateKeepsUnique(rows, newId, ReadForm(post, "organisation_id", toInt), isEmail, hash, write, orgNames, admin);
      } else if action == "update_account" {
        UpdateKeepsUnique(rows, ReadForm(post, "auth_id", toInt), isEmail, hash, write, orgNames, admin);
      } else if action == "delete_account" {
        DeleteKeepsUnique(rows, IdField(post, "auth_id", toInt), write, orgNames, admin);
      }
    }
  }
}
