/** The upload path of the member import (src/Services/ImportService.php,
    importFromFile, readFile and logImport): the file is validated and
    moved, read by its extension, guarded for an organisation and for
    data, synchronised, and recorded in the import log and the activity
    log. The move, the file contents and the spreadsheet reader's result
    are inputs. */
module ImportFile {
  import opened Php
  import opened EmailHasher
  import opened Members
  import opened ImportRows
  import opened ImportService
  import opened FileValidator
  import opened Audit

  const MoveFailedMessage: string := "Kon bestand niet uploaden naar server"
  const CsvOpenFailedMessage: string := "Kon CSV bestand niet lezen"
  const BadFormatMessage: string := "Ongeldig bestandsformaat. Alleen CSV, XLS en XLSX zijn toegestaan."
  const NoOrganisationMessage: string :=
    "Geen organisatie gevonden. Vul Organisation_ID in in het Excel bestand (rij 1, cel B1) of selecteer een organisatie."
  const NoDataMessage: string := "Bestand bevat geen data"
  const ValidationSeparator: string := " "
  const CsvExtension: string := "csv"
  const XlsExtension: string := "xls"
  const XlsxExtension: string := "xlsx"

  // ----- readFile -----

  /** What readFile yields: the CSV reader for "csv" (None is a file that
      cannot be opened), the spreadsheet reader's result for "xls" and
      "xlsx", and a format error for anything else. */
  function FileOutcome(ext: string, csv: Option<seq<seq<string>>>, excel: CsvResult): CsvResult {
    if ext == CsvExtension then
      if csv.None? then CsvFailed(CsvOpenFailedMessage) else CsvOutcome(csv.value)
    else if ext == XlsExtension || ext == XlsxExtension then excel
    else CsvFailed(BadFormatMessage)
  }

  method ReadFile(ext: string, csv: Option<seq<seq<string>>>, excel: CsvResult) returns (r: CsvResult)
    ensures r == FileOutcome(ext, csv, excel)
  {
    if ext == CsvExtension {
      if csv.None? {
        return CsvFailed(CsvOpenFailedMessage);
      }
      r := ReadCsv(csv.value);
    } else if ext == XlsExtension || ext == XlsxExtension {
      r := excel;
    } else {
      r := CsvFailed(BadFormatMessage);
    }
  }

  /** An extension the validator allows is one readFile can read. */
  lemma AllowedExtensionIsReadable(ext: string, csv: Option<seq<seq<string>>>, excel: CsvResult)
    requires ext in AllowedExtensions
    requires excel != CsvFailed(BadFormatMessage)
    ensures FileOutcome(ext, csv, excel) != CsvFailed(BadFormatMessage)
  {
    assert |BadFormatMessage| == 66;
    if ext == CsvExtension && csv.Some? {
      var out := CsvOutcome(csv.value);
      assert out.CsvRows? || out.message == NoHeaderMessage || out.message == NoEmailColumnMessage;
      assert |NoHeaderMessage| == 44 && |NoEmailColumnMessage| == 62;
    } else if ext == CsvExtension {
      assert |CsvOpenFailedMessage| == 26;
    }
  }

  /** A file that passed validation always has a readable extension, so
      readFile's own format error never reaches the user. */
  lemma ValidatedFileHasKnownFormat(file: UploadedFile, max: nat, csv: Option<seq<seq<string>>>, excel: CsvResult)
    requires Check(Some(file), max) == []
    requires excel != CsvFailed(BadFormatMessage)
    ensures FileOutcome(GetExtension(file.name), csv, excel) != CsvFailed(BadFormatMessage)
  {
    AcceptedIff(Some(file), max);
    AllowedExtensionIsReadable(GetExtension(file.name), csv, excel);
  }

  // ----- The guards of importFromFile -----

  /** How far importFromFile gets before the sync: stopped with a message
      (and, when the organisation variable was already set, the
      organisation the failure is logged for), or on to the sync. */
  datatype Gate = Stop(message: string, loggedFor: Option<int>) | Go(org: int, data: seq<map<string, string>>)

  /** The chain of exceptions before the sync: validation errors joined by a
      space, the failed move, the reader's error, no organisation (PHP
      empty(): null or 0), and a file without data rows. Only the last two
      happen after the organisation variable is assigned, so only they are
      logged, and they are logged even for organisation 0. */
  function Gatekeep(errors: seq<UploadError>, moved: bool, read: CsvResult, org: Option<int>): (g: Gate)
    ensures g.Go? <==>
              errors == [] && moved && read.CsvRows? && org.Some? && org.value != 0 && read.rows != []
    ensures g.Go? ==> g.org == org.value && g.data == read.rows
    ensures g.Stop? ==> (g.loggedFor.Some? <==> errors == [] && moved && read.CsvRows? && org.Some?)
    ensures g.Stop? && g.loggedFor.Some? ==> g.loggedFor == org
    ensures errors != [] ==> g == Stop(Join(Messages(errors), ValidationSeparator), None)
  {
    if errors != [] then Stop(Join(Messages(errors), ValidationSeparator), None)
    else if !moved then Stop(MoveFailedMessage, None)
    else if read.CsvFailed? then Stop(read.message, None)
    else if org.None? || org.value == 0 then Stop(NoOrganisationMessage, org)
    else if read.rows == [] then Stop(NoDataMessage, org)
    else Go(org.value, read.rows)
  }

  /** Organisation 0 is "no organisation", yet the failure is still
      recorded in the activity log against organisation 0. */
  lemma OrganisationZeroLoggedAsFailure(read: CsvResult)
    requires read.CsvRows?
    ensures Gatekeep([], true, read, Some(0)) == Stop(NoOrganisationMessage, Some(0))
  {
  }

  /** A file with a valid header but no kept rows stops before the sync and
      is logged for the organisation. */
  lemma EmptyFileStopsBeforeSync(org: int)
    requires org != 0
    ensures Gatekeep([], true, CsvRows([]), Some(org)) == Stop(NoDataMessage, Some(org))
  {
  }

  // ----- logImport -----

  const StatusPartial: string := "partial"
  const StatusSuccess: string := "success"
  const MaxLoggedErrors: nat := 10
  const MaxMessageLength: nat := 1000
  const ErrorSeparator: string := "; "
  const Ellipsis: string := "..."

  /** A row of the import_logs table. */
  datatype ImportLogEntry = ImportLogEntry(
    org: int,
    filename: string,
    imported: nat,
    added: nat,
    updated: nat,
    inactivated: nat,
    status: string,
    errorMessage: Option<string>)

  /** array_slice($errors, 0, 10). */
  function FirstErrors(errors: seq<string>): (first: seq<string>)
    ensures |first| == if |errors| < MaxLoggedErrors then |errors| else MaxLoggedErrors
    ensures first == errors[..|first|]
  {
    if |errors| <= MaxLoggedErrors then errors else errors[..MaxLoggedErrors]
  }

  /** The error_message column: null without errors; otherwise the first
      ten errors joined by "; ", cut to 1000 characters with "..." appended
      when longer. */
  function ErrorSummary(errors: seq<string>): (m: Option<string>)
    ensures m.None? <==> errors == []
    ensures m.Some? ==> |m.value| <= MaxMessageLength + 3
    ensures m.Some? ==>
              var full := Join(FirstErrors(errors), ErrorSeparator);
              if |full| <= MaxMessageLength then m.value == full
              else |m.value| == MaxMessageLength + 3 && m.value[..MaxMessageLength] == full[..MaxMessageLength]
  {
    if errors == [] then None
    else
      var full := Join(FirstErrors(errors), ErrorSeparator);
      if |full| > MaxMessageLength then Some(full[..MaxMessageLength] + Ellipsis) else Some(full)
  }

  /** The import_logs row logImport writes; rows_inactivated carries the
      sync's deletion count. */
  function LogEntry(org: int, filename: string, res: SyncResult): (e: ImportLogEntry)
    ensures e.status == StatusPartial <==> res.errors != []
    ensures e.status == StatusSuccess <==> res.errors == []
    ensures e.errorMessage.None? <==> res.errors == []
    ensures e.errorMessage == ErrorSummary(res.errors)
    ensures e.inactivated == res.deleted
  {
    ImportLogEntry(org, filename, res.imported, res.added, res.updated, res.deleted,
                   if res.errors != [] then StatusPartial else StatusSuccess, ErrorSummary(res.errors))
  }

  /** Errors after the tenth never reach the log. */
  lemma OnlyFirstTenErrorsLogged(a: seq<string>, b: seq<string>)
    requires |a| >= MaxLoggedErrors && |b| >= MaxLoggedErrors
    requires a[..MaxLoggedErrors] == b[..MaxLoggedErrors]
    ensures ErrorSummary(a) == ErrorSummary(b)
  {
    assert FirstErrors(a) == FirstErrors(b);
  }

  lemma {:induction false} JoinStartsWithFirst(parts: seq<string>, sep: string)
    requires parts != []
    ensures |parts[0]| <= |Join(parts, sep)| && Join(parts, sep)[..|parts[0]|] == parts[0]
  {
    if |parts| > 1 {
      var rest := Join(parts[1..], sep);
      assert Join(parts, sep) == parts[0] + (sep + rest);
    }
  }

  /** The first error, when it fits, opens the logged message verbatim. */
  lemma FirstErrorOpensMessage(errors: seq<string>)
    requires errors != [] && |errors[0]| <= MaxMessageLength
    ensures ErrorSummary(errors).Some?
    ensures |errors[0]| <= |ErrorSummary(errors).value|
    ensures ErrorSummary(errors).value[..|errors[0]|] == errors[0]
  {
    var first := FirstErrors(errors);
    assert first[0] == errors[0];
    JoinStartsWithFirst(first, ErrorSeparator);
    var full := Join(first, ErrorSeparator);
    if |full| > MaxMessageLength {
      assert full[..MaxMessageLength][..|errors[0]|] == full[..|errors[0]|];
    }
  }

  /** The import_logs table (src/Models/ImportLog.php, create). */
  class ImportLogTable {
    var entries: seq<ImportLogEntry>

    constructor (entries: seq<ImportLogEntry>)
      ensures this.entries == entries
    {
      this.entries := entries;
    }

    method Create(e: ImportLogEntry)
      modifies this
      ensures entries == old(entries) + [e]
    {
      entries := entries + [e];
    }
  }

  // ----- The activity log entries of importFromFile -----

  const UnknownUser: string := "unknown"
  const OrganisationEntity: string := "organisation"
  const UploadAction: string := "upload"
  const FilenameKey: string := "filename"
  const RowsImportedKey: string := "rows_imported"
  const RowsAddedKey: string := "rows_added"
  const RowsUpdatedKey: string := "rows_updated"
  const RowsDeletedKey: string := "rows_deleted"
  const SuccessKey: string := "success"
  const ErrorKey: string := "error"

  /** $username ?? 'unknown' */
  function UserName(username: Option<string>): string {
    if username.Some? then username.value else UnknownUser
  }

  function UploadEntry(org: int, username: Option<string>, details: map<string, Scalar>): Entry {
    Entry(OrganisationEntity, Some(org), Some(UserName(username)), UploadAction, details, None)
  }

  function SuccessDetails(filename: string, res: SyncResult): map<string, Scalar> {
    map[FilenameKey := SStr(filename),
        RowsImportedKey := SInt(res.imported),
        RowsAddedKey := SInt(res.added),
        RowsUpdatedKey := SInt(res.updated),
        RowsDeletedKey := SInt(res.deleted),
        SuccessKey := SBool(res.errors == [])]
  }

  function FailureDetails(filename: string, message: string): map<string, Scalar> {
    map[FilenameKey := SStr(filename), SuccessKey := SBool(false), ErrorKey := SStr(message)]
  }

  // ----- importFromFile -----

  datatype ImportOutcome = Imported(result: SyncResult) | ImportFailed(message: string)

  function NameOf(file: Option<UploadedFile>): string {
    if file.Some? then file.value.name else ""
  }

  function ExtensionOf(file: Option<UploadedFile>): string {
    if file.Some? then GetExtension(file.value.name) else ""
  }

  /** The random ivs the sync draws, one per data row. */
  function Ivs(iv: nat -> string, n: nat): (ivs: seq<string>)
    ensures |ivs| == n
  {
    seq(n, i requires 0 <= i < n => iv(i))
  }

  /** What the sync reports for a file, as ProcessSyncImport promises it. */
  function SyncReport(rows: map<(int, string), Member>, org: int, outs: seq<RowOutcome>,
                      currentOrder: seq<string>,
                      upsertFailures: map<string, string>, deleteFailures: map<string, string>): SyncResult {
    var file := FileMap(outs);
    var current := CurrentEmails(rows, org);
    SyncResult(|file|,
               |AddedSet(file, current, upsertFailures)|,
               |UpdatedSet(file, current, upsertFailures)|,
               |DeletedSet(file, current, deleteFailures)|,
               RowErrors(outs) + UpsertErrors(KeyOrder(outs), file, upsertFailures)
               + DeleteErrors(currentOrder, file, deleteFailures))
  }

  /** importFromFile. Stopped before the sync it changes no member and no
      import log, and appends an activity entry only when the organisation
      variable was set; otherwise it synchronises, writes one import_logs
      row and one activity entry, and returns the sync's result. */
  method ImportFromFile(store: MemberStore, importLogs: ImportLogTable, activity: Log,
                        org: Option<int>, file: Option<UploadedFile>, max: nat, moved: bool,
                        csv: Option<seq<seq<string>>>, excel: CsvResult, username: Option<string>,
                        c: Crypto, cfg: Option<string>, isEmail: string -> bool, iv: nat -> string,
                        currentOrder: seq<string>,
                        upsertFailures: map<string, string>, deleteFailures: map<string, string>)
    returns (out: ImportOutcome)
    requires org.Some? ==> Enumerates(currentOrder, CurrentEmails(store.rows, org.value).Keys)
    modifies store, importLogs, activity
    ensures var g := Gatekeep(Check(file, max), moved, FileOutcome(ExtensionOf(file), csv, excel), org);
            Finished(g, out, old(store.rows), store.rows, old(importLogs.entries), importLogs.entries,
                     old(activity.entries), activity.entries, NameOf(file), username,
                     c, cfg, isEmail, iv, currentOrder, upsertFailures, deleteFailures)
    ensures store.unhashed == old(store.unhashed)
  {
    var g := Admit(file, max, moved, csv, excel, org);
    out := Finish(store, importLogs, activity, g, NameOf(file), username,
                  c, cfg, isEmail, iv, currentOrder, upsertFailures, deleteFailures);
  }

  /** The outcome and the three tables after importFromFile, given where
      the guards left it. Stopped, nothing changes but the failure entry
      of the activity log, when the organisation variable was set; on to
      the sync, the members are synchronised and one import_logs row and
      one activity entry record the sync's result. */
  ghost predicate Finished(g: Gate, out: ImportOutcome,
                           rows0: map<(int, string), Member>, rows: map<(int, string), Member>,
                           logs0: seq<ImportLogEntry>, logs: seq<ImportLogEntry>,
                           activity0: seq<Entry>, activity: seq<Entry>,
                           filename: string, username: Option<string>,
                           c: Crypto, cfg: Option<string>, isEmail: string -> bool, iv: nat -> string,
                           currentOrder: seq<string>,
                           upsertFailures: map<string, string>, deleteFailures: map<string, string>)
  {
    match g
    case Stop(message, loggedFor) =>
      && out == ImportFailed(message)
      && rows == rows0
      && logs == logs0
      && activity == activity0
           + (if loggedFor.Some? then [UploadEntry(loggedFor.value, username, FailureDetails(filename, message))] else [])
    case Go(o, data) =>
      var outs := Outcomes(c, cfg, isEmail, Ivs(iv, |data|), data);
      var res := SyncReport(rows0, o, outs, currentOrder, upsertFailures, deleteFailures);
      && out == Imported(res)
      && rows == SyncedRows(rows0, o, FileMap(outs), upsertFailures, deleteFailures)
      && logs == logs0 + [LogEntry(o, filename, res)]
      && activity == activity0 + [UploadEntry(o, username, SuccessDetails(filename, res))]
  }

  /** What importFromFile does once the guards have decided. */
  method Finish(store: MemberStore, importLogs: ImportLogTable, activity: Log, g: Gate,
                filename: string, username: Option<string>,
                c: Crypto, cfg: Option<string>, isEmail: string -> bool, iv: nat -> string,
                currentOrder: seq<string>,
                upsertFailures: map<string, string>, deleteFailures: map<string, string>)
    returns (out: ImportOutcome)
    requires g.Go? ==> Enumerates(currentOrder, CurrentEmails(store.rows, g.org).Keys)
    modifies store, importLogs, activity
    ensures Finished(g, out, old(store.rows), store.rows, old(importLogs.entries), importLogs.entries,
                     old(activity.entries), activity.entries, filename, username,
                     c, cfg, isEmail, iv, currentOrder, upsertFailures, deleteFailures)
    ensures store.unhashed == old(store.unhashed)
  {
    if g.Stop? {
      if g.loggedFor.Some? {
        activity.Append([UploadEntry(g.loggedFor.value, username, FailureDetails(filename, g.message))]);
      }
      out := ImportFailed(g.message);
    } else {
      var res := SyncAndRecord(store, importLogs, activity, g.org, filename, g.data, username,
                               c, cfg, isEmail, iv, currentOrder, upsertFailures, deleteFailures);
      out := Imported(res);
    }
  }

  /** The guards of importFromFile in their order: validation, the move,
      readFile, the organisation, the data. */
  method Admit(file: Option<UploadedFile>, max: nat, moved: bool, csv: Option<seq<seq<string>>>,
               excel: CsvResult, org: Option<int>) returns (g: Gate)
    ensures g == Gatekeep(Check(file, max), moved, FileOutcome(ExtensionOf(file), csv, excel), org)
  {
    var errors := Validate(file, max);
    if errors != [] {
      return Stop(Join(Messages(errors), ValidationSeparator), None);
    }
    if !moved {
      return Stop(MoveFailedMessage, None);
    }
    var read := ReadFile(GetExtension(file.value.name), csv, excel);
    if read.CsvFailed? {
      return Stop(read.message, None);
    }
    if org.None? || org.value == 0 {
      return Stop(NoOrganisationMessage, org);
    }
    if read.rows == [] {
      return Stop(NoDataMessage, org);
    }
    g := Go(org.value, read.rows);
  }

  /** The part of importFromFile after the guards: the sync, then the
      import_logs row, then the activity entry. */
  method SyncAndRecord(store: MemberStore, importLogs: ImportLogTable, activity: Log,
                       org: int, filename: string, data: seq<map<string, string>>, username: Option<string>,
                       c: Crypto, cfg: Option<string>, isEmail: string -> bool, iv: nat -> string,
                       currentOrder: seq<string>,
                       upsertFailures: map<string, string>, deleteFailures: map<string, string>)
    returns (res: SyncResult)
    requires Enumerates(currentOrder, CurrentEmails(store.rows, org).Keys)
    modifies store, importLogs, activity
    ensures var outs := Outcomes(c, cfg, isEmail, Ivs(iv, |data|), data);
            && res == SyncReport(old(store.rows), org, outs, currentOrder, upsertFailures, deleteFailures)
            && store.rows == SyncedRows(old(store.rows), org, FileMap(outs), upsertFailures, deleteFailures)
            && importLogs.entries == old(importLogs.entries) + [LogEntry(org, filename, res)]
            && activity.entries == old(activity.entries) + [UploadEntry(org, username, SuccessDetails(filename, res))]
    ensures store.unhashed == old(store.unhashed)
  {
    res := ProcessSyncImport(store, org, data, c, cfg, isEmail, Ivs(iv, |data|), currentOrder,
                             upsertFailures, deleteFailures);
    importLogs.Create(LogEntry(org, filename, res));
    activity.Append([UploadEntry(org, username, SuccessDetails(filename, res))]);
  }
}
