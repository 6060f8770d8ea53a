# CEPI member management — a verified model of its core

The application checks membership. Organisations upload their member lists as
CSV or Excel files, and third parties ask a REST endpoint whether an e-mail
address belongs to an active member. Addresses are never stored in clear.
Each member row keeps two values:

- a randomised AES-256-GCM ciphertext of the normalised address, for display and export;
- a deterministic HMAC-SHA256 lookup hash, which the endpoint searches on.

The admin pages manage organisations, organisation login accounts and API
keys. They are protected by a session CSRF token.

This project models, in Dafny, the parts of that system that carry real rules:

- `Php` (php.dfy): the PHP built-ins the code relies on. These are `trim`, `strtolower`, `empty()` on strings, `bin2hex` and `implode`, and PHP 8's numeric-string grammar (`is_numeric`) with the loose `==` that `in_array` applies when its strict flag is off: two numeric strings compare as exact decimal numbers, anything else byte for byte.
- `EmailHasher` (email_hasher.dfy): key derivation, `hash`/`unhash`, `verify`, `hashForLookup`, `verifyLookup`. The cipher, HMAC, SHA-256 and base64 are fields of a `Crypto` value. The predicate `Sound` states the facts the layer relies on: decryption inverts encryption, the tag is 16 bytes, base64 round-trips, and the HMAC is 64 hex digits. Lemmas assume these facts as hypotheses.
- `Members` (members.dfy): the members table and the active-member lookup of the endpoints. The table is keyed by (organisation_id, email_lookup_hash). This is an assumption. The upsert's `ON DUPLICATE KEY UPDATE` acts per address only if the schema has a unique key on that pair. The comment at src/Services/ImportService.php:290 says it does, but the schema is not part of this model.
- `ImportRows`, `ImportService`, `ImportFile` (import_rows.dfy, import_service.dfy, import_file.dfy): the member import of `ImportService`. It covers:
  - the CSV reader;
  - the mm_cepi boolean grammar;
  - the per-row classification;
  - the three loops of `processSyncImport`, as methods over a `MemberStore` object, each proved against set-level specification functions;
  - the import log;
  - the guards of `importFromFile`.
- `RateLimiter` (rate_limiter.dfy): the two-window sliding limiter, as a class over the map from cache-file key to stored record.
- `ApiKey`, `ApiKeyValidator` (api_key.dfy, api_key_validator.dfy): the api_keys table as a class, key validation as a linear search, and the five-source credential extraction.
- `CheckMember`, `CheckMemberLegacy` (check_member.dfy, check_member_legacy.dfy): the two lookup endpoints. In each, a pure function `Respond` chooses the status, the JSON body and the activity entries. A method then performs the side effects in the page's order.
- `CsrfToken`, `FileValidator`, `BulkCreate`, `CreateAccount`: the CSRF session state machine, the upload check, the bulk organisation creation loop, and the three account forms with their first-error-wins checks.
- `Audit`, `Http`: the append-only activity log and the request and response shapes.

Time is the integer parameter `now`. Random bytes and ivs are parameters.
`filter_var(..., FILTER_VALIDATE_EMAIL)` is the predicate parameter
`isEmail`, and `password_verify` is `verify`. What a database statement
returns is an input wherever the page reacts to it.

## Model

| member | source | states |
|---|---|---|
| Php.TrimLeftShape | src/Utils/EmailHasher.php:43 | `ltrim` removes exactly the leading run of the six PHP whitespace bytes: the result is a suffix whose first byte is not one of them, and everything removed is whitespace |
| Php.TrimRightShape | src/Utils/EmailHasher.php:43 | the same for the trailing run |
| Php.Lower | src/Utils/EmailHasher.php:43 | `strtolower` maps every byte through ASCII lower-casing and keeps the length |
| Php.Bin2Hex | src/Models/ApiKey.php:21 | `bin2hex` writes each byte as two lower-case hex digits, the high nibble first, so the text is twice as long as the bytes |
| Php.TrimIgnoresPadding | src/Utils/EmailHasher.php:43 | whitespace added around a string does not change its trim |
| Php.TrimIdempotent | src/Utils/EmailHasher.php:43 | a trimmed string has nothing left to trim on either side |
| Php.LowerTrimCommute | src/Utils/EmailHasher.php:43 | lower-casing and trimming commute, so `strtolower(trim(x))` equals `trim(strtolower(x))` |
| Php.LowerIdempotent | src/Utils/EmailHasher.php:43 | lower-casing twice is lower-casing once |
| Php.NormalizeIgnoresCaseAndPadding | src/Utils/EmailHasher.php:142-153 | two addresses that differ only in letter case and surrounding whitespace normalise to the same string |
| Php.NormalizeIdempotent | src/Utils/EmailHasher.php:142-153 | normalising a normalised address changes nothing |
| Php.NormalizeKeepsBlank | src/Services/ImportService.php:263-265 | "" and "0", the strings PHP's `empty()` accepts, are unchanged by normalisation |
| Php.IntegerLiteral | src/Services/ImportService.php:364 | a non-empty run of digits is numeric and is worth the number it spells |
| Php.PointLiteral | src/Services/ImportService.php:364 | digits, a point and digits are numeric; the fraction digits extend the mantissa and lower the exponent by their count |
| Php.ExponentLiteral | src/Services/ImportService.php:364 | digits, `e` and digits are numeric, worth the mantissa times ten to the exponent |
| Php.LooseEqualsReflexive | public/admin/bulk-create-organisations.php:80 | every string is loosely equal to itself, so `in_array` finds any string that is in the list |
| Php.LooseEqualsSymmetric | public/admin/bulk-create-organisations.php:80 | loose equality is symmetric, and a string that is not numeric is loosely equal only to itself |
| Php.IntegersCompareByValue | public/admin/bulk-create-organisations.php:90 | two runs of digits are loosely equal exactly when they spell the same number |
| Php.ExponentCompareByValue | public/admin/bulk-create-organisations.php:90 | digits against digits-`e`-digits: loosely equal exactly when the first number is the mantissa followed by as many zeros as the exponent says |
| Php.LeadingZerosAreLooselyEqual | public/admin/bulk-create-organisations.php:90 | "007" == "7" |
| Php.ExponentIsLooselyEqual | public/admin/bulk-create-organisations.php:80 | "10" == "1e1" |
| Php.OnePointZeroIsOne | src/Services/ImportService.php:369 | "1.0" == "1" |
| Php.WordsAreComparedExactly | public/admin/bulk-create-organisations.php:80 | "acme" != "Acme" and "7" != "7a": strings that are not both numeric compare byte for byte |
| Php.NatToString | src/Services/ImportService.php:266 | a row number prints as a non-empty run of decimal digits, with no leading zero unless it is 0 |
| Php.NatToStringValue | src/Services/ImportService.php:266 | reading the printed digits back gives the number, so the printing is PHP's decimal notation |
| EmailHasher.Secret | src/Utils/EmailHasher.php:17-30 | the configured key is used when it is set and not PHP-empty, else the fixed default string |
| EmailHasher.BlankKeyFallsBackToDefault | src/Utils/EmailHasher.php:17-30 | a missing or PHP-empty configured key derives the same key as the default string |
| EmailHasher.Hash | src/Utils/EmailHasher.php:38-69 | "" for a PHP-empty address; otherwise the exception exactly when encryption of the normalised address fails, and else base64 of iv ‖ tag ‖ ciphertext |
| EmailHasher.HashNotBlank | src/Utils/EmailHasher.php:38-69 | the stored form of a non-empty address is at least 40 characters, so it is never PHP-empty |
| EmailHasher.Unhash | src/Utils/EmailHasher.php:77-113 | "" for an empty input; failure for invalid strict base64 or fewer than ivLen + 16 decoded bytes; otherwise the plaintext exactly when decryption of the slices iv, tag and rest at the fixed offsets succeeds, else failure |
| EmailHasher.UnhashHash | src/Utils/EmailHasher.php:38-113 | round trip: unhash(hash(e)) is `strtolower(trim(e))` for every non-empty e and every iv of the right length |
| EmailHasher.Verify | src/Utils/EmailHasher.php:122-133 | false for an empty argument or a decryption failure; otherwise compares both sides after normalisation |
| EmailHasher.VerifyHash | src/Utils/EmailHasher.php:122-133 | an address verifies against the stored form of any address that normalises the same way |
| EmailHasher.HashForLookup | src/Utils/EmailHasher.php:142-153 | "" for a PHP-empty address; otherwise a 64-digit HMAC of the normalised address |
| EmailHasher.LookupIgnoresCaseAndPadding | src/Utils/EmailHasher.php:142-153 | the lookup hash ignores letter case and surrounding whitespace |
| EmailHasher.VerifyLookup | src/Utils/EmailHasher.php:162-169 | false if either argument is empty; otherwise true exactly when the recomputed lookup hash equals the given one |
| EmailHasher.VerifyLookupOwnHash | src/Utils/EmailHasher.php:162-169 | every non-empty address verifies against its own lookup hash |
| Members.CurrentEmails | src/Services/ImportService.php:240-254 | `$currentEmails`: the organisation's members that have a non-empty lookup hash, keyed by that hash |
| Members.MemberStore.Upsert | src/Services/ImportService.php:291-300 | INSERT … ON DUPLICATE KEY UPDATE: the row at (organisation, hash) afterwards carries the new ciphertext and flag and is active; no other row changes |
| Members.MemberStore.DeleteByHash | src/Services/ImportService.php:303-306 | removes exactly the row at (organisation, hash); the row count is 1 if it existed, else 0 |
| Members.MemberStore.FindActive | public/api/check-member.php:141-150 | the lookup returns a member exactly when an active row with that hash belongs to an existing organisation, with that row's flag and organisation name |
| Members.LookupFindsExactlyActive | public/api/check-member.php:141-150 | a lookup result is found exactly when some organisation has an active member with the hash |
| Audit.Log.Append | src/Models/ActivityLog.php:19-46 | the activity log only grows, by exactly the entries written |
| ImportRows.FlagValue | src/Services/ImportService.php:270 | the flag is read from `mm_cepi`, else from `mmcepi`, else it is `false` |
| ImportRows.TokensParseTrue | src/Services/ImportService.php:367-369 | a string whose trimmed, lower-cased form is true, 1, yes, ja, y or waar parses as true |
| ImportRows.WordParsesFalse | src/Services/ImportService.php:360-372 | any other lower-case word (no, null, false, …) parses as false |
| ImportRows.NeeParsesFalse | src/Services/ImportService.php:367-369 | "nee" parses as false |
| ImportRows.LetterStartIsNotNumeric | src/Services/ImportService.php:364 | a string that starts with a letter is not numeric, so it reaches the token test |
| ImportRows.ZeroParsesFalse | src/Services/ImportService.php:364-365 | the numeric string "0" parses as false |
| ImportRows.ZeroPointZeroParsesTrue | src/Services/ImportService.php:364-365 | the numeric string "0.0" parses as true, since `(bool)` of a numeric string is false only for "0" |
| ImportRows.DoubleZeroParsesTrue | src/Services/ImportService.php:364-365 | "00" parses as true for the same reason |
| ImportRows.NulPaddedNumberParsesTrue | src/Services/ImportService.php:364-369 | "1.0" followed by a NUL byte is not numeric, but trims to "1.0", which `in_array` finds loosely equal to "1", so it parses as true |
| ImportRows.NormalizeHeaders | src/Services/ImportService.php:130-132 | every header is trimmed and lower-cased, position by position |
| ImportRows.Combine | src/Services/ImportService.php:147 | `array_combine`: the row has exactly the headers as keys, and a repeated header takes the cell under its last occurrence |
| ImportRows.RowData | src/Services/ImportService.php:147-152 | `email` is copied to `email_address` only when the latter column is absent |
| ImportRows.KeptRows | src/Services/ImportService.php:142-156 | rows whose cell count differs from the header count are dropped; with an e-mail column every kept row has `email_address`; when every record has the header count, none is dropped |
| ImportRows.KeptRowsSingle | src/Services/ImportService.php:142-156 | one record gives its combined row when its cell count matches the headers, and nothing otherwise |
| ImportRows.KeptRowsAppend | src/Services/ImportService.php:142-156 | reading distributes over concatenation, so kept rows stay in file order |
| ImportRows.KeptRowsMembers | src/Services/ImportService.php:142-156 | a row is kept exactly when some record of the header's width combines to it |
| ImportRows.ReadCsv | src/Services/ImportService.php:116-157 | the reading loop computes the reader's specification `CsvOutcome` |
| ImportRows.CsvRefusedIff | src/Services/ImportService.php:122-138 | the file is refused exactly when it has no header line or no `email`/`email_address` column; otherwise every kept row has `email_address` |
| ImportRows.ClassifyRow | src/Services/ImportService.php:261-286 | a row is valid exactly when its normalised address is non-empty, passes the e-mail test and encrypts; a bad address gives the "Rij N" message; a valid row carries the address, its ciphertext, its lookup hash and its parsed flag |
| ImportRows.HashRow | src/Services/ImportService.php:270-286 | a failed encryption gives the "Rij N: Fout" message; otherwise the row's ciphertext, lookup hash and flag |
| ImportRows.Outcomes | src/Services/ImportService.php:261-287 | each data row is classified on its own, at its index |
| ImportRows.KeyOrder | src/Services/ImportService.php:276-282 | `$validData`'s key order lists every lookup hash of the file exactly once |
| ImportRows.RowErrors | src/Services/ImportService.php:266-285 | at most one error per row |
| ImportRows.BadRowIsSkipped | src/Services/ImportService.php:265-268 | a bad row leaves the file's entries exactly as if it were absent, so it never aborts the sync |
| ImportRows.BadRowAddsOneError | src/Services/ImportService.php:265-268 | a bad row adds exactly its one message, in row order |
| ImportRows.FileMapKeys | src/Services/ImportService.php:276-282 | the file's keys are exactly the lookup hashes of its valid rows |
| ImportRows.LastOccurrenceWins | src/Services/ImportService.php:277-282 | of several rows with the same lookup hash, the last one's entry is kept |
| ImportRows.SameAddressSameKey | src/Services/ImportService.php:263-274 | two valid rows whose addresses normalise the same way get the same key |
| ImportService.UpsertErrors | src/Services/ImportService.php:309-331 | the second loop's messages: at most one per file entry, in key order |
| ImportService.DeleteErrors | src/Services/ImportService.php:334-349 | the third loop's messages: at most one per current member |
| ImportService.UpsertedRows | src/Services/ImportService.php:291-317 | after upserting a set of file hashes, the table holds exactly its old keys plus those (organisation, hash) keys |
| ImportService.RemovedRows | src/Services/ImportService.php:303-306 | after deleting a set of hashes, exactly the organisation's rows with those hashes are gone |
| ImportService.UpsertTotals | src/Services/ImportService.php:309-331 | once every entry is visited, the running counters equal the sizes of the added set (new hashes) and the updated set (present hashes whose flag differs), counting successful upserts only |
| ImportService.DeleteTotals | src/Services/ImportService.php:334-349 | once every current member is visited, the deleted hashes are exactly the current hashes absent from the file whose delete succeeded |
| ImportService.ClassifyAll | src/Services/ImportService.php:257-287 | the first loop builds the file map, its key order and the row errors of the row-by-row specification |
| ImportService.UpsertEntry | src/Services/ImportService.php:310-330 | one upsert: the row is written unless the statement throws; it counts as added for a new hash and as updated for a present hash with a different flag; a failure adds its one message |
| ImportService.UpsertAt | src/Services/ImportService.php:309-331 | one pass of the second loop keeps its invariant: table, counters and messages match the specification over the visited prefix |
| ImportService.UpsertAll | src/Services/ImportService.php:308-331 | the second loop upserts every successful file entry and reports added = the size of the added set, updated = the size of the updated set, and the upsert messages |
| ImportService.DeleteAbsent | src/Services/ImportService.php:334-348 | one pass of the third loop: a hash absent from the file is deleted unless the statement throws; `deleted` counts only rows actually removed |
| ImportService.DeleteMissing | src/Services/ImportService.php:333-349 | the third loop deletes exactly the current members absent from the file whose delete succeeds, and counts them |
| ImportService.ProcessSyncImport | src/Services/ImportService.php:233-358 | the sync leaves the synchronised table, and reports rows_imported = the number of distinct valid hashes, the three counts and the messages in loop order |
| ImportService.FileKeysNotBlank | src/Services/ImportService.php:274-277 | every key of the file map is a 64-digit lookup hash, never empty |
| ImportService.UntouchedPreserved | src/Services/ImportService.php:248-254 | rows of other organisations and rows without a lookup hash are never changed by a sync |
| ImportService.UpsertKeepsUntouched | src/Services/ImportService.php:291-300 | upserts never touch rows of other organisations or rows without a hash |
| ImportService.SyncMirrorsFile | src/Services/ImportService.php:308-349 | with no database errors, the organisation's hashed members afterwards are exactly the file's entries, each active with the file's ciphertext and flag |
| ImportService.FailedUpsertKeepsRow | src/Services/ImportService.php:328-330 | a failed upsert leaves that member as it was |
| ImportService.AbsentMemberDeleted | src/Services/ImportService.php:333-349 | a current member absent from the file survives exactly when its delete throws |
| ImportService.UpsertedEntryStays | src/Services/ImportService.php:309-317 | a successful upsert's row survives the deletions, active and with the file's data |
| ImportService.CountsBalance | src/Services/ImportService.php:318-326 | with no errors, added + the size of file ∩ current = rows_imported, and current − deleted + added = rows_imported |
| ImportService.CountsBounded | src/Services/ImportService.php:318-326 | added + updated never exceeds rows_imported |
| ImportService.NothingToDo | src/Services/ImportService.php:318-349 | when the file already matches the table, there is nothing to add, update or delete |
| ImportService.ResyncChangesNothing | src/Services/ImportService.php:308-349 | importing the same hashes and flags again straight after a clean sync reports added = updated = deleted = 0 |
| ImportService.ReimportIsIdempotent | src/Services/ImportService.php:233-358 | re-running the same file with fresh ivs after a clean sync adds, updates and deletes nothing |
| ImportService.RowLookupMatchesQuery | src/Services/ImportService.php:263-274 | the endpoint's lookup hash for any spelling of an imported address equals the key the import stored |
| ImportService.ImportedAddressIsFound | public/api/check-member.php:137-150 | after a sync, an imported address whose upsert succeeded is matched by the lookup |
| ImportFile.ReadFile | src/Services/ImportService.php:116-219 | readFile follows the extension: CSV reader for csv, spreadsheet result for xls/xlsx, else the bad-format exception |
| ImportFile.AllowedExtensionIsReadable | src/Services/ImportService.php:116-219 | every extension the validator allows is one readFile accepts |
| ImportFile.ValidatedFileHasKnownFormat | src/Services/ImportService.php:37-53 | a file that passes validation never reaches the bad-format branch |
| ImportFile.Gatekeep | src/Services/ImportService.php:37-66 | the guards in order (validation, the move, reading, an organisation, data); the sync runs exactly when all pass; the failure is logged only when an organisation is known |
| ImportFile.OrganisationZeroLoggedAsFailure | src/Services/ImportService.php:56-62 | organisation 0 counts as no organisation, yet the failure is logged under 0 |
| ImportFile.EmptyFileStopsBeforeSync | src/Services/ImportService.php:64-66 | a file with no data rows stops with "Bestand bevat geen data" before the sync |
| ImportFile.FirstErrors | src/Services/ImportService.php:376 | `array_slice($errors, 0, 10)`: the first ten errors, or all when fewer |
| ImportFile.ErrorSummary | src/Services/ImportService.php:375-381 | null without errors; otherwise the first ten joined with "; ", cut to 1000 characters plus "..." when longer |
| ImportFile.LogEntry | src/Services/ImportService.php:374-394 | status is 'partial' exactly when there are errors, else 'success'; rows_inactivated carries rows_deleted |
| ImportFile.OnlyFirstTenErrorsLogged | src/Services/ImportService.php:376 | errors after the tenth never change the logged message |
| ImportFile.FirstErrorOpensMessage | src/Services/ImportService.php:376-381 | the first error, when it fits, opens the logged message verbatim |
| ImportFile.ImportLogTable.Create | src/Models/ImportLog.php:16-33 | the import log grows by exactly the new row |
| ImportFile.Admit | src/Services/ImportService.php:37-66 | the guard chain computes `Gatekeep` of the validation errors, the move, the read result and the organisation |
| ImportFile.Finish | src/Services/ImportService.php:68-102 | after the guards: a stop changes no member and logs the failure only when an organisation is known; a pass syncs and writes the import log and the upload entry |
| ImportFile.SyncAndRecord | src/Services/ImportService.php:68-83 | the sync followed by one import-log row and one upload activity entry with the sync's counts |
| ImportFile.ImportFromFile | src/Services/ImportService.php:35-109 | importFromFile as a whole: the members, import log and activity log afterwards are exactly those the guards and the sync determine; unhashed rows never change |
| RateLimiter.CacheKey | src/Utils/RateLimiter.php:52-55 | every byte outside [a-zA-Z0-9._-] becomes '_', and every other byte is kept |
| RateLimiter.CacheKeyCollision | src/Utils/RateLimiter.php:52-55 | distinct addresses can share a record: "::1" and "__1" map to the same file |
| RateLimiter.Load | src/Utils/RateLimiter.php:60-80 | a missing or undecodable record loads as two empty lists |
| RateLimiter.Prune | src/Utils/RateLimiter.php:93-99 | keeps exactly the timestamps with now − t < maxAge |
| RateLimiter.PruneAppend | src/Utils/RateLimiter.php:93-99 | pruning distributes over concatenation, so order is preserved |
| RateLimiter.DecideCases | src/Utils/RateLimiter.php:114-146 | allowed exactly when both windows have room; a full minute window wins; limit and limit_type name the window that denied; an allowed call resets at now + 60 |
| RateLimiter.RemainingWhenAllowed | src/Utils/RateLimiter.php:141-146 | when allowed, remaining is the smaller of the two spare allowances, computed before recording, and never negative |
| RateLimiter.DeniedResetAhead | src/Utils/RateLimiter.php:123-140 | a denial has remaining 0 and a reset within 60 s (minute) or 3600 s (hour) ahead |
| RateLimiter.Limiter.CheckLimit | src/Utils/RateLimiter.php:105-162 | returns the decision on the pruned record; only an admitted call stores the pruned lists plus now; the stored lists stay within the caps |
| RateLimiter.RunFromEmpty | src/Utils/RateLimiter.php:111-153 | n admitted calls at the same instant from an empty record store n copies of now in each list |
| RateLimiter.CapIsExact | src/Utils/RateLimiter.php:123-131 | from an empty record, the first cap calls at one instant are allowed and call cap+1 is denied on the minute window with reset now + 60 |
| ApiKey.FirstAccepted | src/Models/ApiKey.php:57-77 | the first row that is active, verifies the key and is not expired; none when no row does |
| ApiKey.AcceptsIffNotExpired | src/Models/ApiKey.php:66-73 | an active row that verifies the key is accepted exactly when it is not expired (the `isExpired` test) |
| ApiKey.WithActive | src/Models/ApiKey.php:154-175 | activate/deactivate change only is_active and updated_at of the given id |
| ApiKey.WithLastUsed | src/Models/ApiKey.php:83-91 | updateLastUsed changes only last_used_at of the given id |
| ApiKey.Without | src/Models/ApiKey.php:180-187 | delete removes exactly the rows with the given id |
| ApiKey.WithoutAppend | src/Models/ApiKey.php:180-187 | deleting distributes over concatenation, so the remaining rows keep their order |
| ApiKey.WithoutSingle | src/Models/ApiKey.php:180-187 | a single row stays exactly when its id is not the deleted one |
| ApiKey.KeyTable.Generate | src/Models/ApiKey.php:19-47 | the key is 64 lower-case hex digits of 32 random bytes; only its password hash is stored, under a fresh id, and the result carries id, key and name |
| ApiKey.KeyTable.Validate | src/Models/ApiKey.php:52-78 | false for a PHP-empty key; otherwise the first accepting row |
| ApiKey.KeyTable.UpdateLastUsed | src/Models/ApiKey.php:83-91 | the table after updateLastUsed; the statement reports success even when no row matched |
| ApiKey.KeyTable.Activate | src/Models/ApiKey.php:154-162 | the table after activate |
| ApiKey.KeyTable.Deactivate | src/Models/ApiKey.php:167-175 | the table after deactivate |
| ApiKey.KeyTable.Delete | src/Models/ApiKey.php:180-187 | the table after delete; ids stay distinct |
| ApiKey.GeneratedKeyValidates | src/Models/ApiKey.php:19-78 | a newly generated key validates, and yields the new row when no older row accepts it |
| ApiKey.DeactivatedKeyRejected | src/Models/ApiKey.php:154-187 | after deactivate or delete, validate never returns that id |
| ApiKey.LastUsedKeepsValidation | src/Models/ApiKey.php:83-91 | recording a use does not change which key validates |
| ApiKeyValidator.FindBearer | src/Utils/ApiKeyValidator.php:29 | the first position where a case-insensitive "Bearer" is followed by whitespace, if any |
| ApiKeyValidator.BearerCapture | src/Utils/ApiKeyValidator.php:29 | the header matches `Bearer\s+(.*)$` exactly when some position starts such a match; the capture is the rest of the header after the whitespace |
| ApiKeyValidator.ExtractApiKey | src/Utils/ApiKeyValidator.php:26-60 | the five sources in order, each consulted only when all earlier ones fail: Bearer header (even with an empty capture), non-empty X-API-Key, query `api_key`, POST form `api_key`, POST JSON `api_key`, each trimmed; none exactly when no source applies |
| ApiKeyValidator.ValidateFromRequest | src/Utils/ApiKeyValidator.php:66-74 | false without consulting the table when the extracted key is missing or PHP-empty; otherwise the table's validate |
| ApiKeyValidator.BearerHeaderYieldsToken | src/Utils/ApiKeyValidator.php:28-31 | "Bearer" in any letter case, whitespace and a token yield the trimmed token |
| ApiKeyValidator.BearerShadowsLaterSources | src/Utils/ApiKeyValidator.php:26-60 | once the header matches, no other source is consulted |
| ApiKeyValidator.EmptyBearerRejectsRequest | src/Utils/ApiKeyValidator.php:26-74 | "Bearer " with nothing after it rejects the request, whatever the other sources carry |
| ApiKeyValidator.ZeroHeaderIsSkipped | src/Utils/ApiKeyValidator.php:33-42 | an X-API-Key of "0" is PHP-empty, so the query parameter is used |
| ApiKeyValidator.BodyIgnoredUnlessPost | src/Utils/ApiKeyValidator.php:44-57 | form and JSON bodies are read only for POST |
| CheckMember.HandleRequest | public/api/check-member.php:8-220 | OPTIONS changes nothing; otherwise the response is `Respond` of the validated key and the limiter's answer; last_used_at is set only for a valid key; the limiter records only admitted calls; the lookup result is the active-member match; the log grows by the response's entries |
| CheckMember.Answer | public/api/check-member.php:29-220 | the same, once the e-mail field has been read |
| CheckMember.Admitted | public/api/check-member.php:58-150 | after a valid key: last_used_at, the limiter step, and the lookup when the call is admitted and the address valid |
| CheckMember.EveryBodySaysWhetherFound | public/api/check-member.php:8-220 | OPTIONS alone has no body; every other body carries found, mm_cepi and both organisation fields, and found is true only for a successful lookup that matched |
| CheckMember.MissingKeyIs401 | public/api/check-member.php:33-56 | no valid key gives 401 with "no member"; the log write is attempted and its failure changes nothing else |
| CheckMember.RateLimitedIs429 | public/api/check-member.php:61-96 | a denial gives 429 with retry_after = reset − now and the limiter's headers |
| CheckMember.AuthenticatedCallsLogOnce | public/api/check-member.php:71-211 | every outcome after a valid key writes exactly one api_call entry carrying the key's id |
| CheckMember.InvalidEmailIs400 | public/api/check-member.php:115-135 | an empty or invalid address gives 400 and one entry tagged invalid_email |
| CheckMember.FoundIffActiveMember | public/api/check-member.php:137-182 | found is true exactly when an active member with the lookup hash exists, and then carries its flag and organisation |
| CheckMemberLegacy.HandleRequest | api/check-member.php:25-243 | the response is `Respond` of the validated key (none for OPTIONS); last_used_at is set only for a valid key; the lookup result is the active-member match; the log grows by the response's entries |
| CheckMemberLegacy.Answer | api/check-member.php:44-243 | the same, once the e-mail field has been read |
| CheckMemberLegacy.Admitted | api/check-member.php:64-165 | after a valid key: last_used_at, and the lookup when the request reaches it |
| CheckMemberLegacy.OriginEchoedOnlyWhenAllowed | api/check-member.php:6-20 | the Origin is echoed exactly when it is on the allow-list; otherwise '*' |
| CheckMemberLegacy.KeyCheckedBeforeMethod | api/check-member.php:48-79 | without a valid key every method but OPTIONS gets 401; only with one does a method other than GET or POST get 405; neither logs |
| CheckMemberLegacy.PostNeedsJson | api/check-member.php:84-110 | a POST without a JSON content type, or with a body that does not decode, gets 400 with the matching message |
| CheckMemberLegacy.EmailChecks | api/check-member.php:115-150 | an empty address gives 400 without an entry; an invalid one, or one over 254 bytes, gives 400 with an invalid_email entry naming the key |
| CheckMemberLegacy.LookupOutcomes | api/check-member.php:152-243 | found exactly when an active member matches, with one entry recording it; a database error gives 500 'Database error', any other exception 'Server error' |
| CsrfToken.GenerateStep | src/Utils/CsrfToken.php:9-19 | a fresh 64-hex token, stored with the current time |
| CsrfToken.GetStep | src/Utils/CsrfToken.php:24-39 | the stored token while present and not older than 3600 s; otherwise a new one |
| CsrfToken.ValidateStep | src/Utils/CsrfToken.php:44-60 | false without a token; an expired token clears both fields and fails; otherwise true exactly for the stored token, with no state change |
| CsrfToken.Session.Generate | src/Utils/CsrfToken.php:9-19 | the session after generate |
| CsrfToken.Session.Get | src/Utils/CsrfToken.php:24-39 | the session after get |
| CsrfToken.Session.Validate | src/Utils/CsrfToken.php:44-60 | the session after validate |
| CsrfToken.IssuedTokenValidWithinHour | src/Utils/CsrfToken.php:24-60 | a token from get validates up to and including 3600 s later (the comparison is strict) |
| CsrfToken.ExpiredTokenClears | src/Utils/CsrfToken.php:53-57 | a token 3601 s old fails and is cleared, so every later validate fails too |
| CsrfToken.GetStableWithinHour | src/Utils/CsrfToken.php:29-38 | get within the hour returns the same token and state |
| CsrfToken.WrongTokenKeepsState | src/Utils/CsrfToken.php:44-60 | a wrong token fails without touching the session; the stored one succeeds |
| FileValidator.Basename | src/Utils/FileValidator.php:28 | the file name part of a path contains no '/' |
| FileValidator.GetExtension | src/Utils/FileValidator.php:52-54 | the lower-cased text after the last dot of the base name; empty when the base name has no dot |
| FileValidator.Messages | src/Utils/FileValidator.php:17-47 | one message per error, position by position |
| FileValidator.RoundSignificantIsNearest | src/Utils/FileValidator.php:24 | PHP prints the size limit in MiB as a double with 14 significant digits (`%.14G`): the rounded mantissa has at most 14 digits and is nearest to the exact value, ties to even |
| FileValidator.GcvtExponentIff | src/Utils/FileValidator.php:24 | the printed number uses exponent notation exactly when its decimal exponent is below −4 or at least 14 |
| FileValidator.FiveMillionBytesText | src/Utils/FileValidator.php:24 | a 5000000-byte limit prints as "4.7683715820312" |
| FileValidator.OneByteText | src/Utils/FileValidator.php:24 | a 1-byte limit prints as "9.5367431640625E-7" |
| FileValidator.Check | src/Utils/FileValidator.php:13-50 | an upload error gives exactly one error; otherwise a size error exactly when size > max, an extension error exactly for extensions outside csv, xls, xlsx, and a MIME error exactly when both tests fail |
| FileValidator.Collect | src/Utils/FileValidator.php:22-47 | the size, extension and MIME errors each appear exactly when their test fails |
| FileValidator.Validate | src/Utils/FileValidator.php:13-50 | the step-by-step error list equals `Check` |
| FileValidator.AcceptedIff | src/Utils/FileValidator.php:13-50 | the list is empty exactly for an upload without error, within the limit, with an allowed extension |
| FileValidator.AllowedExtensionHasNoMimeError | src/Utils/FileValidator.php:45-47 | an allowed extension never triggers the MIME error |
| FileValidator.MessagesInOrder | src/Utils/FileValidator.php:22-47 | for every completed upload, the errors that appear come in the order size, extension, MIME, each at most once; when all three checks fail all three come |
| FileValidator.ExtensionAfterLastDot | src/Utils/FileValidator.php:52-54 | "dir/stem.ext" has extension lower(ext) |
| FileValidator.NoDotNoExtension | src/Utils/FileValidator.php:52-54 | a base name without a dot has no extension |
| FileValidator.DefaultSizeMessage | src/Utils/FileValidator.php:9-25 | with the 10485760-byte default the size message says "10MB" |
| BulkCreate.TrimAll | public/admin/bulk-create-organisations.php:42 | every submitted name is trimmed, position by position |
| BulkCreate.DropBlank | public/admin/bulk-create-organisations.php:41-46 | `array_filter` keeps exactly the non-empty names, "0" included among the dropped |
| BulkCreate.DropBlankCounts | public/admin/bulk-create-organisations.php:41-46 | each non-empty name is kept as many times as it was submitted, and a PHP-empty one never |
| BulkCreate.DropBlankSingle | public/admin/bulk-create-organisations.php:41-46 | one name is kept exactly when it is not PHP-empty |
| BulkCreate.DropBlankAppend | public/admin/bulk-create-organisations.php:41-46 | filtering distributes over concatenation, so the kept names stay in submission order |
| BulkCreate.CleanNames | public/admin/bulk-create-organisations.php:40-46 | the names processed are the trimmed submissions with the PHP-empty ones dropped, in submission order; each is already trimmed |
| BulkCreate.OrganisationTable.Insert | public/admin/bulk-create-organisations.php:101 | Organisation::create adds exactly one name under its new id |
| BulkCreate.CreateAll | public/admin/bulk-create-organisations.php:70-118 | the loop's results are those of the specification `Run`, which tests duplicates with the loose `in_array`, and the table gains exactly the created organisations |
| BulkCreate.HandlePost | public/admin/bulk-create-organisations.php:28-136 | a bad token, no input or only blank names change nothing; otherwise the batch runs, one bulk_create_organisations entry is logged and the message follows the counts |
| BulkCreate.StepConsistent | public/admin/bulk-create-organisations.php:71-115 | one pass of the loop body keeps each name in exactly one bucket, the counters equal to the lists, `$existingNames` equal to the old names plus the created ones, the created names pairwise loosely unequal and each loosely unequal to every pre-existing name |
| BulkCreate.CreationConsistent | public/admin/bulk-create-organisations.php:99-108 | creating a name that is loosely unequal to every created and every existing name keeps that invariant |
| BulkCreate.RunConsistent | public/admin/bulk-create-organisations.php:71-115 | the whole loop keeps that invariant |
| BulkCreate.BucketsAddUp | public/admin/bulk-create-organisations.php:51-115 | created + skipped + errors = total |
| BulkCreate.CreatedNamesAreNew | public/admin/bulk-create-organisations.php:78-108 | no two created names are loosely equal once lower-cased (so not "Acme" and "acme", nor "007" and "7"), and none is loosely equal to a lower-cased pre-existing trimmed name |
| BulkCreate.RepeatIsDuplicateInInput | public/admin/bulk-create-organisations.php:78-97 | a later name loosely equal to a created one once lower-cased is skipped as 'Duplicate in input', since that check runs first |
| BulkCreate.NumericSpellingAlreadyExists | public/admin/bulk-create-organisations.php:90-97 | with "007" among the existing names, "7" is skipped as 'Already exists', since numeric strings compare as numbers |
| BulkCreate.ExponentSpellingIsDuplicate | public/admin/bulk-create-organisations.php:80-87 | after "10" is created, "1e1" is skipped as 'Duplicate in input' |
| BulkCreate.FailedCreationRecorded | public/admin/bulk-create-organisations.php:99-114 | a throw or a zero id records its error and changes nothing else |
| CreateAccount.ReadForm | public/admin/create-account.php:36-41 | username and e-mail are trimmed; the password and its confirmation are taken as typed |
| CreateAccount.FirstFailureIsFirst | public/admin/create-account.php:44-62 | a chain reports nothing exactly when no check fails, and otherwise the message of the first failing check |
| CreateAccount.CreateReportsFirstFailure | public/admin/create-account.php:44-61 | the create chain is the nine checks in the page's order, first failure wins |
| CreateAccount.UpdateReportsFirstFailure | public/admin/create-account.php:106-119 | the update chain is the seven checks in the page's order, first failure wins |
| CreateAccount.NonEmpty | public/admin/create-account.php:76 | `$email ?: null`: null exactly for a PHP-empty address |
| CreateAccount.HtmlEscape | public/admin/create-account.php:86 | escaping never shortens text |
| CreateAccount.EscapedHasNoMarkup | public/admin/create-account.php:86 | escaped text contains no <, >, " or ' |
| CreateAccount.PlainTextUnescaped | public/admin/create-account.php:86 | text without special characters is left as it is |
| CreateAccount.CreateRefusal | public/admin/create-account.php:44-75 | creation is refused exactly when the chain fails, the organisation has an active account, or an active account has the username |
| CreateAccount.CreateEffect | public/admin/create-account.php:36-96 | creation adds at most the row with the new id |
| CreateAccount.UpdateRefusal | public/admin/create-account.php:106-133 | update is refused exactly when the chain fails, the account is missing, or another active account has the username |
| CreateAccount.UpdateEffect | public/admin/create-account.php:99-152 | update never adds a row |
| CreateAccount.DeleteEffect | public/admin/create-account.php:155-184 | delete never adds a row |
| CreateAccount.PostEffect | public/admin/create-account.php:31-186 | a POST adds at most the row with the new id |
| CreateAccount.AccountTable.Apply | public/admin/create-account.php:76 | the table becomes the effect's rows, and the auto-increment id advances exactly when a row was created |
| CreateAccount.HandlePost | public/admin/create-account.php:31-186 | the session, the answer, the table and the log afterwards are those of the CSRF check followed by the chosen action |
| CreateAccount.UsernameTrimmedPasswordNot | public/admin/create-account.php:38-39 | a blank before the username is ignored; a blank before the password is kept |
| CreateAccount.ZeroUsernameRequired | public/admin/create-account.php:46-47 | the username "0" matches the pattern, yet it is refused as missing, since it is PHP-empty |
| CreateAccount.PaddedPasswordPassesLength | public/admin/create-account.php:39-55 | a seven-byte password is too short, but with one blank in front it passes the length check |
| CreateAccount.UpdatePasswordOptional | public/admin/create-account.php:116-134 | without a new password, update skips the length and match checks, ignores the confirmation and keeps the stored hash |
| CreateAccount.UpdateMismatchRefused | public/admin/create-account.php:118-119 | a new password that differs from its confirmation is refused |
| CreateAccount.CreateRefusedWhenTaken | public/admin/create-account.php:64-75 | when the organisation has an active account or the username is taken, nothing is written or logged |
| CreateAccount.UnknownAccountChangesNothing | public/admin/create-account.php:121-165 | update and delete of a non-positive or missing id change nothing and log nothing |
| CreateAccount.OwnUsernameNotTaken | public/admin/create-account.php:129-132 | an account's own username does not count as taken when it is edited, but does for a new account |
| CreateAccount.CreateKeepsUnique | public/admin/create-account.php:64-76 | creation keeps at most one active account per organisation and per username |
| CreateAccount.UpdateKeepsUnique | public/admin/create-account.php:127-134 | update keeps that uniqueness |
| CreateAccount.DeleteKeepsUnique | public/admin/create-account.php:166 | delete keeps that uniqueness |
| CreateAccount.CreatedAccountIsTheOrganisations | public/admin/create-account.php:76-86 | a successful create adds exactly the row with the new id (the organisation, username, hashed password, e-mail or null, active), leaves every other row as it was, reports no error and logs exactly one create_account entry with organisation_id, organisation_name and username; the organisation then has exactly this active account |
| CreateAccount.UpdatedAccountIsRewritten | public/admin/create-account.php:134-143 | a successful update rewrites only the edited row: same organisation and active flag, the new username and e-mail, the old hash unless a new password was given; it logs one update_account entry with auth_id, organisation_id and username |
| CreateAccount.DeletedAccountIsRemoved | public/admin/create-account.php:166-175 | a successful delete removes exactly the named row, keeps every other row, and logs one delete_account entry naming the removed account's id, organisation and username |
| CreateAccount.FailedCreateChangesNothing | public/admin/create-account.php:76-95 | when the create write throws or affects no row, "Failed to create account. Please try again." (exception) or "Failed to create account." is reported and nothing is stored or logged |
| CreateAccount.FailedUpdateChangesNothing | public/admin/create-account.php:134-151 | the same for update, with its own two messages |
| CreateAccount.FailedDeleteChangesNothing | public/admin/create-account.php:166-182 | the same for delete, with its own two messages |
| CreateAccount.PostKeepsUnique | public/admin/create-account.php:31-186 | every POST keeps active accounts unique per organisation and per username |

## Left out

- Cryptography and randomness: AES-256-GCM, HMAC-SHA256, SHA-256, base64, `password_hash`/`password_verify`, `random_bytes` and `openssl_random_pseudo_bytes` are parameters. Only the facts in `EmailHasher.Sound` are assumed about them, as lemma hypotheses.
- `filter_var` for addresses and IPs, `strtotime`, `time()` and `finfo` MIME detection: the predicate `isEmail`, the integer `now` and the file's `mime` field stand for them.
- `RateLimiter.Limiter.CheckLimit`: one `now` serves the whole call, while `cleanOldEntries` reads `time()` again; the two can differ by a second at a boundary.
- `CheckMember.HandleRequest`: retry_after uses the same `now` as the limiter, where the page calls `time()` again.
- The client address selection (`getClientIp`) is an input, the request's `clientIp`; the cache files are the map the limiter holds, and `cleanOldCache` with the 1% sweep that calls it is not modelled.
- The Excel branch of readFile (src/Services/ImportService.php:159-216) is an input result, since PhpSpreadsheet is not part of this model; so are the move of the uploaded file and its removal in `finally`.
- The members table has no `email_address` column in the model: the upsert always writes '' there and nothing in the core reads it.
- Database exceptions are inputs only at the statements the pages catch: single upserts and deletes of the sync, the lookup of the endpoints, the writes of the account page and `Organisation::create`. Failures of the activity-log writes are modelled only where the endpoint swallows them (the 401 and 429 entries).
- The Organisation_ID cell and `organisation_created`: readFile never sets them in the code, so the organisation is the parameter.
- `ImportFile.ImportFromFile`: a failure's activity entry is produced after the guards decide, rather than in a `catch`; the log ends the same way.
- The account page calls `Auth::getById`, `update`, `delete` and `getAll`, which src/Models/Auth.php does not define. In PHP 8 a call to an undefined method throws an `Error`. The page's `catch (Exception $e)` does not catch an `Error`, so each such call ends the request with a fatal error:
  - update and delete die at `getById` (public/admin/create-account.php:123 and :162), before anything is written or logged;
  - `$authModel->getAll()` at public/admin/create-account.php:188 runs on every request, so every request ends in a fatal error, even after a create has already written its row and its create_account entry.
  The model does not reproduce these crashes. It gives the four methods the plain table meaning their names and call sites imply (fetch, overwrite, remove by id), and it leaves out the listing at line 188.
- The username checks use MySQL's collation in the page; the model compares bytes exactly.
- `CreateAccount.HtmlEscape` escapes the five characters of `htmlspecialchars` with `ENT_QUOTES`; invalid UTF-8 handling is not modelled, since strings are byte sequences.
- Page rendering, `getAll` listings, sessions, login, redirects and the ErrorHandler log are presentation or infrastructure, not part of the core.
- The bulk page's outer `catch` with rollback covers the commit and the log write only; their failure is not modelled.
- Concurrency: the limiter's read-then-write race and concurrent imports for one organisation; the model is single-threaded.
- PHP strings are byte strings and case mapping is ASCII-only, as in PHP 8; no character encoding is modelled.
- CreateAccount.CreateEffect, CreateAccount.UpdateEffect, CreateAccount.DeleteEffect, CreateAccount.PostEffect: their own contracts only bound the rows they may add; what each form does is stated by the lemmas beside them (CreateRefusedWhenTaken, UnknownAccountChangesNothing, the Failed*ChangesNothing lemmas, the *KeepsUnique lemmas, CreatedAccountIsTheOrganisations, UpdatedAccountIsRewritten, DeletedAccountIsRemoved).
- CreateAccount.HtmlEscape: its contract states only that escaping never shortens text; EscapedHasNoMarkup and PlainTextUnescaped state what it escapes.
- FileValidator.Basename: its contract states only that the base name holds no '/'; GetExtension and its lemmas state how it is used.
- Php.LooseEquals: numeric strings compare as exact decimals. PHP compares two integer strings as 64-bit integers and falls back to doubles otherwise, so values that overflow or round can differ. Examples are "0.1" against "0.10000000000000000001", or two spellings of infinity such as "1e400" and "10e399".
- FileValidator.MegabyteText: a limit of 2^53 bytes or more that is not a whole number of MiB is printed from the exact quotient, where PHP first rounds the size to a double.
- ApiKey.KeyTable.Validate: the first accepting row follows the table's row order, while the page's SELECT has no ORDER BY, so the database may return the rows in another order.
