/** The row-level half of the member import (src/Services/ImportService.php):
    reading a CSV file into rows, the permissive boolean grammar of the
    mm_cepi column, and the per-row classification processSyncImport
    performs before it touches the table. */
module ImportRows {
  import opened Php
  import opened EmailHasher

  // ----- parseBoolean -----

  /** The PHP values a flag cell can hold. CSV cells are always strings;
      `false` is the default when neither column is present. */
  datatype Value = VBool(b: bool) | VInt(i: int) | VString(s: string) | VNull

  const TrueTokens: seq<string> := ["true", "1", "yes", "ja", "y", "waar"]

  /** parseBoolean(): booleans pass through; numbers and numeric strings
      convert as PHP's `(bool)` does (a numeric string is false only when it
      is exactly "0"); other strings are true exactly when their trimmed,
      lower-cased form is loosely equal to one of the tokens (`in_array`
      without its strict flag); anything else is false. */
  function ParseBoolean(v: Value): bool {
    match v
    case VBool(b) => b
    case VInt(i) => i != 0
    case VString(s) =>
      if IsNumericString(s) then s != "0" else exists t | t in TrueTokens :: LooseEquals(Normalize(s), t)
    case VNull => false
  }

  const MmCepiColumn: string := "mm_cepi"
  const MmCepiAltColumn: string := "mmcepi"
  const EmailColumn: string := "email"
  const EmailAddressColumn: string := "email_address"

  /** `$row['mm_cepi'] ?? $row['mmcepi'] ?? false` */
  function FlagValue(row: map<string, string>): (v: Value)
    ensures MmCepiColumn in row ==> v == VString(row[MmCepiColumn])
    ensures MmCepiColumn !in row && MmCepiAltColumn in row ==> v == VString(row[MmCepiAltColumn])
    ensures MmCepiColumn !in row && MmCepiAltColumn !in row ==> v == VBool(false)
  {
    if MmCepiColumn in row then VString(row[MmCepiColumn])
    else if MmCepiAltColumn in row then VString(row[MmCepiAltColumn])
    else VBool(false)
  }

  // ----- Reading a CSV file -----

  /** The position of the last occurrence of h. */
  function LastIndexOf(hs: seq<string>, h: string): (i: nat)
    requires h in hs
    ensures i < |hs| && hs[i] == h
    ensures forall j :: i < j < |hs| ==> hs[j] != h
  {
    if hs[|hs| - 1] == h then |hs| - 1 else LastIndexOf(hs[..|hs| - 1], h)
  }

  /** array_combine($headers, $row): each header maps to the cell at its
      position; of repeated headers the last one wins. */
  function Combine(headers: seq<string>, cells: seq<string>): (row: map<string, string>)
    requires |headers| == |cells|
    ensures forall h :: h in row <==> h in headers
    ensures forall h :: h in row ==> row[h] == cells[LastIndexOf(headers, h)]
  {
    if headers == [] then map[]
    else
      var n := |headers| - 1;
      var prev := Combine(headers[..n], cells[..n]);
      LastIndexOfDropLast(headers);
      prev[headers[n] := cells[n]]
  }

  /** Below the last position, the last occurrence of any other header is
      found in the prefix. */
  lemma LastIndexOfDropLast(hs: seq<string>)
    requires hs != []
    ensures forall h :: h in hs[..|hs| - 1] && h != hs[|hs| - 1] ==>
                          LastIndexOf(hs, h) == LastIndexOf(hs[..|hs| - 1], h)
  {
  }

  /** One data record as the CSV branch of readFile keeps it: combined with
      the headers, and `email` copied to `email_address` when only the
      former is present. */
  function RowData(headers: seq<string>, cells: seq<string>): (row: map<string, string>)
    requires |headers| == |cells|
    ensures forall h :: h in headers ==> h in row
    ensures EmailColumn in headers || EmailAddressColumn in headers ==> EmailAddressColumn in row
    ensures EmailAddressColumn in headers ==> row[EmailAddressColumn] == Combine(headers, cells)[EmailAddressColumn]
    ensures EmailAddressColumn !in headers && EmailColumn in headers ==>
              row == Combine(headers, cells)[EmailAddressColumn := Combine(headers, cells)[EmailColumn]]
  {
    var r := Combine(headers, cells);
    if EmailColumn in r && EmailAddressColumn !in r then r[EmailAddressColumn := r[EmailColumn]] else r
  }

  /** The data rows readFile keeps: records whose cell count equals the
      header count, in file order. */
  function KeptRows(headers: seq<string>, records: seq<seq<string>>): (rows: seq<map<string, string>>)
    ensures |rows| <= |records|
    ensures EmailColumn in headers || EmailAddressColumn in headers ==>
              forall i :: 0 <= i < |rows| ==> EmailAddressColumn in rows[i]
    ensures (forall i :: 0 <= i < |records| ==> |records[i]| == |headers|) ==> |rows| == |records|
  {
    if records == [] then []
    else
      var n := |records| - 1;
      var prefix := KeptRows(headers, records[..n]);
      if |records[n]| == |headers| then prefix + [RowData(headers, records[n])] else prefix
  }

  /** How KeptRows grows by one record. */
  lemma KeptRowsStep(headers: seq<string>, records: seq<seq<string>>, i: nat)
    requires i < |records|
    ensures KeptRows(headers, records[..i + 1]) ==
              if |records[i]| == |headers| then KeptRows(headers, records[..i]) + [RowData(headers, records[i])]
              else KeptRows(headers, records[..i])
  {
    assert records[..i + 1][..i] == records[..i];
    assert records[..i + 1][i] == records[i];
  }

  /** One unfolding of KeptRows at the last record. */
  lemma KeptRowsLast(headers: seq<string>, records: seq<seq<string>>)
    requires records != []
    ensures var n := |records| - 1;
            KeptRows(headers, records) == KeptRows(headers, records[..n])
              + if |records[n]| == |headers| then [RowData(headers, records[n])] else []
  {
  }

  /** A single record yields its row exactly when its width matches the
      header line. */
  lemma KeptRowsSingle(headers: seq<string>, record: seq<string>)
    ensures KeptRows(headers, [record]) == if |record| == |headers| then [RowData(headers, record)] else []
  {
    assert [record][..0] == [];
  }

  /** The rows of a concatenation are the rows of each part, in order; with
      KeptRowsSingle this fixes KeptRows as the order-preserving filter and
      map of the records. */
  lemma {:induction false} KeptRowsAppend(headers: seq<string>, a: seq<seq<string>>, b: seq<seq<string>>)
    ensures KeptRows(headers, a + b) == KeptRows(headers, a) + KeptRows(headers, b)
    decreases |b|
  {
    if b == [] {
      assert a + b == a;
    } else {
      var n := |b| - 1;
      var c := a + b;
      var tail := if |b[n]| == |headers| then [RowData(headers, b[n])] else [];
      KeptRowsAppend(headers, a, b[..n]);
      assert c[..|c| - 1] == a + b[..n] && c[|c| - 1] == b[n];
      KeptRowsLast(headers, c);
      KeptRowsLast(headers, b);
      assert KeptRows(headers, a) + KeptRows(headers, b[..n]) + tail
             == KeptRows(headers, a) + (KeptRows(headers, b[..n]) + tail);
    }
  }

  /** A row is kept exactly when some record of the header's width
      produces it. */
  lemma {:induction false} KeptRowsMembers(headers: seq<string>, records: seq<seq<string>>, row: map<string, string>)
    ensures row in KeptRows(headers, records) <==>
              exists i :: 0 <= i < |records| && |records[i]| == |headers| && row == RowData(headers, records[i])
  {
    if records != [] {
      var n := |records| - 1;
      KeptRowsMembers(headers, records[..n], row);
      KeptRowsLast(headers, records);
      if exists i :: 0 <= i < |records| && |records[i]| == |headers| && row == RowData(headers, records[i]) {
        var i :| 0 <= i < |records| && |records[i]| == |headers| && row == RowData(headers, records[i]);
        if i < n {
          assert records[..n][i] == records[i];
        }
      }
      if exists i :: 0 <= i < n && |records[..n][i]| == |headers| && row == RowData(headers, records[..n][i]) {
        var i :| 0 <= i < n && |records[..n][i]| == |headers| && row == RowData(headers, records[..n][i]);
        assert records[i] == records[..n][i];
      }
    }
  }

  /** The header line after `strtolower(trim(...))` of every cell. */
  function NormalizeHeaders(cells: seq<string>): (hs: seq<string>)
    ensures |hs| == |cells|
    ensures forall i :: 0 <= i < |cells| ==> hs[i] == Normalize(cells[i])
  {
    seq(|cells|, i requires 0 <= i < |cells| => Normalize(cells[i]))
  }

  datatype CsvResult = CsvFailed(message: string) | CsvRows(rows: seq<map<string, string>>)

  const NoHeaderMessage: string := "Ongeldig CSV bestand - geen headers gevonden"
  const NoEmailColumnMessage: string := "CSV bestand moet een 'email_address' of 'email' kolom bevatten"

  /** What the CSV branch of readFile yields for the records fgetcsv
      returns; the first record is the header line. fgetcsv gives a blank
      line as one null cell; it is modelled as one empty cell, since every
      use of a cell trims or lower-cases it, and both give "". */
  function CsvOutcome(records: seq<seq<string>>): CsvResult {
    if records == [] then CsvFailed(NoHeaderMessage)
    else
      var headers := NormalizeHeaders(records[0]);
      if EmailAddressColumn !in headers && EmailColumn !in headers then CsvFailed(NoEmailColumnMessage)
      else CsvRows(KeptRows(headers, records[1..]))
  }

  /** The CSV branch of readFile: the header check, then a loop appending
      every record whose cell count matches the header. */
  method ReadCsv(records: seq<seq<string>>) returns (r: CsvResult)
    ensures r == CsvOutcome(records)
  {
    if records == [] {
      return CsvFailed(NoHeaderMessage);
    }
    var headers := NormalizeHeaders(records[0]);
    if EmailAddressColumn !in headers && EmailColumn !in headers {
      return CsvFailed(NoEmailColumnMessage);
    }
    var body := records[1..];
    var data: seq<map<string, string>> := [];
    var i := 0;
    while i < |body|
      invariant 0 <= i <= |body|
      invariant data == KeptRows(headers, body[..i])
    {
      KeptRowsStep(headers, body, i);
      if |body[i]| == |headers| {
        var rowData := RowData(headers, body[i]);
        data := data + [rowData];
      }
      i := i + 1;
    }
    assert body[..i] == body;
    r := CsvRows(data);
  }

  // ----- Classifying one row -----

  /** What the sync keeps of a valid row: validData[lookup hash]. */
  datatype FileEntry = FileEntry(email: string, emailHash: string, mmCepi: bool)

  /** One iteration of the first loop of processSyncImport: an error
      message, or the row's lookup hash and entry. */
  datatype RowOutcome = Invalid(message: string) | Valid(lookup: string, entry: FileEntry)

  const EncryptFailedMessage: string := "Failed to encrypt email address"
  const RowPrefix: string := "Rij "
  const InvalidEmailInfix: string := ": Ongeldig email adres '"
  const RowFailureInfix: string := ": Fout - "
  const Quote: string := "'"

  /** `$row['email_address'] ?? ''` (also what the error message shows). */
  function RawEmail(row: map<string, string>): string {
    if EmailAddressColumn in row then row[EmailAddressColumn] else ""
  }

  /** "Rij N: Ongeldig email adres '<raw>'", N the 1-based line number
      the row would have below a header line. */
  function InvalidEmailMessage(index: nat, raw: string): string {
    RowPrefix + NatToString(index + 2) + InvalidEmailInfix + raw + Quote
  }

  /** "Rij N: Fout - <exception message>" */
  function RowFailureMessage(index: nat, exception: string): string {
    RowPrefix + NatToString(index + 2) + RowFailureInfix + exception
  }

  /** The row at position `index` of the data: a PHP-empty or invalid
      normalised address is an error; so is a failed encryption; otherwise
      the row is keyed by the lookup hash of its address and carries the
      address, its ciphertext and the parsed flag. `isEmail` stands for
      filter_var(..., FILTER_VALIDATE_EMAIL); `iv` for the random iv of
      this row's encryption. */
  function ClassifyRow(c: Crypto, cfg: Option<string>, isEmail: string -> bool,
                       iv: string, row: map<string, string>, index: nat): (o: RowOutcome)
    ensures var email := Normalize(RawEmail(row));
            && (o.Valid? <==> !IsBlank(email) && isEmail(email) && Hash(c, cfg, iv, email).Some?)
            && (IsBlank(email) || !isEmail(email) ==> o == Invalid(InvalidEmailMessage(index, RawEmail(row))))
            && (o.Valid? ==> && o.entry.email == email
                             && o.lookup == HashForLookup(c, cfg, email)
                             && Hash(c, cfg, iv, email) == Some(o.entry.emailHash)
                             && o.entry.mmCepi == ParseBoolean(FlagValue(row)))
  {
    var email := Normalize(RawEmail(row));
    if IsBlank(email) || !isEmail(email) then
      Invalid(InvalidEmailMessage(index, RawEmail(row)))
    else
      HashRow(c, cfg, iv, row, index, email)
  }

  /** The part of a row's iteration after the address passed validation:
      encryption, which may fail, and the lookup hash. */
  function HashRow(c: Crypto, cfg: Option<string>, iv: string, row: map<string, string>,
                   index: nat, email: string): (o: RowOutcome)
    ensures o.Invalid? <==> Hash(c, cfg, iv, email).None?
    ensures o.Invalid? ==> o.message == RowFailureMessage(index, EncryptFailedMessage)
    ensures o.Valid? ==> && o.entry.email == email
                         && o.lookup == HashForLookup(c, cfg, email)
                         && Hash(c, cfg, iv, email) == Some(o.entry.emailHash)
                         && o.entry.mmCepi == ParseBoolean(FlagValue(row))
  {
    var hashed := Hash(c, cfg, iv, email);
    if hashed.None? then Invalid(RowFailureMessage(index, EncryptFailedMessage))
    else Valid(HashForLookup(c, cfg, email), FileEntry(email, hashed.value, ParseBoolean(FlagValue(row))))
  }

  /** Every row classified, with the i-th random iv for the i-th row. */
  function Outcomes(c: Crypto, cfg: Option<string>, isEmail: string -> bool,
                    ivs: seq<string>, data: seq<map<string, string>>): (outs: seq<RowOutcome>)
    requires |ivs| == |data|
    ensures |outs| == |data|
    ensures forall i :: 0 <= i < |data| ==> outs[i] == ClassifyRow(c, cfg, isEmail, ivs[i], data[i], i)
  {
    seq(|data|, i requires 0 <= i < |data| => ClassifyRow(c, cfg, isEmail, ivs[i], data[i], i))
  }

  /** $validData after the first loop: each valid row stored under its
      lookup hash, a later row overwriting an earlier one. */
  function FileMap(outs: seq<RowOutcome>): map<string, FileEntry>
  {
    if outs == [] then map[]
    else
      var n := |outs| - 1;
      var prev := FileMap(outs[..n]);
      match outs[n]
      case Invalid(_) => prev
      case Valid(l, e) => prev[l := e]
  }

  /** The order in which PHP iterates $validData: each hash at the position
      of its first insertion. */
  function KeyOrder(outs: seq<RowOutcome>): (order: seq<string>)
    ensures forall i, j :: 0 <= i < j < |order| ==> order[i] != order[j]
    ensures forall l :: l in order <==> l in FileMap(outs)
  {
    if outs == [] then []
    else
      var n := |outs| - 1;
      var prev := KeyOrder(outs[..n]);
      match outs[n]
      case Invalid(_) => prev
      case Valid(l, _) => if l in prev then prev else prev + [l]
  }

  /** The row errors of the first loop, in row order. */
  function RowErrors(outs: seq<RowOutcome>): (errors: seq<string>)
    ensures |errors| <= |outs|
  {
    if outs == [] then []
    else
      var n := |outs| - 1;
      match outs[n]
      case Invalid(msg) => RowErrors(outs[..n]) + [msg]
      case Valid(_, _) => RowErrors(outs[..n])
  }

  /** How the three prefix functions grow by one row. */
  lemma PrefixStep(outs: seq<RowOutcome>, i: nat)
    requires i < |outs|
    ensures FileMap(outs[..i + 1]) ==
      if outs[i].Valid? then FileMap(outs[..i])[outs[i].lookup := outs[i].entry] else FileMap(outs[..i])
    ensures KeyOrder(outs[..i + 1]) ==
      if outs[i].Valid? && outs[i].lookup !in FileMap(outs[..i]) then KeyOrder(outs[..i]) + [outs[i].lookup]
      else KeyOrder(outs[..i])
    ensures RowErrors(outs[..i + 1]) ==
      if outs[i].Invalid? then RowErrors(outs[..i]) + [outs[i].message] else RowErrors(outs[..i])
  {
    assert outs[..i + 1][..i] == outs[..i];
    assert outs[..i + 1][i] == outs[i];
  }

  // ----- Properties -----

  /** Any string whose trimmed, lower-cased form is a token parses as true,
      whether or not PHP considers it numeric. */
  lemma TokensParseTrue(s: string)
    requires Normalize(s) in TrueTokens
    ensures ParseBoolean(VString(s))
  {
    ZeroIsNormal();
    LooseEqualsReflexive(Normalize(s));
  }

  /** "0" is its own trimmed, lower-cased form, and not a token. */
  lemma ZeroIsNormal()
    ensures Normalize("0") == "0" && "0" !in TrueTokens
  {
    var z := "0";
    assert TrimLeft(z) == z;
    assert TrimRight(z) == z;
    assert Lower(z) == z;
  }

  /** A string that starts with a letter is not numeric. */
  lemma LetterStartIsNotNumeric(s: string)
    requires s != [] && ('a' <= s[0] <= 'z' || 'A' <= s[0] <= 'Z')
    ensures !IsNumericString(s)
  {
    var t := DropNumericSpaceRight(DropNumericSpaceLeft(s));
    assert DropNumericSpaceLeft(s) == s;
    if t != [] {
      assert t[0] == s[0];
      assert !IsDigit(t[0]) && t[0] != '+' && t[0] != '-' && t[0] != '.';
      assert DigitsEnd(t, 0) == 0;
    }
  }

  /** A lower-case word that is not a token parses as false. */
  lemma WordParsesFalse(w: string)
    requires w != [] && forall i :: 0 <= i < |w| ==> 'a' <= w[i] <= 'z'
    requires w !in TrueTokens
    ensures !ParseBoolean(VString(w))
  {
    LetterStartIsNotNumeric(w);
    LowerCaseWordIsNormal(w);
    forall t | t in TrueTokens ensures !LooseEquals(w, t) {
      LooseEqualsSymmetric(w, t);
    }
  }

  /** The Dutch "nee" is not a token: it parses as false like any other word
      outside the grammar. */
  lemma NeeParsesFalse()
    ensures !ParseBoolean(VString("nee"))
  {
    WordParsesFalse("nee");
  }

  lemma LowerCaseWordIsNormal(w: string)
    requires w != [] && forall i :: 0 <= i < |w| ==> 'a' <= w[i] <= 'z'
    ensures Normalize(w) == w
  {
    assert TrimLeft(w) == w;
    assert TrimRight(w) == w;
    assert Lower(w) == w;
  }

  /** A numeric string is false only when it is exactly "0": "0.0" parses
      as true, since PHP converts the string itself, not the number it
      denotes. */
  lemma ZeroPointZeroParsesTrue()
    ensures ParseBoolean(VString("0.0"))
  {
    var s := "0.0";
    assert s[0] == '0' && s[1] == '.' && s[2] == '0';
    DecimalIsNumeric(s, 1);
  }

  /** "1.0" followed by a NUL byte is not numeric, but `trim` removes the
      NUL and the remaining "1.0" is loosely equal to the token "1". */
  lemma NulPaddedNumberParsesTrue(s: string)
    requires s == "1.0" + [0 as char]
    ensures ParseBoolean(VString(s))
  {
    NulPaddedIsNotNumeric(s);
    NulPaddedNormalizes(s);
    OnePointZeroIsOne("1.0", "1");
  }

  lemma NulPaddedIsNotNumeric(s: string)
    requires s == "1.0" + [0 as char]
    ensures !IsNumericString(s)
  {
    assert DropNumericSpaceLeft(s) == s;
    assert DropNumericSpaceRight(s) == s;
    assert DigitsEnd(s, 0) == 1 && s[1] == '.' && DigitsEnd(s, 2) == 3 && s[3] == 0 as char;
  }

  lemma NulPaddedNormalizes(s: string)
    requires s == "1.0" + [0 as char]
    ensures Normalize(s) == "1.0"
  {
    assert TrimLeft(s) == s;
    assert s[..3] == "1.0";
    assert TrimRight(s) == TrimRight("1.0");
    assert TrimRight("1.0") == "1.0";
    assert Lower("1.0") == "1.0";
  }

  /** "00" is numeric too, and so parses as true. */
  lemma DoubleZeroParsesTrue()
    ensures ParseBoolean(VString("00"))
  {
    var s := "00";
    assert s[0] == '0' && s[1] == '0';
    DigitsAreNumeric(s);
  }

  /** Only the exact string "0" is false among the numeric strings. */
  lemma ZeroParsesFalse()
    ensures !ParseBoolean(VString("0"))
  {
    var s := "0";
    assert s[0] == '0';
    DigitsAreNumeric(s);
  }

  /** A bad row is skipped: the file map is built from the other rows as
      if it were not there. */
  lemma {:induction false} BadRowIsSkipped(before: seq<RowOutcome>, msg: string, after: seq<RowOutcome>)
    ensures FileMap(before + [Invalid(msg)] + after) == FileMap(before + after)
    decreases |after|
  {
    var whole := before + [Invalid(msg)] + after;
    if after == [] {
      assert whole[..|whole| - 1] == before;
      assert before + after == before;
    } else {
      var n := |after| - 1;
      BadRowIsSkipped(before, msg, after[..n]);
      assert whole[..|whole| - 1] == before + [Invalid(msg)] + after[..n];
      assert (before + after)[..|before + after| - 1] == before + after[..n];
      assert whole[|whole| - 1] == after[n] == (before + after)[|before + after| - 1];
    }
  }

  /** A bad row contributes exactly its one message to the error list, in
      its place among the other rows' messages. */
  lemma {:induction false} BadRowAddsOneError(before: seq<RowOutcome>, msg: string, after: seq<RowOutcome>)
    ensures RowErrors(before + [Invalid(msg)] + after) == RowErrors(before) + [msg] + RowErrors(after)
    decreases |after|
  {
    var whole := before + [Invalid(msg)] + after;
    if after == [] {
      assert whole[..|whole| - 1] == before;
      assert after == [];
    } else {
      var n := |after| - 1;
      BadRowAddsOneError(before, msg, after[..n]);
      assert whole[..|whole| - 1] == before + [Invalid(msg)] + after[..n];
      assert whole[|whole| - 1] == after[n];
      if after[n].Invalid? {
        assert RowErrors(after) == RowErrors(after[..n]) + [after[n].message];
      } else {
        assert RowErrors(after) == RowErrors(after[..n]);
      }
    }
  }

  /** The file's members are exactly the lookup hashes of its valid rows. */
  lemma {:induction false} FileMapKeys(outs: seq<RowOutcome>)
    ensures forall l :: l in FileMap(outs) <==> exists i :: 0 <= i < |outs| && outs[i].Valid? && outs[i].lookup == l
    decreases |outs|
  {
    if outs != [] {
      var n := |outs| - 1;
      FileMapKeys(outs[..n]);
      assert forall i :: 0 <= i < n ==> outs[..n][i] == outs[i];
    }
  }

  /** Of several valid rows with the same lookup hash, the last one is
      what the sync stores. */
  lemma {:induction false} LastOccurrenceWins(outs: seq<RowOutcome>, i: nat)
    requires i < |outs| && outs[i].Valid?
    requires forall j :: i < j < |outs| && outs[j].Valid? ==> outs[j].lookup != outs[i].lookup
    ensures outs[i].lookup in FileMap(outs) && FileMap(outs)[outs[i].lookup] == outs[i].entry
    decreases |outs|
  {
    var n := |outs| - 1;
    if i < n {
      assert forall j :: i < j < n ==> outs[..n][j] == outs[j];
      LastOccurrenceWins(outs[..n], i);
    }
    assert outs[..n + 1] == outs;
  }

  /** Two valid rows whose addresses agree after trimming and lower-casing
      share a lookup hash, so they are one member: the file's member count
      is the number of distinct normalised addresses. */
  lemma SameAddressSameKey(c: Crypto, cfg: Option<string>, isEmail: string -> bool,
                           iv1: string, iv2: string, r1: map<string, string>, r2: map<string, string>,
                           i1: nat, i2: nat)
    requires Normalize(RawEmail(r1)) == Normalize(RawEmail(r2))
    requires ClassifyRow(c, cfg, isEmail, iv1, r1, i1).Valid?
    requires ClassifyRow(c, cfg, isEmail, iv2, r2, i2).Valid?
    ensures ClassifyRow(c, cfg, isEmail, iv1, r1, i1).lookup == ClassifyRow(c, cfg, isEmail, iv2, r2, i2).lookup
  {
  }

  /** A CSV file is refused exactly when it has no header line or its
      header names neither `email` nor `email_address` (after trimming and
      lower-casing); every row it yields then has an `email_address`, and
      it yields at most one row per data record. */
  lemma CsvRefusedIff(records: seq<seq<string>>)
    ensures CsvOutcome(records).CsvFailed? <==>
              records == [] || !(EmailColumn in NormalizeHeaders(records[0]) || EmailAddressColumn in NormalizeHeaders(records[0]))
    ensures CsvOutcome(records).CsvRows? ==>
              |CsvOutcome(records).rows| < |records|
              && forall i :: 0 <= i < |CsvOutcome(records).rows| ==> EmailAddressColumn in CsvOutcome(records).rows[i]
  {
  }
}
