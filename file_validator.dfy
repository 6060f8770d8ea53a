/** The upload check (src/Utils/FileValidator.php): an upload error, the
    size limit, the file extension and the detected MIME type, reported as
    a list of messages in that order. */
module FileValidator {
  import opened Php

  /** PHP's default when UPLOAD_MAX_SIZE is not configured: 10 MiB. */
  const DefaultMaxSize: nat := 10485760

  const AllowedExtensions: seq<string> := ["csv", "xls", "xlsx"]

  const AllowedMimes: seq<string> := [
    "text/csv",
    "text/plain",
    "application/vnd.ms-excel",
    "application/vnd.openxmlformats-officedocument.spreadsheetml.sheet"]

  /** One entry of $_FILES. `mime` is what finfo_file detects for the
      temporary file (None where it returns false). */
  datatype UploadedFile = UploadedFile(error: nat, size: nat, name: string, mime: Option<string>)

  // ----- pathinfo($name, PATHINFO_EXTENSION) -----

  function DropTrailingSlashes(s: string): (r: string)
    ensures |r| <= |s| && r == s[..|r|]
    ensures r == [] || r[|r| - 1] != '/'
  {
    if |s| > 0 && s[|s| - 1] == '/' then DropTrailingSlashes(s[..|s| - 1]) else s
  }

  /** The text after the last occurrence of `sep`, or None when `s` has none. */
  function AfterLast(s: string, sep: char): (r: Option<string>)
    ensures r.None? <==> sep !in s
    ensures r.Some? ==> sep !in r.value && |r.value| < |s|
                        && s[|s| - |r.value| - 1] == sep && s[|s| - |r.value|..] == r.value
  {
    if |s| == 0 then None
    else if s[|s| - 1] == sep then Some("")
    else match AfterLast(s[..|s| - 1], sep)
      case None => None
      case Some(t) => Some(t + [s[|s| - 1]])
  }

  /** basename(): the last path component, trailing slashes ignored. */
  function Basename(path: string): (r: string)
    ensures '/' !in r
  {
    var p := DropTrailingSlashes(path);
    match AfterLast(p, '/')
    case None => p
    case Some(b) => b
  }

  /** getExtension(): the lower-cased text after the last dot of the file's
      base name, "" when the base name has no dot. */
  function GetExtension(name: string): (ext: string)
    ensures '.' !in ext && '/' !in ext
    ensures '.' !in Basename(name) ==> ext == ""
    ensures '.' in Basename(name) ==> exists suffix :: AfterLast(Basename(name), '.') == Some(suffix) && ext == Lower(suffix)
  {
    match AfterLast(Basename(name), '.')
    case None => ""
    case Some(e) =>
      assert forall i :: 0 <= i < |e| ==> e[i] != '.' && e[i] != '/';
      Lower(e)
  }

  // ----- Messages -----

  /** The reasons validate() reports; `Message` gives the text of each. */
  datatype UploadError =
    | UploadFailed(code: Option<nat>)
    | TooLarge(max: nat)
    | BadExtension
    | BadMime

  /** 5^20: max / 2^20 is (max * 5^20) / 10^20, a decimal with 20 places. */
  const FiveTo20: nat := 95367431640625

  /** PHP's default `precision` ini setting: a float is echoed with at most
      14 significant digits. */
  const Precision: nat := 14

  lemma {:induction false} Pow10Mono(a: nat, b: nat)
    requires a <= b
    ensures Pow10(a) <= Pow10(b)
    decreases b
  {
    if a < b {
      Pow10Mono(a, b - 1);
    }
  }

  /** Every n with 10^(d-1) <= n < 10^d has d digits. */
  lemma {:induction false} DigitCountIs(n: nat, d: nat)
    requires d >= 1 && Pow10(d - 1) <= n < Pow10(d)
    ensures DigitCount(n) == d
    decreases d
  {
    if d > 1 {
      assert n >= 10;
      DigitCountIs(n / 10, d - 1);
    }
  }

  /** The number of decimal digits of n. */
  function DigitCount(n: nat): (d: nat)
    ensures d >= 1 && n < Pow10(d)
    ensures n > 0 ==> Pow10(d - 1) <= n
  {
    if n < 10 then 1 else 1 + DigitCount(n / 10)
  }

  function Dist(a: nat, b: nat): nat {
    if a >= b then a - b else b - a
  }

  /** n rounded to a multiple of p, ties to the even multiple. */
  function RoundAt(n: nat, p: nat): (m: nat)
    requires p >= 1
    ensures 2 * Dist(m * p, n) <= p
    ensures 2 * Dist(m * p, n) == p ==> m % 2 == 0
    ensures n / p <= m <= n / p + 1
  {
    var q := n / p;
    var rem := n % p;
    var m := if 2 * rem > p || (2 * rem == p && q % 2 == 1) then q + 1 else q;
    DivMod(n, p);
    HalfUnit(n, p, q, rem, m);
    m
  }

  lemma QuotientPositive(n: nat, p: nat)
    requires 1 <= p <= n
    ensures n / p >= 1
  {
    DivMod(n, p);
  }

  lemma DivMod(n: nat, p: nat)
    requires p >= 1
    ensures n == (n / p) * p + n % p && n % p < p
  {
  }

  /** n rounded to at most `prec` significant digits, ties to the even
      digit, as zend_dtoa rounds: the pair (m, k) stands for m * 10^k. */
  function RoundSignificant(n: nat, prec: nat): (r: (nat, nat))
    requires n > 0 && prec >= 1
    ensures r.0 > 0
  {
    var d := DigitCount(n);
    if d <= prec then (n, 0)
    else
      var k := d - prec;
      Pow10Mono(k, d - 1);
      QuotientPositive(n, Pow10(k));
      var m := RoundAt(n, Pow10(k));
      if m == Pow10(prec) then (Pow10(prec - 1), k + 1) else (m, k)
  }

  /** The rounding is to nearest: m has at most `prec` digits, m * 10^k is
      at most half a unit of the last kept digit away from n, and a tie
      keeps the even digit. */
  lemma RoundSignificantIsNearest(n: nat, prec: nat)
    requires n > 0 && prec >= 1
    ensures var (m, k) := RoundSignificant(n, prec);
            && 0 < m < Pow10(prec)
            && 2 * Dist(m * Pow10(k), n) <= Pow10(k)
            && (2 * Dist(m * Pow10(k), n) == Pow10(k) ==> m % 2 == 0)
  {
    var d := DigitCount(n);
    if d <= prec {
      Pow10Mono(d, prec);
    } else {
      var k := d - prec;
      LongRounding(n, prec, d, k, Pow10(k), Pow10(prec - 1), Pow10(prec));
    }
  }

  lemma LongRounding(n: nat, prec: nat, d: nat, k: nat, p: nat, small: nat, big: nat)
    requires n > 0 && prec >= 1 && d == DigitCount(n) && d > prec && k == d - prec
    requires p == Pow10(k) && small == Pow10(prec - 1) && big == Pow10(prec)
    ensures var (m, e) := RoundSignificant(n, prec);
            && 0 < m < big
            && 2 * Dist(m * Pow10(e), n) <= Pow10(e)
            && (2 * Dist(m * Pow10(e), n) == Pow10(e) ==> m % 2 == 0)
  {
    Pow10Add(prec, k);
    Pow10Add(prec - 1, k);
    assert prec - 1 + k == d - 1;
    QuotientBounds(n, p, small, big);
    var m := RoundAt(n, p);
    assert RoundSignificant(n, prec) == if m == big then (small, k + 1) else (m, k);
    if m == big {
      assert big == 10 * small;
      assert Pow10(k + 1) == 10 * p;
      Renormalise(small, big, p, Pow10(k + 1));
    }
  }

  lemma QuotientBounds(n: nat, p: nat, small: nat, big: nat)
    requires p >= 1 && small >= 1 && small * p <= n < big * p
    ensures small <= n / p < big
  {
    var q := n / p;
    assert q * p + n % p == n;
    if q >= big {
      MulMono(big, q, p);
    }
    if q < small {
      assert (q + 1) * p == q * p + p;
      MulMono(q + 1, small, p);
    }
  }

  lemma MulMono(a: nat, b: nat, c: nat)
    requires a <= b
    ensures a * c <= b * c
  {
  }

  /** One rounding step: q * p + rem rounded to a multiple m * p. */
  lemma HalfUnit(n: nat, p: nat, q: nat, rem: nat, m: nat)
    requires p >= 1 && n == q * p + rem && rem < p
    requires m == if 2 * rem > p || (2 * rem == p && q % 2 == 1) then q + 1 else q
    ensures 2 * Dist(m * p, n) <= p
    ensures 2 * Dist(m * p, n) == p ==> m % 2 == 0
  {
    if m == q + 1 {
      assert m * p == q * p + p;
    }
  }

  /** m == 10^14 is written 10^13 * 10^(k+1), with the same distance to n. */
  lemma Renormalise(small: nat, big: nat, p: nat, p10: nat)
    requires big == 10 * small && p10 == 10 * p
    ensures small * p10 == big * p
  {
  }

  function Zeros(n: nat): (r: string)
    ensures |r| == n && forall i :: 0 <= i < n ==> r[i] == '0'
  {
    if n == 0 then "" else "0" + Zeros(n - 1)
  }

  /** zend_gcvt with precision 14: the digits of 0.`digits` × 10^`decpt`,
      in plain notation when -3 <= decpt <= 14, otherwise as
      d.ddd E±x (with ".0" after a single digit). */
  function Gcvt(digits: string, decpt: int): string
    requires |digits| >= 1 && forall i :: 0 <= i < |digits| ==> '0' <= digits[i] <= '9'
  {
    if decpt < -3 || decpt > Precision as int then
      var e := decpt - 1;
      [digits[0]] + DecimalPoint + (if |digits| == 1 then "0" else digits[1..]) + ExponentMark
      + (if e < 0 then "-" else "+") + NatToString(if e < 0 then -e else e)
    else if decpt < 0 then "0" + DecimalPoint + Zeros(-decpt) + digits
    else if decpt >= |digits| then digits + Zeros(decpt - |digits|)
    else if decpt == 0 then "0" + DecimalPoint + digits
    else digits[..decpt] + DecimalPoint + digits[decpt..]
  }

  /** The exponent form is used exactly outside -3 <= decpt <= 14. */
  lemma GcvtExponentIff(digits: string, decpt: int)
    requires |digits| >= 1 && forall i :: 0 <= i < |digits| ==> '0' <= digits[i] <= '9'
    ensures 'E' in Gcvt(digits, decpt) <==> decpt < -3 || decpt > Precision as int
  {
    var s := Gcvt(digits, decpt);
    if decpt < -3 || decpt > Precision as int {
      var e := decpt - 1;
      var head := [digits[0]] + DecimalPoint + (if |digits| == 1 then "0" else digits[1..]);
      assert s == head + ExponentMark + (if e < 0 then "-" else "+") + NatToString(if e < 0 then -e else e);
      assert s[|head|] == 'E';
    } else {
      assert forall i :: 0 <= i < |s| ==> s[i] == '.' || '0' <= s[i] <= '9';
    }
  }

  /** A positive float n / 10^scale as PHP echoes it. */
  function FloatText(n: nat, scale: nat, prec: nat): string
    requires n > 0 && prec >= 1
  {
    PrintMantissa(NatToString(RoundSignificant(n, prec).0), RoundSignificant(n, prec).1 - scale)
  }

  /** The decimal digits `full` of a rounded mantissa, times 10^shift, as
      zend_gcvt prints them: trailing zeros dropped, the point placed. */
  function PrintMantissa(full: string, shift: int): string
    requires |full| > 0 && full[0] != '0' && forall i :: 0 <= i < |full| ==> '0' <= full[i] <= '9'
  {
    Gcvt(StripTrailingZeros(full), |full| + shift)
  }

  function StripTrailingZeros(s: string): (r: string)
    ensures |r| <= |s| && r == s[..|r|]
    ensures r == [] || r[|r| - 1] != '0'
    ensures |s| > 0 && s[0] != '0' ==> |r| > 0
  {
    if |s| > 0 && s[|s| - 1] == '0' then StripTrailingZeros(s[..|s| - 1]) else s
  }

  /** `$max / 1024 / 1024` as PHP echoes it. When both divisions are exact
      the quotient is an int and prints as one; otherwise it is the float
      max / 2^20, printed with 14 significant digits. */
  function MegabyteText(max: nat): string {
    if max % 1048576 == 0 then NatToString(max / 1048576)
    else FloatText(max * FiveTo20, 20, Precision)
  }

  const DecimalPoint: string := "."
  const ExponentMark: string := "E"
  const UploadFailedPrefix: string := "Bestand upload mislukt. Error code: "
  const UnknownCode: string := "unknown"
  const TooLargePrefix: string := "Bestand is te groot. Maximum grootte: "
  const MegabyteSuffix: string := "MB"
  const BadExtensionMessage: string := "Ongeldig bestandsformaat. Toegestaan: csv, xls, xlsx"
  const BadMimeMessage: string := "Ongeldig bestandstype gedetecteerd."

  function Message(e: UploadError): string {
    match e
    case UploadFailed(code) => UploadFailedPrefix + (if code.Some? then NatToString(code.value) else UnknownCode)
    case TooLarge(max) => TooLargePrefix + MegabyteText(max) + MegabyteSuffix
    case BadExtension => BadExtensionMessage
    case BadMime => BadMimeMessage
  }

  /** validate()'s result as text, as importFromFile joins it. */
  function Messages(errors: seq<UploadError>): (texts: seq<string>)
    ensures |texts| == |errors|
    ensures forall i :: 0 <= i < |errors| ==> texts[i] == Message(errors[i])
  {
    seq(|errors|, i requires 0 <= i < |errors| => Message(errors[i]))
  }

  predicate ExtensionAllowed(file: UploadedFile) {
    GetExtension(file.name) in AllowedExtensions
  }

  predicate MimeAllowed(file: UploadedFile) {
    file.mime.Some? && file.mime.value in AllowedMimes
  }

  /** The list validate() returns: a single error for a missing or failed
      upload; otherwise the size, extension and MIME errors that apply, in
      that order. */
  function Check(file: Option<UploadedFile>, max: nat): (errors: seq<UploadError>)
    ensures file.None? ==> errors == [UploadFailed(None)]
    ensures file.Some? && file.value.error != 0 ==> errors == [UploadFailed(Some(file.value.error))]
    ensures file.Some? && file.value.error == 0 ==>
      && (TooLarge(max) in errors <==> file.value.size > max)
      && (BadExtension in errors <==> !ExtensionAllowed(file.value))
      && (BadMime in errors <==> !ExtensionAllowed(file.value) && !MimeAllowed(file.value))
      && (forall e :: e in errors ==> !e.UploadFailed?)
  {
    if file.None? then [UploadFailed(None)]
    else if file.value.error != 0 then [UploadFailed(Some(file.value.error))]
    else
      var f := file.value;
      Collect(max, f.size > max, !ExtensionAllowed(f), !MimeAllowed(f) && !ExtensionAllowed(f))
  }

  /** The errors of a completed upload, given which checks failed. */
  function Collect(max: nat, tooLarge: bool, badExtension: bool, badMime: bool): (errors: seq<UploadError>)
    ensures TooLarge(max) in errors <==> tooLarge
    ensures BadExtension in errors <==> badExtension
    ensures BadMime in errors <==> badMime
    ensures forall e :: e in errors ==> !e.UploadFailed?
  {
    (if tooLarge then [TooLarge(max)] else [])
    + (if badExtension then [BadExtension] else [])
    + (if badMime then [BadMime] else [])
  }

  /** validate(): builds the list one check at a time, returning early on a
      failed upload. */
  method Validate(file: Option<UploadedFile>, max: nat) returns (errors: seq<UploadError>)
    ensures errors == Check(file, max)
  {
    errors := [];
    if file.None? {
      errors := errors + [UploadFailed(None)];
      return;
    }
    if file.value.error != 0 {
      errors := errors + [UploadFailed(Some(file.value.error))];
      return;
    }
    var f := file.value;
    if f.size > max {
      errors := errors + [TooLarge(max)];
    }
    assert errors == (if f.size > max then [TooLarge(max)] else []);
    var extension := GetExtension(f.name);
    var errorsBefore := errors;
    if extension !in AllowedExtensions {
      errors := errors + [BadExtension];
    }
    assert errors == errorsBefore + (if extension !in AllowedExtensions then [BadExtension] else []);
    errorsBefore := errors;
    if !MimeAllowed(f) && extension !in AllowedExtensions {
      errors := errors + [BadMime];
    }
    assert errors == errorsBefore + (if !MimeAllowed(f) && extension !in AllowedExtensions then [BadMime] else []);
  }

  // ----- Properties -----

  /** The detected MIME type never decides acceptance: a file passes exactly
      when the upload succeeded, the size is within the limit (equal is
      fine) and the extension is allowed. */
  lemma AcceptedIff(file: Option<UploadedFile>, max: nat)
    ensures Check(file, max) == [] <==>
      file.Some? && file.value.error == 0 && file.value.size <= max && ExtensionAllowed(file.value)
  {
  }

  /** An allowed extension never draws the MIME message, whatever was detected. */
  lemma AllowedExtensionHasNoMimeError(file: UploadedFile, max: nat)
    requires file.error == 0 && ExtensionAllowed(file)
    ensures BadMime !in Check(Some(file), max)
  {
  }

  /** Where an error comes in validate()'s list: size, then extension, then MIME. */
  function Rank(e: UploadError): nat {
    match e
    case UploadFailed(_) => 0
    case TooLarge(_) => 1
    case BadExtension => 2
    case BadMime => 3
  }

  /** For any completed upload, the messages that do appear keep the order
      size, extension, MIME, each at most once; when all three checks fail,
      all three messages come, in that order. */
  lemma MessagesInOrder(file: UploadedFile, max: nat)
    requires file.error == 0
    ensures var errs := Check(Some(file), max);
            forall i, j :: 0 <= i < j < |errs| ==> Rank(errs[i]) < Rank(errs[j])
    ensures file.size > max && !ExtensionAllowed(file) && !MimeAllowed(file) ==>
            Check(Some(file), max) == [TooLarge(max), BadExtension, BadMime]
  {
    var f := file;
    var errs := Check(Some(f), max);
    assert errs == Collect(max, f.size > max, !ExtensionAllowed(f), !MimeAllowed(f) && !ExtensionAllowed(f));
    CollectRanked(max, f.size > max, !ExtensionAllowed(f), !MimeAllowed(f) && !ExtensionAllowed(f));
    CollectAll(max);
  }

  lemma CollectRanked(max: nat, tooLarge: bool, badExtension: bool, badMime: bool)
    ensures var errs := Collect(max, tooLarge, badExtension, badMime);
            forall i, j :: 0 <= i < j < |errs| ==> Rank(errs[i]) < Rank(errs[j])
  {
    var a: seq<UploadError> := if tooLarge then [TooLarge(max)] else [];
    var b: seq<UploadError> := if badExtension then [BadExtension] else [];
    var c: seq<UploadError> := if badMime then [BadMime] else [];
    var errs := Collect(max, tooLarge, badExtension, badMime);
    assert errs == a + b + c;
    forall i, j | 0 <= i < j < |errs|
      ensures Rank(errs[i]) < Rank(errs[j])
    {
      assert Rank(errs[i]) == (if i < |a| then 1 else if i < |a| + |b| then 2 else 3);
      assert Rank(errs[j]) == (if j < |a| then 1 else if j < |a| + |b| then 2 else 3);
    }
  }

  lemma CollectAll(max: nat)
    ensures Collect(max, true, true, true) == [TooLarge(max), BadExtension, BadMime]
  {
    assert [TooLarge(max)] + [BadExtension] + [BadMime] == [TooLarge(max), BadExtension, BadMime];
  }

  lemma {:induction false} AfterLastOfSuffix(p: string, sep: char, t: string)
    requires sep !in t
    ensures AfterLast(p + [sep] + t, sep) == Some(t)
    decreases |t|
  {
    var s := p + [sep] + t;
    if t != [] {
      var u := t[..|t| - 1];
      assert s[..|s| - 1] == p + [sep] + u;
      assert s[|s| - 1] == t[|t| - 1];
      AfterLastOfSuffix(p, sep, u);
      assert u + [t[|t| - 1]] == t;
    }
  }

  /** The extension of "dir/stem.ext" is the lower-cased text after the last
      dot, whatever the directory and the stem contain: "Leden.2024.CSV"
      has the extension "csv". */
  lemma ExtensionAfterLastDot(dir: string, stem: string, ext: string)
    requires '/' !in stem && '/' !in ext && '.' !in ext
    ensures GetExtension(dir + "/" + stem + "." + ext) == Lower(ext)
  {
    var b := stem + "." + ext;
    var path := dir + "/" + stem + "." + ext;
    assert path == dir + ['/'] + b;
    assert path[|path| - 1] != '/' by {
      if ext == [] { assert path[|path| - 1] == '.'; }
      else { assert path[|path| - 1] == ext[|ext| - 1]; }
    }
    assert DropTrailingSlashes(path) == path;
    assert '/' !in b;
    AfterLastOfSuffix(dir, '/', b);
    assert Basename(path) == b;
    AfterLastOfSuffix(stem, '.', ext);
  }

  /** A base name without a dot has no extension, even when a directory
      name has one. */
  lemma NoDotNoExtension(dir: string, base: string)
    requires '/' !in base && '.' !in base && base != []
    ensures GetExtension(dir + "/" + base) == ""
  {
    var path := dir + "/" + base;
    assert path == dir + ['/'] + base;
    assert path[|path| - 1] == base[|base| - 1];
    assert DropTrailingSlashes(path) == path;
    AfterLastOfSuffix(dir, '/', base);
  }

  /** A limit of 5000000 bytes is 4.76837158203125 MiB; PHP echoes it with
      14 significant digits, and the tie on the dropped 5 keeps the even 2. */
  lemma FiveMillionBytesText(max: nat)
    requires max == 5000000
    ensures MegabyteText(max) == "4.7683715820312"
  {
    assert max % 1048576 != 0;
    FiveMillionFloat(max * FiveTo20);
    FiveMillionPrint("47683715820312");
  }

  lemma FiveMillionFloat(n: nat)
    requires n == 5000000 * FiveTo20
    ensures FloatText(n, 20, Precision) == PrintMantissa("47683715820312", -13)
  {
    FiveMillionRounding(n);
    FiveMillionDigits();
    FloatTextIs(n, 20, Precision, 47683715820312, 7, "47683715820312");
  }

  lemma FiveMillionPrint(full: string)
    requires full == "47683715820312"
    ensures PrintMantissa(full, -13) == "4.7683715820312"
  {
    assert StripTrailingZeros(full) == full;
    assert PrintMantissa(full, -13) == Gcvt(full, 1);
    assert Gcvt(full, 1) == full[..1] + DecimalPoint + full[1..];
  }

  lemma FiveMillionRounding(n: nat)
    requires n == 5000000 * FiveTo20
    ensures RoundSignificant(n, Precision) == (47683715820312, 7)
  {
    assert n == 476837158203125000000;
    Pow10Twenty();
    DigitCountIs(n, 21);
    assert Pow10(7) == 10000000;
    assert RoundAt(n, 10000000) == 47683715820312;
    assert Pow10(14) == 100000000000000;
  }

  /** FloatText in terms of its steps. */
  lemma FloatTextIs(n: nat, scale: nat, prec: nat, m: nat, k: nat, full: string)
    requires n > 0 && prec >= 1 && RoundSignificant(n, prec) == (m, k) && NatToString(m) == full
    ensures |full| > 0 && full[0] != '0' && forall i :: 0 <= i < |full| ==> '0' <= full[i] <= '9'
    ensures FloatText(n, scale, prec) == PrintMantissa(full, k - scale)
  {
  }

  lemma Pow10Twenty()
    ensures Pow10(19) == 10000000000000000000 && Pow10(20) == 100000000000000000000
  {
    assert Pow10(14) == 100000000000000;
    assert Pow10(5) == 100000 && Pow10(6) == 1000000;
    Pow10Add(14, 5);
    Pow10Add(14, 6);
  }

  lemma FiveMillionDigits()
    ensures NatToString(47683715820312) == "47683715820312"
  {
    assert NatToString(4) == "4";
    assert NatToString(47) == "47";
    assert NatToString(476) == "476";
    assert NatToString(4768) == "4768";
    assert NatToString(47683) == "47683";
    assert NatToString(476837) == "476837";
    assert NatToString(4768371) == "4768371";
    assert NatToString(47683715) == "47683715";
    assert NatToString(476837158) == "476837158";
    assert NatToString(4768371582) == "4768371582";
    assert NatToString(47683715820) == "47683715820";
    assert NatToString(476837158203) == "476837158203";
    assert NatToString(4768371582031) == "4768371582031";
    assert NatToString(47683715820312) == "47683715820312";
  }

  /** A one-byte limit is below 10^-4 MiB, so PHP switches to exponent
      notation. */
  lemma OneByteText(max: nat)
    requires max == 1
    ensures MegabyteText(max) == "9.5367431640625E-7"
  {
    assert max % 1048576 != 0 && max * FiveTo20 == FiveTo20;
    OneByteFloat(max * FiveTo20);
    OneBytePrint("95367431640625");
  }

  lemma OneByteFloat(n: nat)
    requires n == FiveTo20
    ensures FloatText(n, 20, Precision) == PrintMantissa("95367431640625", -20)
  {
    OneByteRounding(n);
    OneByteDigits();
    FloatTextIs(n, 20, Precision, 95367431640625, 0, "95367431640625");
  }

  lemma OneBytePrint(full: string)
    requires full == "95367431640625"
    ensures PrintMantissa(full, -20) == "9.5367431640625E-7"
  {
    assert StripTrailingZeros(full) == full;
    assert PrintMantissa(full, -20) == Gcvt(full, -6);
    OneByteExponentForm(full);
  }

  lemma OneByteExponentForm(digits: string)
    requires digits == "95367431640625"
    ensures Gcvt(digits, -6) == "9.5367431640625E-7"
  {
    assert Gcvt(digits, -6) == [digits[0]] + DecimalPoint + digits[1..] + ExponentMark + "-" + NatToString(7);
    assert NatToString(7) == "7";
  }

  lemma OneByteRounding(n: nat)
    requires n == FiveTo20
    ensures RoundSignificant(n, Precision) == (95367431640625, 0)
  {
    assert Pow10(13) == 10000000000000 && Pow10(14) == 100000000000000;
    DigitCountIs(n, 14);
  }

  lemma OneByteDigits()
    ensures NatToString(95367431640625) == "95367431640625"
  {
    assert NatToString(9) == "9";
    assert NatToString(95) == "95";
    assert NatToString(953) == "953";
    assert NatToString(9536) == "9536";
    assert NatToString(95367) == "95367";
    assert NatToString(953674) == "953674";
    assert NatToString(9536743) == "9536743";
    assert NatToString(95367431) == "95367431";
    assert NatToString(953674316) == "953674316";
    assert NatToString(9536743164) == "9536743164";
    assert NatToString(95367431640) == "95367431640";
    assert NatToString(953674316406) == "953674316406";
    assert NatToString(9536743164062) == "9536743164062";
    assert NatToString(95367431640625) == "95367431640625";
  }

  /** With the default limit the message reads "... Maximum grootte: 10MB". */
  lemma DefaultSizeMessage()
    ensures Message(TooLarge(DefaultMaxSize)) == TooLargePrefix + "10" + MegabyteSuffix
  {
    assert DefaultMaxSize / 1048576 == 10 && DefaultMaxSize % 1048576 == 0;
    assert NatToString(10) == "10" by {
      assert NatToString(1) == "1";
    }
  }
}
