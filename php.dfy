/** String and value helpers with the semantics of the PHP built-ins the
    application relies on. PHP strings are byte strings; here every `char`
    stands for one byte, and case mapping is ASCII-only (PHP 8 `strtolower`). */
module Php {

  datatype Option<+T> = None | Some(value: T)

  type byte = x: int | 0 <= x < 256

  /** The characters PHP's `trim` strips by default: " \t\n\r\0\x0B". */
  predicate IsTrimSpace(c: char) {
    c == ' ' || c == '\t' || c == '\n' || c == '\r' || c == '\0' || c == 11 as char
  }

  predicate AllTrimSpace(s: string) {
    forall i :: 0 <= i < |s| ==> IsTrimSpace(s[i])
  }

  function TrimLeft(s: string): string {
    if |s| > 0 && IsTrimSpace(s[0]) then TrimLeft(s[1..]) else s
  }

  function TrimRight(s: string): string {
    if |s| > 0 && IsTrimSpace(s[|s| - 1]) then TrimRight(s[..|s| - 1]) else s
  }

  /** TrimLeft drops a prefix of trim whitespace and stops at the first
      other character. */
  lemma {:induction false} TrimLeftShape(s: string)
    ensures var r := TrimLeft(s);
            && |r| <= |s| && r == s[|s| - |r|..]
            && (r == [] || !IsTrimSpace(r[0]))
            && AllTrimSpace(s[..|s| - |r|])
  {
    if |s| > 0 && IsTrimSpace(s[0]) {
      TrimLeftShape(s[1..]);
      var r := TrimLeft(s);
      assert s[..|s| - |r|] == [s[0]] + s[1..][..|s| - 1 - |r|];
    }
  }

  /** TrimRight drops a suffix of trim whitespace and stops at the last
      other character. */
  lemma {:induction false} TrimRightShape(s: string)
    ensures var r := TrimRight(s);
            && |r| <= |s| && r == s[..|r|]
            && (r == [] || !IsTrimSpace(r[|r| - 1]))
            && AllTrimSpace(s[|r|..])
  {
    if |s| > 0 && IsTrimSpace(s[|s| - 1]) {
      TrimRightShape(s[..|s| - 1]);
      var r := TrimRight(s);
      assert s[|r|..] == s[..|s| - 1][|r|..] + [s[|s| - 1]];
    }
  }

  /** PHP `trim($s)`. */
  function Trim(s: string): string {
    TrimRight(TrimLeft(s))
  }

  function LowerChar(c: char): char {
    if 'A' <= c <= 'Z' then (c as int + 32) as char else c
  }

  /** PHP `strtolower($s)` (ASCII letters only). */
  function Lower(s: string): (r: string)
    ensures |r| == |s|
    ensures forall i :: 0 <= i < |s| ==> r[i] == LowerChar(s[i])
  {
    seq(|s|, i requires 0 <= i < |s| => LowerChar(s[i]))
  }

  /** `strtolower(trim($s))`, the normal form of an e-mail address. */
  function Normalize(s: string): string {
    Lower(Trim(s))
  }

  /** PHP `empty($s)` on a string: true for "" and "0" only. */
  predicate IsBlank(s: string) {
    s == "" || s == "0"
  }

  /** PHP `strpos($hay, $needle) !== false`. */
  predicate Contains(hay: string, needle: string) {
    |needle| <= |hay| && (hay[..|needle|] == needle || Contains(hay[1..], needle))
  }

  predicate IsLowerHexDigit(c: char) {
    '0' <= c <= '9' || 'a' <= c <= 'f'
  }

  function HexDigit(n: int): (c: char)
    requires 0 <= n < 16
    ensures IsLowerHexDigit(c)
  {
    if n < 10 then ('0' as int + n) as char else ('a' as int + n - 10) as char
  }

  /** PHP `bin2hex($bytes)`: two lower-case hex digits per byte. */
  function Bin2Hex(bytes: seq<byte>): (r: string)
    ensures |r| == 2 * |bytes|
    ensures forall i :: 0 <= i < |r| ==> IsLowerHexDigit(r[i])
    ensures forall i :: 0 <= i < |bytes| ==> r[2 * i] == HexDigit(bytes[i] / 16) && r[2 * i + 1] == HexDigit(bytes[i] % 16)
  {
    if bytes == [] then ""
    else [HexDigit(bytes[0] / 16), HexDigit(bytes[0] % 16)] + Bin2Hex(bytes[1..])
  }

  /** Decimal rendering of a natural number, as PHP's string conversion. */
  function NatToString(n: nat): (r: string)
    ensures |r| > 0
    ensures forall i :: 0 <= i < |r| ==> '0' <= r[i] <= '9'
    ensures n > 0 ==> r[0] != '0'
  {
    if n < 10 then [('0' as int + n) as char]
    else NatToString(n / 10) + [('0' as int + n % 10) as char]
  }

  /** The number a string of decimal digits denotes. */
  function DecimalValue(s: string): nat
    requires forall i :: 0 <= i < |s| ==> '0' <= s[i] <= '9'
  {
    if s == [] then 0 else 10 * DecimalValue(s[..|s| - 1]) + (s[|s| - 1] as int - '0' as int)
  }

  /** NatToString is the decimal notation of its argument: reading the
      digits back gives the number, and there is no leading zero. */
  lemma {:induction false} NatToStringValue(n: nat)
    ensures DecimalValue(NatToString(n)) == n
    ensures |NatToString(n)| == 1 || NatToString(n)[0] != '0'
  {
    if n >= 10 {
      NatToStringValue(n / 10);
      var s := NatToString(n);
      assert s[..|s| - 1] == NatToString(n / 10);
    }
  }

  // ----- Numeric strings and loose comparison -----

  /** The whitespace PHP 8's numeric-string grammar allows around a number. */
  predicate IsNumericSpace(c: char) {
    c == ' ' || c == '\t' || c == '\n' || c == '\r' || c == 11 as char || c == 12 as char
  }

  predicate IsDigit(c: char) {
    '0' <= c <= '9'
  }

  /** b[i..j] is a run of decimal digits. */
  predicate DigitsBetween(b: string, i: nat, j: nat) {
    i <= j <= |b| && forall t :: i <= t < j ==> IsDigit(b[t])
  }

  /** The end of the run of digits that starts at i. */
  function DigitsEnd(s: string, i: nat): (j: nat)
    requires i <= |s|
    decreases |s| - i
    ensures i <= j <= |s| && (j == |s| || !IsDigit(s[j]))
    ensures DigitsBetween(s, i, j)
  {
    if i < |s| && IsDigit(s[i]) then DigitsEnd(s, i + 1) else i
  }

  function DropNumericSpaceLeft(s: string): (r: string)
    ensures |r| <= |s| && r == s[|s| - |r|..]
    ensures s != [] && !IsNumericSpace(s[0]) ==> r == s
  {
    if |s| > 0 && IsNumericSpace(s[0]) then DropNumericSpaceLeft(s[1..]) else s
  }

  function DropNumericSpaceRight(s: string): (r: string)
    ensures |r| <= |s| && r == s[..|r|]
  {
    if |s| > 0 && IsNumericSpace(s[|s| - 1]) then DropNumericSpaceRight(s[..|s| - 1]) else s
  }

  /** An optional exponent part `[eE][+-]?digits` running to the end. */
  predicate ExponentFrom(b: string, k: nat)
    requires k <= |b|
  {
    k == |b|
    || (&& (b[k] == 'e' || b[k] == 'E')
        && var m := if k + 1 < |b| && (b[k + 1] == '+' || b[k + 1] == '-') then k + 2 else k + 1;
           var e := DigitsEnd(b, m);
           e > m && e == |b|)
  }

  /** `[+-]? (digits ('.' digits?)? | '.' digits) exponent?` */
  predicate IsNumberLiteral(b: string) {
    var i := if |b| > 0 && (b[0] == '+' || b[0] == '-') then 1 else 0;
    var j := DigitsEnd(b, i);
    var k := if j < |b| && b[j] == '.' then DigitsEnd(b, j + 1) else j;
    (j > i || k > j + 1) && ExponentFrom(b, k)
  }

  /** PHP 8 `is_numeric($s)` for a string: a decimal number, optionally
      surrounded by whitespace. */
  predicate IsNumericString(s: string) {
    IsNumberLiteral(DropNumericSpaceRight(DropNumericSpaceLeft(s)))
  }

  function Pow10(k: nat): (p: nat)
    ensures p >= 1
  {
    if k == 0 then 1 else 10 * Pow10(k - 1)
  }

  lemma {:induction false} Pow10Add(a: nat, b: nat)
    ensures Pow10(a + b) == Pow10(a) * Pow10(b)
    decreases a
  {
    if a > 0 {
      Pow10Add(a - 1, b);
      assert Pow10(a + b) == 10 * Pow10(a - 1 + b);
    }
  }

  /** m followed by k zeros, that is m times ten to the k. */
  function Shift(m: nat, k: nat): (r: nat)
    ensures r == 0 <==> m == 0
  {
    if k == 0 then m else 10 * Shift(m, k - 1)
  }

  /** The exact value of a number literal: mantissa * 10^exponent, negated
      when `negative`. */
  datatype Decimal = Decimal(negative: bool, mantissa: nat, exponent: int)

  /** The number the digits b[i..j] spell. */
  function RunValue(b: string, i: nat, j: nat): nat
    requires DigitsBetween(b, i, j)
    decreases j - i
  {
    if j == i then 0 else 10 * RunValue(b, i, j - 1) + (b[j - 1] as int - '0' as int)
  }

  /** The value of the exponent part that starts at k (0 when there is
      none). */
  function ExponentValue(b: string, k: nat): int
    requires k <= |b| && ExponentFrom(b, k)
  {
    if k == |b| then 0
    else
      var m := if k + 1 < |b| && (b[k + 1] == '+' || b[k + 1] == '-') then k + 2 else k + 1;
      assert DigitsEnd(b, m) == |b|;
      var e: int := RunValue(b, m, |b|);
      if m == k + 2 && b[k + 1] == '-' then -e else e
  }

  /** Reads `[+-]? digits ('.' digits)? ([eE][+-]? digits)?` as a Decimal:
      the fraction digits join the mantissa and lower the exponent. */
  function LiteralValue(b: string): Decimal
    requires IsNumberLiteral(b)
  {
    var i := if |b| > 0 && (b[0] == '+' || b[0] == '-') then 1 else 0;
    var j := DigitsEnd(b, i);
    var k := if j < |b| && b[j] == '.' then DigitsEnd(b, j + 1) else j;
    var fracLen := if k > j then k - (j + 1) else 0;
    var frac := if k > j then RunValue(b, j + 1, k) else 0;
    Decimal(i == 1 && b[0] == '-', Shift(RunValue(b, i, j), fracLen) + frac, ExponentValue(b, k) - fracLen)
  }

  /** The value of a numeric string, surrounding whitespace ignored. */
  function NumericValue(s: string): Decimal
    requires IsNumericString(s)
  {
    LiteralValue(DropNumericSpaceRight(DropNumericSpaceLeft(s)))
  }

  /** Whether two decimals denote the same number: both zero (of either
      sign), or the same sign and the same magnitude once both are brought
      to the smaller exponent. */
  predicate SameNumber(x: Decimal, y: Decimal) {
    if x.mantissa == 0 || y.mantissa == 0 then x.mantissa == y.mantissa
    else
      var e := if x.exponent <= y.exponent then x.exponent else y.exponent;
      && x.negative == y.negative
      && Shift(x.mantissa, x.exponent - e) == Shift(y.mantissa, y.exponent - e)
  }

  /** PHP 8 `$a == $b` for two strings, as `in_array` without its strict
      flag applies it: two numeric strings compare as numbers ("007" ==
      "7", "10" == "1e1"), anything else compares byte for byte. */
  predicate LooseEquals(a: string, b: string) {
    if IsNumericString(a) && IsNumericString(b) then SameNumber(NumericValue(a), NumericValue(b))
    else a == b
  }

  /** `in_array($s, $xs)` without the strict flag. */
  predicate LooseIn(s: string, xs: set<string>) {
    exists x | x in xs :: LooseEquals(s, x)
  }

  lemma SameNumberSymmetric(x: Decimal, y: Decimal)
    ensures SameNumber(x, y) <==> SameNumber(y, x)
  {
  }

  /** Every string is loosely equal to itself. */
  lemma LooseEqualsReflexive(a: string)
    ensures LooseEquals(a, a)
  {
  }

  /** Loose equality between strings is symmetric, and a string that is
      not numeric is loosely equal only to itself. */
  lemma LooseEqualsSymmetric(a: string, b: string)
    ensures LooseEquals(a, b) <==> LooseEquals(b, a)
    ensures !IsNumericString(a) ==> (LooseEquals(a, b) <==> a == b)
  {
    if IsNumericString(a) && IsNumericString(b) {
      SameNumberSymmetric(NumericValue(a), NumericValue(b));
    }
  }

  /** A non-empty run of digits is a numeric string worth its digits. */
  lemma IntegerLiteral(b: string)
    requires 0 < |b| && DigitsBetween(b, 0, |b|)
    ensures DropNumericSpaceRight(DropNumericSpaceLeft(b)) == b
    ensures IsNumericString(b) && NumericValue(b) == Decimal(false, RunValue(b, 0, |b|), 0)
  {
    NoNumericSpaceAround(b);
    DigitsToEnd(b, 0);
  }

  /** Digits, a point and digits: the fraction digits extend the mantissa
      and lower the exponent by their count. */
  lemma PointLiteral(b: string, j: nat)
    requires 0 < j < |b| - 1 && b[j] == '.'
    requires DigitsBetween(b, 0, j) && DigitsBetween(b, j + 1, |b|)
    ensures DropNumericSpaceRight(DropNumericSpaceLeft(b)) == b
    ensures IsNumericString(b)
    ensures NumericValue(b)
            == Decimal(false, Shift(RunValue(b, 0, j), |b| - j - 1) + RunValue(b, j + 1, |b|), -(|b| - j - 1))
  {
    NoNumericSpaceAround(b);
    assert b[0] != '+' && b[0] != '-';
    DigitsStopAt(b, 0, j);
    DigitsToEnd(b, j + 1);
    assert ExponentValue(b, |b|) == 0;
    assert IsNumberLiteral(b);
  }

  /** Digits, `e` and digits: mantissa times ten to the exponent. */
  lemma ExponentLiteral(b: string, j: nat)
    requires 0 < j < |b| - 1 && b[j] == 'e'
    requires DigitsBetween(b, 0, j) && DigitsBetween(b, j + 1, |b|)
    ensures DropNumericSpaceRight(DropNumericSpaceLeft(b)) == b
    ensures IsNumericString(b)
    ensures NumericValue(b) == Decimal(false, RunValue(b, 0, j), RunValue(b, j + 1, |b|))
  {
    NoNumericSpaceAround(b);
    assert b[0] != '+' && b[0] != '-' && b[j] != '.';
    DigitsStopAt(b, 0, j);
    UnsignedExponent(b, j);
    assert IsNumberLiteral(b);
  }

  /** An `e` followed by digits to the end is an exponent worth those
      digits. */
  lemma UnsignedExponent(b: string, j: nat)
    requires j < |b| - 1 && b[j] == 'e' && DigitsBetween(b, j + 1, |b|)
    ensures ExponentFrom(b, j) && ExponentValue(b, j) == RunValue(b, j + 1, |b|)
  {
    DigitsToEnd(b, j + 1);
    assert b[j + 1] != '+' && b[j + 1] != '-';
  }

  /** Two numeric strings are loosely equal exactly when their values are
      the same number. */
  lemma NumbersCompareByValue(a: string, b: string, x: Decimal, y: Decimal)
    requires IsNumericString(a) && NumericValue(a) == x
    requires IsNumericString(b) && NumericValue(b) == y
    ensures LooseEquals(a, b) <==> SameNumber(x, y)
  {
  }

  /** Whole numbers against m * 10^e with e >= 0. */
  lemma SameScaledInteger(x: nat, m: nat, e: nat)
    ensures SameNumber(Decimal(false, x, 0), Decimal(false, m, e)) <==> x == Shift(m, e)
  {
  }

  /** Two runs of digits are loosely equal exactly when they spell the
      same number. */
  lemma IntegersCompareByValue(a: string, b: string)
    requires 0 < |a| && DigitsBetween(a, 0, |a|) && 0 < |b| && DigitsBetween(b, 0, |b|)
    ensures LooseEquals(a, b) <==> RunValue(a, 0, |a|) == RunValue(b, 0, |b|)
  {
    var x, y := RunValue(a, 0, |a|), RunValue(b, 0, |b|);
    assert LooseEquals(a, b) <==> SameNumber(Decimal(false, x, 0), Decimal(false, y, 0)) by {
      IntegerLiteral(a);
      IntegerLiteral(b);
      NumbersCompareByValue(a, b, NumericValue(a), NumericValue(b));
    }
  }

  /** Digits against digits-e-digits: equal exactly when the first number
      is the mantissa times ten to the exponent. */
  lemma ExponentCompareByValue(a: string, b: string, j: nat)
    requires 0 < |a| && DigitsBetween(a, 0, |a|)
    requires 0 < j < |b| - 1 && b[j] == 'e' && DigitsBetween(b, 0, j) && DigitsBetween(b, j + 1, |b|)
    ensures LooseEquals(a, b) <==>
              RunValue(a, 0, |a|) == Shift(RunValue(b, 0, j), RunValue(b, j + 1, |b|))
  {
    var x, m, e := RunValue(a, 0, |a|), RunValue(b, 0, j), RunValue(b, j + 1, |b|);
    assert LooseEquals(a, b) <==> SameNumber(Decimal(false, x, 0), Decimal(false, m, e)) by {
      IntegerLiteral(a);
      ExponentLiteral(b, j);
      NumbersCompareByValue(a, b, NumericValue(a), NumericValue(b));
    }
    SameScaledInteger(x, m, e);
  }

  lemma ZeroZeroSevenValue(a: string)
    requires |a| == 3 && a[0] == '0' && a[1] == '0' && a[2] == '7'
    ensures DigitsBetween(a, 0, 3) && RunValue(a, 0, 3) == 7
  {
    assert DigitsBetween(a, 0, 3);
  }

  lemma OneDigitValue(b: string)
    requires |b| == 1 && IsDigit(b[0])
    ensures DigitsBetween(b, 0, 1) && RunValue(b, 0, 1) == b[0] as int - '0' as int
  {
    assert DigitsBetween(b, 0, 1);
  }

  lemma TenValue(a: string)
    requires |a| == 2 && a[0] == '1' && a[1] == '0'
    ensures DigitsBetween(a, 0, 2) && RunValue(a, 0, 2) == 10
  {
    assert DigitsBetween(a, 0, 2);
  }

  /** Leading zeros do not matter between numeric strings: "007" == "7". */
  lemma LeadingZerosAreLooselyEqual(a: string, b: string)
    requires |a| == 3 && a[0] == '0' && a[1] == '0' && a[2] == '7'
    requires |b| == 1 && b[0] == '7'
    ensures LooseEquals(a, b)
  {
    ZeroZeroSevenValue(a);
    OneDigitValue(b);
    IntegersCompareByValue(a, b);
  }

  /** Exponent notation is read as a number: "10" == "1e1". */
  lemma ExponentIsLooselyEqual(a: string, b: string)
    requires |a| == 2 && a[0] == '1' && a[1] == '0'
    requires |b| == 3 && b[0] == '1' && b[1] == 'e' && b[2] == '1'
    ensures LooseEquals(a, b)
  {
    TenValue(a);
    OneDigitValue(b[..1]);
    OneDigitValue(b[2..]);
    assert DigitsBetween(b, 0, 1) && RunValue(b, 0, 1) == 1 by { assert b[0..1] == b[..1][0..1]; }
    assert DigitsBetween(b, 2, 3) && RunValue(b, 2, 3) == 1 by { assert b[2..3] == b[2..][0..1]; }
    ExponentCompareByValue(a, b, 1);
  }

  /** A fraction part of zeros does not matter: "1.0" == "1". */
  lemma OnePointZeroIsOne(a: string, b: string)
    requires |a| == 3 && a[0] == '1' && a[1] == '.' && a[2] == '0'
    requires |b| == 1 && b[0] == '1'
    ensures LooseEquals(a, b)
  {
    var x := Decimal(false, 10, -1);
    assert IsNumericString(a) && NumericValue(a) == x by {
      OneDigitValue(a[..1]);
      OneDigitValue(a[2..]);
      assert DigitsBetween(a, 0, 1) && RunValue(a, 0, 1) == 1 by { assert a[0..1] == a[..1][0..1]; }
      assert DigitsBetween(a, 2, 3) && RunValue(a, 2, 3) == 0 by { assert a[2..3] == a[2..][0..1]; }
      PointLiteral(a, 1);
    }
    assert IsNumericString(b) && NumericValue(b) == Decimal(false, 1, 0) by {
      OneDigitValue(b);
      IntegerLiteral(b);
    }
    NumbersCompareByValue(a, b, x, Decimal(false, 1, 0));
  }

  lemma NoNumericSpaceAround(s: string)
    requires s != [] && !IsNumericSpace(s[0]) && !IsNumericSpace(s[|s| - 1])
    ensures DropNumericSpaceRight(DropNumericSpaceLeft(s)) == s
  {
    assert DropNumericSpaceLeft(s) == s;
  }

  /** A run of digits to the end of the string ends there. */
  lemma {:induction false} DigitsToEnd(b: string, i: nat)
    requires i <= |b| && forall k :: i <= k < |b| ==> IsDigit(b[k])
    ensures DigitsEnd(b, i) == |b|
    decreases |b| - i
  {
    if i < |b| {
      DigitsToEnd(b, i + 1);
    }
  }

  /** A non-empty run of digits is a numeric string. */
  lemma DigitsAreNumeric(b: string)
    requires 0 < |b| && forall k :: 0 <= k < |b| ==> IsDigit(b[k])
    ensures IsNumericString(b)
  {
    NoNumericSpaceAround(b);
    DigitsToEnd(b, 0);
  }

  /** Digits, a point and digits form a numeric string. */
  lemma DecimalIsNumeric(b: string, j: nat)
    requires 0 < j < |b| - 1 && b[j] == '.'
    requires forall k :: 0 <= k < |b| && k != j ==> IsDigit(b[k])
    ensures IsNumericString(b)
  {
    NoNumericSpaceAround(b);
    DigitsToEnd(b, j + 1);
    assert DigitsEnd(b[..j], 0) == j by { DigitsToEnd(b[..j], 0); }
    DigitsPrefix(b, j);
  }

  /** The digit run from 0 stops at the first non-digit. */
  lemma {:induction false} DigitsPrefix(b: string, j: nat)
    requires j < |b| && !IsDigit(b[j]) && forall k :: 0 <= k < j ==> IsDigit(b[k])
    ensures DigitsEnd(b, 0) == j
  {
    DigitsStopAt(b, 0, j);
  }

  lemma {:induction false} DigitsStopAt(b: string, i: nat, j: nat)
    requires i <= j < |b| && !IsDigit(b[j]) && forall k :: i <= k < j ==> IsDigit(b[k])
    ensures DigitsEnd(b, i) == j
    decreases j - i
  {
    if i < j {
      DigitsStopAt(b, i + 1, j);
    }
  }

  lemma AcmeIsNotNumeric(w: string)
    requires |w| == 4 && w[0] == 'a' && w[3] == 'e'
    ensures !IsNumericString(w)
  {
    NoNumericSpaceAround(w);
    assert DigitsEnd(w, 0) == 0;
  }

  lemma SevenAIsNotNumeric(x: string)
    requires |x| == 2 && x[0] == '7' && x[1] == 'a'
    ensures !IsNumericString(x)
  {
    NoNumericSpaceAround(x);
    DigitsStopAt(x, 0, 1);
  }

  /** A string that is not a number is compared byte for byte, so letter
      case and a trailing letter count: "acme" != "Acme", "7" != "7a". */
  lemma WordsAreComparedExactly()
    ensures !LooseEquals("acme", "Acme")
    ensures !LooseEquals("7", "7a")
  {
    AcmeIsNotNumeric("acme");
    SevenAIsNotNumeric("7a");
    LooseEqualsSymmetric("acme", "Acme");
    LooseEqualsSymmetric("7a", "7");
  }

  /** PHP `implode($sep, $parts)`. */
  function Join(parts: seq<string>, sep: string): string
  {
    if |parts| == 0 then ""
    else if |parts| == 1 then parts[0]
    else parts[0] + sep + Join(parts[1..], sep)
  }

  // ----- Lemmas about the normal form -----

  lemma {:induction false} TrimLeftOfSpaces(pre: string, s: string)
    requires AllTrimSpace(pre)
    ensures TrimLeft(pre + s) == TrimLeft(s)
  {
    if pre != [] {
      assert (pre + s)[1..] == pre[1..] + s;
      TrimLeftOfSpaces(pre[1..], s);
    } else {
      assert pre + s == s;
    }
  }

  lemma {:induction false} TrimRightOfSpaces(s: string, post: string)
    requires AllTrimSpace(post)
    ensures TrimRight(s + post) == TrimRight(s)
  {
    if post != [] {
      var p := post[..|post| - 1];
      assert (s + post)[..|s + post| - 1] == s + p;
      TrimRightOfSpaces(s, p);
    } else {
      assert s + post == s;
    }
  }

  lemma {:induction false} TrimLeftAppend(x: string, y: string)
    ensures TrimLeft(x + y) == if TrimLeft(x) == [] then TrimLeft(y) else TrimLeft(x) + y
  {
    if x == [] {
      assert x + y == y;
    } else if IsTrimSpace(x[0]) {
      assert (x + y)[1..] == x[1..] + y;
      TrimLeftAppend(x[1..], y);
    }
  }

  /** Surrounding `trim` whitespace never changes the trimmed value. */
  lemma TrimIgnoresPadding(pre: string, s: string, post: string)
    requires AllTrimSpace(pre) && AllTrimSpace(post)
    ensures Trim(pre + s + post) == Trim(s)
  {
    assert pre + s + post == pre + (s + post);
    TrimLeftOfSpaces(pre, s + post);
    TrimLeftAppend(s, post);
    if TrimLeft(s) == [] {
      TrimLeftOfSpaces(post, []);
      assert post + [] == post;
    } else {
      TrimRightOfSpaces(TrimLeft(s), post);
    }
  }

  lemma {:induction false} LowerTrimLeft(s: string)
    ensures Lower(TrimLeft(s)) == TrimLeft(Lower(s))
  {
    if |s| > 0 {
      assert Lower(s)[1..] == Lower(s[1..]);
      if IsTrimSpace(s[0]) {
        LowerTrimLeft(s[1..]);
      }
    }
  }

  lemma {:induction false} LowerTrimRight(s: string)
    ensures Lower(TrimRight(s)) == TrimRight(Lower(s))
  {
    if |s| > 0 {
      assert Lower(s)[..|s| - 1] == Lower(s[..|s| - 1]);
      if IsTrimSpace(s[|s| - 1]) {
        LowerTrimRight(s[..|s| - 1]);
      }
    }
  }

  /** Lower-casing and trimming commute, so the normal form depends only on
      the lower-cased input. */
  lemma LowerTrimCommute(s: string)
    ensures Normalize(s) == Trim(Lower(s))
  {
    LowerTrimLeft(s);
    LowerTrimRight(TrimLeft(s));
  }

  lemma LowerIdempotent(s: string)
    ensures Lower(Lower(s)) == Lower(s)
  {
  }

  /** The normal form ignores letter case and surrounding whitespace:
      " Alice@Example.ORG\n" and "alice@example.org" normalise alike. */
  lemma NormalizeIgnoresCaseAndPadding(pre: string, a: string, b: string, post: string)
    requires AllTrimSpace(pre) && AllTrimSpace(post)
    requires Lower(a) == Lower(b)
    ensures Normalize(pre + a + post) == Normalize(b)
  {
    TrimIgnoresPadding(pre, a, post);
    LowerTrimCommute(a);
    LowerTrimCommute(b);
  }

  /** "" and "0" are their own normal form. */
  lemma NormalizeKeepsBlank(s: string)
    requires IsBlank(s)
    ensures Normalize(s) == s
  {
    if s == "0" {
      assert !IsTrimSpace(s[0]);
      var l := TrimLeft(s);
      assert |l| == 1;
      var t := TrimRight(l);
      assert |t| == 1;
      assert t == s;
      assert Lower(t)[0] == s[0];
    }
  }

  /** Normalising twice is normalising once. */
  lemma NormalizeIdempotent(s: string)
    ensures Normalize(Normalize(s)) == Normalize(s)
  {
    var t := Trim(s);
    TrimIdempotent(s);
    LowerTrimCommute(Lower(t));
    LowerTrimCommute(t);
    LowerIdempotent(t);
  }

  /** A trimmed string has nothing left to trim on either side. */
  lemma TrimIdempotent(s: string)
    ensures TrimLeft(Trim(s)) == Trim(s) && TrimRight(Trim(s)) == Trim(s)
    ensures Trim(Trim(s)) == Trim(s)
  {
    var l := TrimLeft(s);
    TrimLeftShape(s);
    TrimRightShape(l);
    var t := TrimRight(l);
    if t != [] {
      assert t[0] == l[0];
    }
    assert TrimLeft(t) == t;
    assert TrimRight(t) == t;
  }
}
