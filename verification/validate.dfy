/** The field validators of `utils/validateData.ts`: total predicates over one field value.
    The form calls them before every save; the repository itself never does. */
module Validate {

  import opened Wrappers
  import opened Text

  /** A JavaScript value as the validators see it: a string, or anything that is not one. */
  datatype JsValue = JsString(str: string) | NotString

  // ---------------------------------------------------------------------------------------
  // Plate

  /** `value.replace(/[^a-zA-Z0-9]/g, '').toUpperCase()`: the plate's letters and digits,
      upper-cased, in order. */
  function CleanPlate(s: string): (r: string)
    ensures |r| <= |s|
    ensures forall i :: 0 <= i < |r| ==> IsUpper(r[i]) || IsDigit(r[i])
  {
    if s == [] then []
    else (if IsAlnum(s[0]) then [ToUpper(s[0])] else []) + CleanPlate(s[1..])
  }

  lemma {:induction false} CleanPlateAppend(a: string, b: string)
    ensures CleanPlate(a + b) == CleanPlate(a) + CleanPlate(b)
  {
    if a == [] {
      assert a + b == b;
    } else {
      assert (a + b)[1..] == a[1..] + b;
      CleanPlateAppend(a[1..], b);
    }
  }

  /** A string of letters and digits only loses nothing to cleaning; it is just upper-cased. */
  lemma {:induction false} CleanPlateOfAlnum(s: string)
    requires forall i :: 0 <= i < |s| ==> IsAlnum(s[i])
    ensures |CleanPlate(s)| == |s|
    ensures forall i :: 0 <= i < |s| ==> CleanPlate(s)[i] == ToUpper(s[i])
  {
    if s != [] {
      CleanPlateOfAlnum(s[1..]);
    }
  }

  /** `s` has the given shape, written with `L` for an upper-case letter and `D` for a digit. */
  predicate Matches(s: string, shape: string) {
    |s| == |shape| && forall i :: 0 <= i < |s| ==> if shape[i] == 'L' then IsUpper(s[i]) else IsDigit(s[i])
  }

  /** `/^[A-Z]{3}\d[A-Z]\d{2}$/`, e.g. ABC1D23. */
  const MERCOSUL: string := "LLLDLDD"
  /** `/^[A-Z]{4}\d{3}$/`, e.g. ABCD123. */
  const FOUR_LETTERS: string := "LLLLDDD"
  /** `/^[A-Z]{3}\d{2}[A-Z]{2}$/`, e.g. PMM00XX. */
  const MACHINERY: string := "LLLDDLL"

  /** The residue has one of the three accepted shapes. */
  predicate IsPlateResidue(c: string) {
    Matches(c, MERCOSUL) || Matches(c, FOUR_LETTERS) || Matches(c, MACHINERY)
  }

  /** `validatePlate`: a string whose cleaned residue has one of the three accepted shapes. */
  predicate ValidatePlate(v: JsValue): (ok: bool)
    ensures ok ==> v.JsString? && |CleanPlate(v.str)| == 7
  {
    v.JsString? && IsPlateResidue(CleanPlate(v.str))
  }

  /** Inserting a character other than a letter or digit anywhere never changes the verdict. */
  lemma PlateIgnoresSeparator(a: string, c: char, b: string)
    requires !IsAlnum(c)
    ensures ValidatePlate(JsString(a + [c] + b)) == ValidatePlate(JsString(a + b))
  {
    CleanPlateAppend(a + [c], b);
    CleanPlateAppend(a, [c]);
    CleanPlateAppend(a, b);
    assert CleanPlate([c]) == [];
    assert CleanPlate(a + [c] + b) == CleanPlate(a + b);
  }

  /** Writing one character in lower case instead of upper case never changes the verdict. */
  lemma PlateIgnoresCase(a: string, c: char, b: string)
    ensures ValidatePlate(JsString(a + [ToLower(c)] + b)) == ValidatePlate(JsString(a + [c] + b))
  {
    CleanPlateAppend(a + [ToLower(c)], b);
    CleanPlateAppend(a, [ToLower(c)]);
    CleanPlateAppend(a + [c], b);
    CleanPlateAppend(a, [c]);
    ToUpperOfToLower(c);
    assert CleanPlate([ToLower(c)]) == CleanPlate([c]);
    assert CleanPlate(a + [ToLower(c)] + b) == CleanPlate(a + [c] + b);
  }

  /** Three letters, a separator and four digits, the shape the form's placeholder advertises
      and its auto-fill produces, matches none of the accepted shapes. */
  lemma ThreeLettersFourDigitsRejected(s: string)
    requires |s| == 8 && s[3] == '-'
    requires forall i :: 0 <= i < 3 ==> IsLetter(s[i])
    requires forall i :: 4 <= i < 8 ==> IsDigit(s[i])
    ensures !ValidatePlate(JsString(s))
  {
    var letters, digits := s[..3], s[4..];
    assert s == letters + [s[3]] + digits;
    CleanPlateAppend(letters + [s[3]], digits);
    CleanPlateAppend(letters, [s[3]]);
    CleanPlateOfAlnum(letters);
    CleanPlateOfAlnum(digits);
    var r := CleanPlate(s);
    assert r == CleanPlate(letters) + CleanPlate(digits);
    assert IsDigit(r[3]) && IsDigit(r[4]) && IsDigit(r[5]);
  }

  /** Upper-case letters and digits are already clean. */
  lemma CleanPlateOfClean(s: string)
    requires forall i :: 0 <= i < |s| ==> IsUpper(s[i]) || IsDigit(s[i])
    ensures CleanPlate(s) == s
  {
    CleanPlateOfAlnum(s);
  }

  lemma MercosulExample(s: string)
    requires s == "ABC1D23"
    ensures ValidatePlate(JsString(s))
  {
    CleanPlateOfClean(s);
    assert Matches(s, MERCOSUL);
  }

  lemma FourLettersExample(s: string)
    requires s == "ABCD123"
    ensures ValidatePlate(JsString(s))
  {
    CleanPlateOfClean(s);
    assert Matches(s, FOUR_LETTERS);
  }

  lemma MachineryExample(s: string)
    requires s == "PMM00XX"
    ensures ValidatePlate(JsString(s))
  {
    CleanPlateOfClean(s);
    assert Matches(s, MACHINERY);
  }

  lemma TooFewLettersExample(s: string)
    requires s == "AB1234"
    ensures !ValidatePlate(JsString(s))
  {
    CleanPlateOfClean(s);
  }

  // ---------------------------------------------------------------------------------------
  // Odometer

  /** `value.trim().replace(/\s+/g, '').replace(',', '.')`: only the first comma becomes a dot. */
  function CleanKm(s: string): string {
    ReplaceFirst(RemoveSpaces(Trim(s)), ',', '.')
  }

  /** Without whitespace, cleaning only replaces the first comma. */
  lemma CleanKmOfCompact(s: string)
    requires forall i :: 0 <= i < |s| ==> !IsSpace(s[i])
    ensures CleanKm(s) == ReplaceFirst(s, ',', '.')
  {
    TrimOfTrimmed(s);
    assert Trim(s) == s;
    assert RemoveSpaces(s) == s;
  }

  /** `/^[0-9]+(?:\.[0-9]+)?$/`: digits, optionally followed by one dot and more digits. */
  predicate IsDecimal(c: string) {
    match IndexOf(c, '.')
    case None => |c| > 0 && AllDigits(c)
    case Some(k) => 0 < k < |c| - 1 && AllDigits(c[..k]) && AllDigits(c[k + 1..])
  }

  /** An exact decimal number, `mantissa / 10^scale`. */
  datatype Decimal = Decimal(mantissa: nat, scale: nat)

  /** The digits of a decimal string with its dot dropped. */
  function DecimalDigits(c: string): (ds: string)
    requires IsDecimal(c)
    ensures AllDigits(ds)
  {
    match IndexOf(c, '.')
    case None => c
    case Some(k) => c[..k] + c[k + 1..]
  }

  /** `Number(c)` on a decimal string, computed exactly rather than as a double. */
  function DecimalValue(c: string): Decimal
    requires IsDecimal(c)
  {
    var scale := match IndexOf(c, '.') case None => 0 case Some(k) => |c| - k - 1;
    Decimal(DigitsValue(DecimalDigits(c)), scale)
  }

  /** `n > 0` for `n = mantissa / 10^scale`; the denominator is always positive. */
  predicate IsPositive(d: Decimal) {
    d.mantissa > 0
  }

  /** `validateKm` on a string: the cleaned text is a decimal number greater than zero. */
  predicate ValidateKm(s: string): (ok: bool)
    ensures ok <==> IsDecimal(CleanKm(s)) && exists i :: 0 <= i < |CleanKm(s)| && IsDigit(CleanKm(s)[i]) && CleanKm(s)[i] != '0'
  {
    var c := CleanKm(s);
    if IsDecimal(c) then
      DigitsValuePositive(DecimalDigits(c));
      DecimalDigitsNonZero(c);
      IsPositive(DecimalValue(c))
    else false
  }

  /** Dropping the dot neither adds nor removes a non-zero digit. */
  lemma DecimalDigitsNonZero(c: string)
    requires IsDecimal(c)
    ensures (exists j :: 0 <= j < |DecimalDigits(c)| && DecimalDigits(c)[j] != '0')
        <==> (exists i :: 0 <= i < |c| && IsDigit(c[i]) && c[i] != '0')
  {
    var ds := DecimalDigits(c);
    match IndexOf(c, '.')
    case None =>
    case Some(k) =>
      assert forall j :: 0 <= j < k ==> ds[j] == c[j];
      assert forall j :: k <= j < |ds| ==> ds[j] == c[j + 1];
      if i :| 0 <= i < |c| && IsDigit(c[i]) && c[i] != '0' {
        if i < k { assert ds[i] != '0'; } else { assert ds[i - 1] != '0'; }
      }
  }

  /** Two non-empty digit runs joined by a dot form a decimal whose digits are the two runs. */
  lemma DecimalOfParts(a: string, b: string)
    requires |a| > 0 && |b| > 0 && AllDigits(a) && AllDigits(b)
    ensures IsDecimal(a + "." + b) && DecimalDigits(a + "." + b) == a + b
  {
    var s := a + "." + b;
    assert s[..|a|] == a && s[|a| + 1..] == b;
    assert '.' !in a;
    assert IndexOf(s, '.') == Some(|a|);
  }

  /** Digits, dots and commas are not whitespace. */
  lemma NumericIsCompact(s: string)
    requires forall i :: 0 <= i < |s| ==> IsDigit(s[i]) || s[i] == '.' || s[i] == ','
    ensures forall i :: 0 <= i < |s| ==> !IsSpace(s[i])
  {
  }

  /** Cleaning leaves digits and dots alone. */
  lemma CleanKmOfDigitsAndDots(c: string)
    requires forall i :: 0 <= i < |c| ==> IsDigit(c[i]) || c[i] == '.'
    ensures CleanKm(c) == c
  {
    NumericIsCompact(c);
    CleanKmOfCompact(c);
    assert ',' !in c;
  }

  /** Joining two runs without whitespace by a non-space character leaves no whitespace. */
  lemma CompactJoin(a: string, sep: char, b: string)
    requires !IsSpace(sep)
    requires forall i :: 0 <= i < |a| ==> !IsSpace(a[i])
    requires forall i :: 0 <= i < |b| ==> !IsSpace(b[i])
    ensures forall i :: 0 <= i < |a + [sep] + b| ==> !IsSpace((a + [sep] + b)[i])
  {
    var s := a + [sep] + b;
    forall i | 0 <= i < |s| ensures !IsSpace(s[i]) {
      if i < |a| { assert s[i] == a[i]; } else if i > |a| { assert s[i] == b[i - |a| - 1]; }
    }
  }

  /** The first comma is the one after a comma-free prefix. */
  lemma ReplaceFirstCommaAfter(a: string, b: string)
    requires ',' !in a
    ensures ReplaceFirst(a + [','] + b, ',', '.') == a + ['.'] + b
  {
    var s := a + [','] + b;
    assert s[..|a|] == a && s[|a| + 1..] == b;
    ReplaceFirstAt(s, ',', '.', |a|);
  }

  /** Cleaning turns the comma between two digit runs into a dot. */
  lemma CleanKmOfCommaDecimal(a: string, b: string)
    requires AllDigits(a) && AllDigits(b)
    ensures CleanKm(a + "," + b) == a + "." + b
  {
    CompactJoin(a, ',', b);
    CleanKmOfCompact(a + [','] + b);
    assert ',' !in a;
    ReplaceFirstCommaAfter(a, b);
  }

  /** A comma between two digit runs counts as a decimal point: `12,5` is judged like `12.5`,
      and both are accepted exactly when some digit is not `0`. */
  lemma KmCommaIsDecimalPoint(a: string, b: string)
    requires |a| > 0 && |b| > 0 && AllDigits(a) && AllDigits(b)
    ensures ValidateKm(a + "," + b) == ValidateKm(a + "." + b)
    ensures ValidateKm(a + "." + b) <==> exists i :: 0 <= i < |a + b| && (a + b)[i] != '0'
  {
    CleanKmOfCommaDecimal(a, b);
    var c := a + "." + b;
    assert forall i :: 0 <= i < |c| ==> IsDigit(c[i]) || c[i] == '.' by {
      forall i | 0 <= i < |c| ensures IsDigit(c[i]) || c[i] == '.' {
        if i < |a| { assert c[i] == a[i]; } else if i > |a| { assert c[i] == b[i - |a| - 1]; }
      }
    }
    CleanKmOfDigitsAndDots(c);
    DecimalOfParts(a, b);
    DigitsValuePositive(a + b);
  }

  /** A decimal holds digits and at most one dot, never a comma. */
  lemma CommaIsNotDecimal(r: string, p: nat)
    requires p < |r| && r[p] == ','
    ensures !IsDecimal(r)
  {
    match IndexOf(r, '.')
    case None =>
    case Some(k) =>
      if p < k { assert r[..k][p] == ','; } else { assert r[k + 1..][p - k - 1] == ','; }
  }

  /** Only the first comma is converted, so a second one makes the reading malformed. */
  lemma KmSecondCommaRejected(a: string, b: string, c: string)
    requires forall i :: 0 <= i < |a| ==> !IsSpace(a[i]) && a[i] != ','
    requires forall i :: 0 <= i < |b| ==> !IsSpace(b[i])
    requires forall i :: 0 <= i < |c| ==> !IsSpace(c[i])
    ensures !ValidateKm(a + "," + b + "," + c)
  {
    var tail := b + [','] + c;
    CompactJoin(b, ',', c);
    CompactJoin(a, ',', tail);
    var s := a + [','] + tail;
    assert s == a + "," + b + "," + c;
    CleanKmOfCompact(s);
    assert ',' !in a;
    ReplaceFirstCommaAfter(a, tail);
    var r := a + ['.'] + tail;
    assert r[|a| + 1 + |b|] == ',';
    CommaIsNotDecimal(r, |a| + 1 + |b|);
  }

  /** A whole number is accepted exactly when some digit is not `0`: `50000` passes, `0` and
      `00` do not. */
  lemma WholeKmAccepted(a: string)
    requires |a| > 0 && AllDigits(a)
    ensures ValidateKm(a) <==> exists i :: 0 <= i < |a| && a[i] != '0'
  {
    CleanKmOfDigitsAndDots(a);
    assert '.' !in a;
  }

  /** A dot needs digits after it: `1.` is rejected. */
  lemma TrailingPointRejected(a: string)
    requires AllDigits(a)
    ensures !ValidateKm(a + ".")
  {
    var c := a + ".";
    assert forall i :: 0 <= i < |c| ==> IsDigit(c[i]) || c[i] == '.' by {
      forall i | 0 <= i < |c| ensures IsDigit(c[i]) || c[i] == '.' {
        if i < |a| { assert c[i] == a[i]; }
      }
    }
    CleanKmOfDigitsAndDots(c);
    assert c[..|a|] == a;
    IndexOfAt(c, '.', |a|);
  }

  lemma ZeroKmExample(s: string)
    requires s == "00"
    ensures !ValidateKm(s)
  {
    CleanKmOfCompact(s);
  }

  lemma NegativeKmExample(s: string)
    requires s == "-5"
    ensures !ValidateKm(s)
  {
    CleanKmOfCompact(s);
  }

  lemma EmptyKmExample(s: string)
    requires s == ""
    ensures !ValidateKm(s)
  {
    CleanKmOfCompact(s);
  }

  // ---------------------------------------------------------------------------------------
  // Date

  /** `/^\d{4}-\d{2}-\d{2}$/`. */
  predicate IsDateShape(t: string) {
    && |t| == 10 && t[4] == '-' && t[7] == '-'
    && forall i :: 0 <= i < 10 && i != 4 && i != 7 ==> IsDigit(t[i])
  }

  /** `validateDateString` on a string: the trimmed text has the `YYYY-MM-DD` shape and the
      JavaScript engine's `Date` parser, given as `parses`, accepts it at local midnight. */
  predicate ValidateDateString(s: string, parses: string -> bool): (ok: bool)
    ensures ok ==> |Trim(s)| == 10 && parses(Trim(s) + "T00:00:00")
  {
    var t := Trim(s);
    IsDateShape(t) && parses(t + "T00:00:00")
  }

  /** The shape is necessary whatever the engine does; given the shape, the engine decides. */
  lemma DateShapeThenEngine(s: string, parses: string -> bool)
    ensures !IsDateShape(Trim(s)) ==> !ValidateDateString(s, parses)
    ensures IsDateShape(Trim(s)) ==> ValidateDateString(s, parses) == parses(Trim(s) + "T00:00:00")
  {
  }

  // ---------------------------------------------------------------------------------------
  // Time

  /** `/^([01]\d|2[0-3]):[0-5]\d$/`. */
  predicate IsTime(t: string) {
    && |t| == 5 && t[2] == ':'
    && (((t[0] == '0' || t[0] == '1') && IsDigit(t[1])) || (t[0] == '2' && '0' <= t[1] <= '3'))
    && '0' <= t[3] <= '5' && IsDigit(t[4])
  }

  /** `validateTimeString`: a string whose trimmed text is a 24-hour `HH:MM`. */
  predicate ValidateTimeString(v: JsValue): (ok: bool)
    ensures ok ==> v.JsString? && IsTime(Trim(v.str)) && HourOf(Trim(v.str)) < 24 && MinuteOf(Trim(v.str)) < 60
  {
    if v.JsString? && IsTime(Trim(v.str)) then TimeIsClock(Trim(v.str)); true else false
  }

  function TwoDigits(n: nat): (r: string)
    requires n < 100
    ensures |r| == 2 && AllDigits(r)
  {
    [DigitChar(n / 10), DigitChar(n % 10)]
  }

  /** The `HH:MM` rendering of hour `h` and minute `m`. */
  function Clock(h: nat, m: nat): string
    requires h < 100 && m < 100
  {
    TwoDigits(h) + ":" + TwoDigits(m)
  }

  function HourOf(t: string): nat
    requires IsTime(t)
  {
    DigitValue(t[0]) * 10 + DigitValue(t[1])
  }

  function MinuteOf(t: string): nat
    requires IsTime(t)
  {
    DigitValue(t[3]) * 10 + DigitValue(t[4])
  }

  /** Every hour 00-23 and minute 00-59 renders to an accepted time. */
  lemma ClockIsTime(h: nat, m: nat)
    requires h < 24 && m < 60
    ensures IsTime(Clock(h, m))
  {
    var t := Clock(h, m);
    assert t[0] == DigitChar(h / 10) && t[1] == DigitChar(h % 10);
    assert t[3] == DigitChar(m / 10);
  }

  /** Every accepted time is the rendering of an hour 00-23 and a minute 00-59. */
  lemma TimeIsClock(t: string)
    requires IsTime(t)
    ensures HourOf(t) < 24 && MinuteOf(t) < 60
    ensures t == Clock(HourOf(t), MinuteOf(t))
  {
    var h, m := HourOf(t), MinuteOf(t);
    assert h / 10 == DigitValue(t[0]) && h % 10 == DigitValue(t[1]);
    assert m / 10 == DigitValue(t[3]) && m % 10 == DigitValue(t[4]);
  }

  lemma LateMidnightExample(s: string)
    requires s == "24:00"
    ensures !ValidateTimeString(JsString(s))
  {
    TrimOfTrimmed(s);
  }

  lemma SingleDigitHourExample(s: string)
    requires s == "7:30"
    ensures !ValidateTimeString(JsString(s))
  {
    TrimOfTrimmed(s);
  }

  lemma SixtyMinutesExample(s: string)
    requires s == "12:60"
    ensures !ValidateTimeString(JsString(s))
  {
    TrimOfTrimmed(s);
  }

  // ---------------------------------------------------------------------------------------
  // Free text

  /** `validateText`: a string that is not blank and holds no digit; not blank means some
      character is not whitespace. */
  predicate ValidateText(v: JsValue): (ok: bool)
    ensures ok <==>
      && v.JsString?
      && (exists i :: 0 <= i < |v.str| && !IsSpace(v.str[i]))
      && (forall i :: 0 <= i < |v.str| ==> !IsDigit(v.str[i]))
  {
    && v.JsString?
    && Trim(v.str) != ""
    && forall i :: 0 <= i < |v.str| ==> !IsDigit(v.str[i])
  }
}
