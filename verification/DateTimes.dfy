/**
 * The SAML UTC subset of xs:dateTime (src/xml/date_time.rs). Years have any number of
 * digits; they are folded in 16-bit arithmetic.
 */
module DateTimes {
  import opened Prelude

  newtype u16 = x: int | 0 <= x < 65536

  // ----- decimal numbers

  predicate Digit(c: char) {
    '0' <= c <= '9'
  }

  predicate AllDigits(s: string) {
    forall i :: 0 <= i < |s| ==> Digit(s[i])
  }

  function DigitValue(c: char): (n: nat)
    requires Digit(c)
    ensures n <= 9
  {
    c as int - '0' as int
  }

  /** The number a digit string denotes: its last digit, and ten times the rest. */
  function Value(s: string): nat
    requires AllDigits(s)
  {
    if s == "" then 0 else 10 * Value(s[..|s| - 1]) + DigitValue(s[|s| - 1])
  }

  // ----- leap years of any length

  /** `year_modulo`: one fold over the digits, reducing at every step, in 16-bit arithmetic. */
  function YearModuloFrom(year: string, remainder: u16, modulus: u16): Option<u16>
    requires 0 < modulus <= 400 && remainder < modulus
    decreases |year|
  {
    if year == "" then Some(remainder)
    else if !Digit(year[0]) then None
    else YearModuloFrom(year[1..], (remainder * 10 + (DigitValue(year[0]) as u16)) % modulus, modulus)
  }

  function YearModulo(year: string, modulus: u16): Option<u16>
    requires 0 < modulus <= 400
  {
    YearModuloFrom(year, 0, modulus)
  }

  /** `signed_year_modulo`: there is no year zero, so the year -N is the astronomical year 1 - N. */
  function SignedYearModulo(year: string, negative: bool, modulus: u16): Option<u16>
    requires 0 < modulus <= 400
  {
    FoldedYearsAreReduced(year, 0, modulus);
    match YearModulo(year, modulus)
    case None => None
    case Some(magnitude) => Some(if negative then (modulus + 1 - magnitude) % modulus else magnitude)
  }

  lemma {:induction false} FoldedYearsAreReduced(year: string, remainder: u16, modulus: u16)
    requires 0 < modulus <= 400 && remainder < modulus
    ensures var folded := YearModuloFrom(year, remainder, modulus); folded.Some? ==> folded.value < modulus
    decreases |year|
  {
    if year != "" && Digit(year[0]) {
      FoldedYearsAreReduced(year[1..], (remainder * 10 + (DigitValue(year[0]) as u16)) % modulus, modulus);
    }
  }

  predicate IsLeapYear(year: string, negative: bool) {
    || SignedYearModulo(year, negative, 400) == Some(0)
    || (SignedYearModulo(year, negative, 4) == Some(0) && SignedYearModulo(year, negative, 100) != Some(0))
  }

  /** The Gregorian rule, on astronomical years of either sign. */
  predicate Gregorian(year: int) {
    year % 400 == 0 || (year % 4 == 0 && year % 100 != 0)
  }

  function Astronomical(magnitude: nat, negative: bool): int {
    if negative then 1 - magnitude else magnitude
  }

  lemma {:induction false} ValueSnoc(s: string, c: char)
    requires AllDigits(s) && Digit(c)
    ensures AllDigits(s + [c]) && Value(s + [c]) == 10 * Value(s) + DigitValue(c)
  {
    assert (s + [c])[..|s|] == s;
  }

  lemma FoldStep(value: nat, digit: nat, modulus: nat)
    requires 0 < modulus
    ensures (value % modulus * 10 + digit) % modulus == (10 * value + digit) % modulus
  {
    var q := value / modulus;
    assert value == q * modulus + value % modulus;
    assert 10 * value + digit == (value % modulus * 10 + digit) + (10 * q) * modulus;
    AddMultiple(value % modulus * 10 + digit, 10 * q, modulus);
  }

  lemma AddMultiple(a: nat, k: nat, m: nat)
    requires 0 < m
    ensures (a + k * m) % m == a % m
  {
    var r, q := a % m, a / m;
    assert a + k * m == (q + k) * m + r;
    Remainder(a + k * m, q + k, r, m);
  }

  lemma Remainder(a: int, q: int, r: nat, m: nat)
    requires r < m && a == q * m + r
    ensures a % m == r
  {
    var d := a / m - q;
    assert a == (a / m) * m + a % m;
    assert d * m == r - a % m;
    assert -(m as int) < d * m < m;
  }

  lemma {:induction false} FoldIsModulo(done: string, rest: string, modulus: u16)
    requires AllDigits(done) && AllDigits(rest) && 0 < modulus <= 400
    ensures AllDigits(done + rest)
    ensures Value(done) % (modulus as int) < 65536
    ensures YearModuloFrom(rest, (Value(done) % (modulus as int)) as u16, modulus)
         == Some((Value(done + rest) % (modulus as int)) as u16)
    decreases |rest|
  {
    if rest == "" {
      assert done + rest == done;
    } else {
      var c := rest[0];
      ValueSnoc(done, c);
      FoldStep(Value(done), DigitValue(c), modulus as int);
      FoldIsModulo(done + [c], rest[1..], modulus);
      assert done + [c] + rest[1..] == done + rest;
    }
  }

  /** On digits of any length the fold is the value modulo the modulus; on anything else there is none. */
  lemma YearModuloIsModulo(year: string, modulus: u16)
    requires 0 < modulus <= 400
    ensures YearModulo(year, modulus).Some? <==> AllDigits(year)
    ensures AllDigits(year) ==> YearModulo(year, modulus) == Some((Value(year) % (modulus as int)) as u16)
  {
    hide Value, YearModuloFrom;
    if AllDigits(year) {
      NothingDenotesZero(modulus);
      FoldIsModulo("", year, modulus);
      NothingBefore(year);
    } else {
      NonDigitsDoNotFold(year, 0, modulus);
    }
  }

  lemma NothingDenotesZero(modulus: u16)
    requires 0 < modulus
    ensures AllDigits("") && Value("") == 0 && 0 % (modulus as int) == 0
  {
  }

  lemma {:induction false} NonDigitsDoNotFold(year: string, remainder: u16, modulus: u16)
    requires 0 < modulus <= 400 && remainder < modulus && !AllDigits(year)
    ensures YearModuloFrom(year, remainder, modulus).None?
    decreases |year|
  {
    if Digit(year[0]) {
      NonDigitsDoNotFold(year[1..], (remainder * 10 + (DigitValue(year[0]) as u16)) % modulus, modulus);
    }
  }

  lemma NegatedRemainder(value: nat, modulus: nat)
    requires 0 < modulus
    ensures (1 - value) % modulus == (modulus + 1 - value % modulus) % modulus
  {
    var q := value / modulus;
    assert value == q * modulus + value % modulus;
    var a := modulus + 1 - value % modulus;
    Remainder(1 - value, a / modulus - q - 1, a % modulus, modulus);
  }

  lemma SignedIsModulo(year: string, negative: bool, modulus: u16)
    requires 0 < modulus <= 400 && AllDigits(year)
    ensures SignedYearModulo(year, negative, modulus)
         == Some((Astronomical(Value(year), negative) % (modulus as int)) as u16)
  {
    YearModuloIsModulo(year, modulus);
    NegatedRemainder(Value(year), modulus as int);
  }

  /** The 16-bit folds decide the Gregorian rule for years of any length and either sign. */
  lemma LeapYearIsGregorian(year: string, negative: bool)
    ensures AllDigits(year) ==> (IsLeapYear(year, negative) <==> Gregorian(Astronomical(Value(year), negative)))
    ensures !AllDigits(year) ==> !IsLeapYear(year, negative)
  {
    YearModuloIsModulo(year, 400);
    YearModuloIsModulo(year, 4);
    YearModuloIsModulo(year, 100);
    if AllDigits(year) {
      SignedIsModulo(year, negative, 400);
      SignedIsModulo(year, negative, 4);
      SignedIsModulo(year, negative, 100);
    }
  }

  // ----- the parser

  function TrimLeft(s: string): string {
    if s != "" && XmlSpace(s[0]) then TrimLeft(s[1..]) else s
  }

  function TrimRight(s: string): string {
    if s != "" && XmlSpace(s[|s| - 1]) then TrimRight(s[..|s| - 1]) else s
  }

  function Trim(s: string): string {
    TrimRight(TrimLeft(s))
  }

  function At(s: string, i: nat): Option<char> {
    if i < |s| then Some(s[i]) else None
  }

  /** `parse_two_ascii_digits`. */
  function TwoDigits(s: string, i: nat): Option<nat> {
    if i + 1 < |s| && Digit(s[i]) && Digit(s[i + 1]) then Some(DigitValue(s[i]) * 10 + DigitValue(s[i + 1])) else None
  }

  function MaxDay(year: string, negative: bool, month: nat): Option<nat> {
    if month in {1, 3, 5, 7, 8, 10, 12} then Some(31)
    else if month in {4, 6, 9, 11} then Some(30)
    else if month == 2 then Some(if IsLeapYear(year, negative) then 29 else 28)
    else None
  }

  predicate ValidCalendarDay(year: string, negative: bool, month: nat, day: nat) {
    var last := MaxDay(year, negative, month);
    last.Some? && 1 <= day <= last.value
  }

  /** Index of the first `-` at or after `i`. */
  function FindDash(s: string, i: nat): (r: Option<nat>)
    requires i <= |s|
    ensures r.Some? ==> i <= r.value < |s| && s[r.value] == '-' && forall k :: i <= k < r.value ==> s[k] != '-'
    ensures r.None? ==> forall k :: i <= k < |s| ==> s[k] != '-'
    decreases |s| - i
  {
    if i == |s| then None else if s[i] == '-' then Some(i) else FindDash(s, i + 1)
  }

  predicate AllZeros(s: string) {
    forall i :: 0 <= i < |s| ==> s[i] == '0'
  }

  predicate YearAccepted(year: string) {
    && |year| >= 4 && !(|year| > 4 && year[0] == '0') && !AllZeros(year)
    && YearModulo(year, 400).Some?
  }

  predicate Punctuated(bytes: string, separator: nat) {
    && |bytes| >= separator + 15
    && At(bytes, separator) == Some('-') && At(bytes, separator + 3) == Some('-')
    && At(bytes, separator + 6) == Some('T')
    && At(bytes, separator + 9) == Some(':') && At(bytes, separator + 12) == Some(':')
  }

  predicate FractionAccepted(fraction: string) {
    fraction == "" || (fraction[0] == '.' && |fraction| > 1 && AllDigits(fraction[1..]))
  }

  /** `parse_saml_utc_date_time_with_seconds`: the trimmed text and its second. */
  function ParseWithSeconds(text: string): Option<(string, nat)> {
    var value := Trim(text);
    if value == "" || value[|value| - 1] != 'Z' then None
    else
      var bytes := value[..|value| - 1];
      var negative := At(bytes, 0) == Some('-');
      var yearStart := if negative then 1 else 0;
      match FindDash(bytes, yearStart)
      case None => None
      case Some(separator) =>
        var year := bytes[yearStart..separator];
        if !YearAccepted(year) || !Punctuated(bytes, separator) then None
        else
          match (TwoDigits(bytes, separator + 1), TwoDigits(bytes, separator + 4), TwoDigits(bytes, separator + 7),
                 TwoDigits(bytes, separator + 10), TwoDigits(bytes, separator + 13))
          case (Some(month), Some(day), Some(hour), Some(minute), Some(second)) =>
            var fraction := bytes[separator + 15..];
            if !ValidCalendarDay(year, negative, month, day) || minute > 59 || second > 60
               || !FractionAccepted(fraction) then None
            else if hour < 24 || (hour == 24 && minute == 0 && second == 0
                                    && (fraction == "" || AllZeros(fraction[1..]))) then
              Some((value, second))
            else None
          case _ => None
  }

  /** `parse_saml_utc_date_time`. */
  function Parse(text: string): Option<string> {
    match ParseWithSeconds(text) case None => None case Some((value, _)) => Some(value)
  }

  /** `parse_generated_saml_utc_date_time`: what a producer may write, without leap seconds. */
  function ParseGenerated(text: string): Option<string> {
    match ParseWithSeconds(text)
    case None => None
    case Some((value, second)) => if second < 60 then Some(value) else None
  }

  // ----- the lexical set

  /** A date and time of the SAML UTC lexical form, as its components. */
  datatype DateTime = DateTime(
    negative: bool, year: string, month: nat, day: nat, hour: nat, minute: nat, second: nat, fraction: string)
  {
    function YearNumber(): int
      requires AllDigits(year)
    {
      Astronomical(Value(year), negative)
    }

    /** Section 3.2.7 of XML Schema Part 2: no year zero, four digits at least, no padding beyond. */
    predicate Valid() {
      && |year| >= 4 && AllDigits(year) && (|year| > 4 ==> year[0] != '0') && Value(year) != 0
      && 1 <= month <= 12 && 1 <= day <= DaysIn(YearNumber(), month)
      && minute <= 59 && second <= 60 && AllDigits(fraction)
      && (hour < 24 || (hour == 24 && minute == 0 && second == 0 && AllZeros(fraction)))
    }

    function Text(): string
      requires month < 100 && day < 100 && hour < 100 && minute < 100 && second < 100
    {
      (if negative then "-" else "") + year + Clock(this) + (if fraction == "" then "" else "." + fraction) + "Z"
    }
  }

  function DaysIn(year: int, month: nat): nat
    requires 1 <= month <= 12
  {
    if month == 2 then (if Gregorian(year) then 29 else 28)
    else if month in {4, 6, 9, 11} then 30 else 31
  }

  function DigitChar(n: nat): char
    requires n < 10
  {
    (n + '0' as int) as char
  }

  function Two(n: nat): string
    requires n < 100
  {
    [DigitChar(n / 10), DigitChar(n % 10)]
  }

  /** Month to second, with their punctuation. */
  function Clock(d: DateTime): string
    requires d.month < 100 && d.day < 100 && d.hour < 100 && d.minute < 100 && d.second < 100
  {
    "-" + Two(d.month) + "-" + Two(d.day) + "T" + Two(d.hour) + ":" + Two(d.minute) + ":" + Two(d.second)
  }

  /** The text, its surrounding white space aside, is a date and time of the lexical form. */
  ghost predicate InLexicalSet(text: string) {
    exists d: DateTime :: d.Valid() && d.day < 100 && d.Text() == Trim(text)
  }

  // ----- the parser accepts exactly the lexical set

  lemma TwoDigitsAreTwo(s: string, i: nat, n: nat)
    requires i + 1 < |s| && n < 100
    ensures TwoDigits(s, i) == Some(n) <==> s[i] == Two(n)[0] && s[i + 1] == Two(n)[1]
  {
    assert Digit(Two(n)[0]) && DigitValue(Two(n)[0]) == n / 10;
    assert Digit(Two(n)[1]) && DigitValue(Two(n)[1]) == n % 10;
    if TwoDigits(s, i) == Some(n) {
      assert n / 10 == DigitValue(s[i]) && n % 10 == DigitValue(s[i + 1]);
      assert s[i] == DigitChar(DigitValue(s[i])) && s[i + 1] == DigitChar(DigitValue(s[i + 1]));
    }
  }

  lemma ClockAt(d: DateTime, m: string, dd: string, h: string, mi: string, s: string)
    requires d.month < 100 && d.day < 100 && d.hour < 100 && d.minute < 100 && d.second < 100
    requires m == Two(d.month) && dd == Two(d.day) && h == Two(d.hour) && mi == Two(d.minute) && s == Two(d.second)
    ensures Clock(d) == ['-', m[0], m[1], '-', dd[0], dd[1], 'T', h[0], h[1], ':', mi[0], mi[1], ':', s[0], s[1]]
  {
  }

  /** The parser's fields at a separator, all read. */
  predicate ClockRead(bytes: string, separator: nat, d: DateTime) {
    && Punctuated(bytes, separator)
    && TwoDigits(bytes, separator + 1) == Some(d.month) && TwoDigits(bytes, separator + 4) == Some(d.day)
    && TwoDigits(bytes, separator + 7) == Some(d.hour) && TwoDigits(bytes, separator + 10) == Some(d.minute)
    && TwoDigits(bytes, separator + 13) == Some(d.second)
  }

  lemma ClockReadIff(bytes: string, separator: nat, d: DateTime)
    requires d.month < 100 && d.day < 100 && d.hour < 100 && d.minute < 100 && d.second < 100
    requires separator + 15 <= |bytes|
    ensures ClockRead(bytes, separator, d) <==> bytes[separator..separator + 15] == Clock(d)
  {
    hide TwoDigits, Clock;
    var cut := bytes[separator..separator + 15];
    ClockAt(d, Two(d.month), Two(d.day), Two(d.hour), Two(d.minute), Two(d.second));
    TwoDigitsAreTwo(bytes, separator + 1, d.month);
    TwoDigitsAreTwo(bytes, separator + 4, d.day);
    TwoDigitsAreTwo(bytes, separator + 7, d.hour);
    TwoDigitsAreTwo(bytes, separator + 10, d.minute);
    TwoDigitsAreTwo(bytes, separator + 13, d.second);
    assert forall i :: 0 <= i < 15 ==> cut[i] == bytes[separator + i];
    if ClockRead(bytes, separator, d) {
      SameFifteen(cut, Clock(d));
    }
  }

  lemma SameFifteen(a: string, b: string)
    requires |a| == 15 && |b| == 15
    requires a[0] == b[0] && a[1] == b[1] && a[2] == b[2] && a[3] == b[3] && a[4] == b[4] && a[5] == b[5]
    requires a[6] == b[6]
    requires a[7] == b[7] && a[8] == b[8] && a[9] == b[9] && a[10] == b[10] && a[11] == b[11] && a[12] == b[12]
    requires a[13] == b[13] && a[14] == b[14]
    ensures a == b
  {
  }

  lemma {:induction false} ZerosIffValueZero(s: string)
    requires AllDigits(s)
    ensures AllZeros(s) <==> Value(s) == 0
  {
    if s != "" {
      ZerosIffValueZero(s[..|s| - 1]);
      assert forall i :: 0 <= i < |s| - 1 ==> s[i] == s[..|s| - 1][i];
    }
  }

  lemma YearAcceptedIff(year: string)
    ensures YearAccepted(year) <==>
            |year| >= 4 && AllDigits(year) && (|year| > 4 ==> year[0] != '0') && Value(year) != 0
  {
    YearModuloIsModulo(year, 400);
    if AllDigits(year) {
      ZerosIffValueZero(year);
    }
  }

  lemma CalendarDayIff(year: string, negative: bool, month: nat, day: nat)
    requires AllDigits(year)
    ensures ValidCalendarDay(year, negative, month, day) <==>
            1 <= month <= 12 && 1 <= day <= DaysIn(Astronomical(Value(year), negative), month)
  {
    hide IsLeapYear, Gregorian;
    LeapYearIsGregorian(year, negative);
    if 1 <= month <= 12 {
      assert month in {1, 3, 5, 7, 8, 10, 12} || month in {4, 6, 9, 11} || month == 2;
    }
  }

  function FractionText(fraction: string): string {
    if fraction == "" then "" else "." + fraction
  }

  function Prefix(d: DateTime): string {
    (if d.negative then "-" else "") + d.year
  }

  /** The shape of the lexical form, whatever the numbers in it. */
  predicate Shaped(d: DateTime) {
    && AllDigits(d.year) && d.year != "" && AllDigits(d.fraction)
    && d.month < 100 && d.day < 100 && d.hour < 100 && d.minute < 100 && d.second < 100
  }

  /** Where the pieces of a text stand. */
  lemma TextPieces(d: DateTime, bytes: string)
    requires Shaped(d) && bytes == Prefix(d) + Clock(d) + FractionText(d.fraction)
    ensures var start, separator := if d.negative then 1 else 0, |Prefix(d)|;
            && separator + 15 <= |bytes| && start <= separator
            && bytes[start..separator] == d.year && bytes[separator..separator + 15] == Clock(d)
            && bytes[separator + 15..] == FractionText(d.fraction)
            && (At(bytes, 0) == Some('-') <==> d.negative) && bytes[separator] == '-'
  {
    ClockAt(d, Two(d.month), Two(d.day), Two(d.hour), Two(d.minute), Two(d.second));
  }

  lemma DashFollowsYear(d: DateTime, bytes: string, start: nat, separator: nat)
    requires AllDigits(d.year) && start <= separator < |bytes| && bytes[start..separator] == d.year
    requires bytes[separator] == '-'
    ensures FindDash(bytes, start) == Some(separator)
  {
    forall k | start <= k < separator
      ensures bytes[k] != '-'
    {
      assert bytes[k] == d.year[k - start];
    }
  }

  /** The dash after the year, and the components around it, are those of the text. */
  lemma TextComponents(d: DateTime, bytes: string)
    requires Shaped(d) && bytes == Prefix(d) + Clock(d) + FractionText(d.fraction)
    ensures FindDash(bytes, if At(bytes, 0) == Some('-') then 1 else 0) == Some(|Prefix(d)|)
    ensures |Prefix(d)| + 15 <= |bytes| && ClockReads(bytes, |Prefix(d)|)
    ensures At(bytes, 0) == Some('-') ==> 1 <= |Prefix(d)|
    ensures Components(bytes, |Prefix(d)|) == d
  {
    hide Clock, TwoDigits, FindDash, Prefix;
    TextPieces(d, bytes);
    DashFollowsYear(d, bytes, if d.negative then 1 else 0, |Prefix(d)|);
    ClockReadIff(bytes, |Prefix(d)|, d);
    assert d.fraction != "" ==> FractionText(d.fraction)[1..] == d.fraction;
  }

  /** No two date-times share a text. */
  lemma TextIsUnambiguous(a: DateTime, b: DateTime)
    requires Shaped(a) && Shaped(b) && a.Text() == b.Text()
    ensures a == b
  {
    hide Clock, FindDash, Prefix, Components;
    var bytes := Prefix(a) + Clock(a) + FractionText(a.fraction);
    var other := Prefix(b) + Clock(b) + FractionText(b.fraction);
    TextIsPieces(a);
    TextIsPieces(b);
    assert bytes == (bytes + "Z")[..|bytes|] && other == (other + "Z")[..|other|];
    TextComponents(a, bytes);
    TextComponents(b, bytes);
  }

  lemma TextIsPieces(d: DateTime)
    requires Shaped(d)
    ensures d.Text() == Prefix(d) + Clock(d) + FractionText(d.fraction) + "Z"
  {
    hide Clock;
  }

  lemma ValidTextParses(d: DateTime, text: string)
    requires d.Valid() && d.day < 100 && d.Text() == Trim(text)
    ensures ParseWithSeconds(text) == Some((d.Text(), d.second))
  {
    hide YearAccepted, ValidCalendarDay, Punctuated, TwoDigits, Clock, Trim, FindDash, DaysIn, IsLeapYear, AllZeros,
         AllDigits;
    var bytes := Prefix(d) + Clock(d) + FractionText(d.fraction);
    assert Trim(text) == bytes + "Z";
    assert Trim(text)[..|Trim(text)| - 1] == bytes;
    TextPieces(d, bytes);
    var start, separator := if d.negative then 1 else 0, |Prefix(d)|;
    DashFollowsYear(d, bytes, start, separator);
    ClockReadIff(bytes, separator, d);
    YearAcceptedIff(d.year);
    CalendarDayIff(d.year, d.negative, d.month, d.day);
    assert FractionText(d.fraction) != "" ==> FractionText(d.fraction)[1..] == d.fraction;
  }

  lemma FourPieces(s: string, i: nat, j: nat, k: nat)
    requires i <= j <= k <= |s|
    ensures s == s[..i] + s[i..j] + s[j..k] + s[k..]
  {
  }

  /** The components the parser finds in accepted text. */
  function Components(bytes: string, separator: nat): DateTime
    requires separator + 15 <= |bytes| && ClockReads(bytes, separator)
    requires At(bytes, 0) == Some('-') ==> 1 <= separator
  {
    var negative := At(bytes, 0) == Some('-');
    var fraction := bytes[separator + 15..];
    DateTime(negative, bytes[if negative then 1 else 0..separator], TwoDigits(bytes, separator + 1).value,
             TwoDigits(bytes, separator + 4).value, TwoDigits(bytes, separator + 7).value,
             TwoDigits(bytes, separator + 10).value, TwoDigits(bytes, separator + 13).value,
             if fraction == "" then "" else fraction[1..])
  }

  predicate ClockReads(bytes: string, separator: nat) {
    && TwoDigits(bytes, separator + 1).Some? && TwoDigits(bytes, separator + 4).Some?
    && TwoDigits(bytes, separator + 7).Some?
    && TwoDigits(bytes, separator + 10).Some? && TwoDigits(bytes, separator + 13).Some?
  }

  lemma FieldsAreSmall(bytes: string, separator: nat)
    requires separator + 15 <= |bytes| && ClockReads(bytes, separator) && (At(bytes, 0) == Some('-') ==> 1 <= separator)
    ensures var d := Components(bytes, separator);
            d.month < 100 && d.day < 100 && d.hour < 100 && d.minute < 100 && d.second < 100
  {
  }

  lemma Reassembled(bytes: string, separator: nat)
    requires separator + 15 <= |bytes| && ClockReads(bytes, separator) && (At(bytes, 0) == Some('-') ==> 1 <= separator)
    requires Punctuated(bytes, separator) && FractionAccepted(bytes[separator + 15..])
    ensures var d := Components(bytes, separator);
            && d.month < 100 && d.day < 100 && d.hour < 100 && d.minute < 100 && d.second < 100
            && bytes == Prefix(d) + Clock(d) + FractionText(d.fraction)
  {
    hide Clock, TwoDigits, Punctuated;
    var d := Components(bytes, separator);
    var start := if d.negative then 1 else 0;
    FieldsAreSmall(bytes, separator);
    ClockReadIff(bytes, separator, d);
    FourPieces(bytes, start, separator, separator + 15);
    assert bytes[separator + 15..] == FractionText(d.fraction);
    assert bytes[..start] == if d.negative then "-" else "";
  }

  lemma ParsedTextIsValid(text: string) returns (d: DateTime)
    requires ParseWithSeconds(text).Some?
    ensures d.Valid() && d.day < 100 && d.Text() == Trim(text)
    ensures ParseWithSeconds(text) == Some((Trim(text), d.second))
  {
    hide YearAccepted, ValidCalendarDay, Clock, Trim, DaysIn, IsLeapYear, Punctuated, TwoDigits, FindDash;
    var value := Trim(text);
    var bytes := value[..|value| - 1];
    var start := if At(bytes, 0) == Some('-') then 1 else 0;
    var separator := FindDash(bytes, start).value;
    PunctuatedIsLong(bytes, separator);
    d := Components(bytes, separator);
    YearAcceptedIff(d.year);
    CalendarDayIff(d.year, d.negative, d.month, d.day);
    Reassembled(bytes, separator);
    assert value == bytes + "Z";
  }

  lemma PunctuatedIsLong(bytes: string, separator: nat)
    requires Punctuated(bytes, separator)
    ensures separator + 15 <= |bytes|
  {
  }

  /**
   * The parser accepts exactly the SAML UTC lexical form, and returns the trimmed text with
   * its second.
   */
  lemma ParserAcceptsTheLexicalSet(text: string)
    ensures ParseWithSeconds(text).Some? <==> InLexicalSet(text)
    ensures ParseWithSeconds(text).Some? ==> ParseWithSeconds(text).value.0 == Trim(text)
  {
    if ParseWithSeconds(text).Some? {
      var d := ParsedTextIsValid(text);
    }
    if InLexicalSet(text) {
      var d: DateTime :| d.Valid() && d.day < 100 && d.Text() == Trim(text);
      ValidTextParses(d, text);
    }
  }

  // ----- trimming

  lemma {:induction false} TrimLeftIsClean(s: string)
    ensures TrimLeft(s) != "" ==> !XmlSpace(TrimLeft(s)[0])
  {
    if s != "" && XmlSpace(s[0]) {
      TrimLeftIsClean(s[1..]);
    }
  }

  lemma {:induction false} TrimRightIsClean(s: string)
    ensures TrimRight(s) != "" ==> !XmlSpace(TrimRight(s)[|TrimRight(s)| - 1]) && TrimRight(s)[0] == s[0]
  {
    if s != "" && XmlSpace(s[|s| - 1]) {
      TrimRightIsClean(s[..|s| - 1]);
    }
  }

  lemma TrimTwice(s: string)
    ensures Trim(Trim(s)) == Trim(s)
  {
    TrimLeftIsClean(s);
    TrimRightIsClean(TrimLeft(s));
  }

  /** What the parsers return they accept again, unchanged. */
  lemma ParsingIsIdempotent(text: string)
    ensures Parse(text).Some? ==> Parse(Parse(text).value) == Parse(text)
    ensures ParseGenerated(text).Some? ==> ParseGenerated(ParseGenerated(text).value) == ParseGenerated(text)
  {
    hide ParseWithSeconds;
    if ParseWithSeconds(text).Some? {
      var d := ParsedTextIsValid(text);
      TrimTwice(text);
      ValidTextParses(d, Trim(text));
    }
  }
}
