/** The printers of src/entity.rs and the issuance window they put into outgoing assertions. */
module IssuanceWindow {
  import opened Prelude
  import opened Calendar
  import opened DateTimes

  // ----- printing

  /** Decimal digits, with leading zeros up to a width. */
  function Padded(n: nat, width: nat): string
    decreases n + width
  {
    if n < 10 && width <= 1 then [DigitChar(n)]
    else Padded(n / 10, if width > 0 then width - 1 else 0) + [DigitChar(n % 10)]
  }

  /** `{:04}`: the sign counts towards the width. */
  function PrintedYear(year: int): string {
    if year < 0 then "-" + Padded(-year, 3) else Padded(year, 4)
  }

  /** `format_saml_utc_date_time`, and `format_idp_issuance_instant` when subseconds are kept. */
  function Print(t: Moment, subseconds: bool): string {
    PrintedYear(t.year) + "-" + Padded(t.month, 2) + "-" + Padded(t.day, 2) + "T" + Padded(t.hour, 2) + ":"
        + Padded(t.minute, 2)
    + ":" + Padded(t.second, 2) + (if subseconds then "." + Padded(t.nanosecond, 9) else "") + "Z"
  }

  function Power(k: nat): nat {
    if k == 0 then 1 else 10 * Power(k - 1)
  }

  /** Padded digits denote their number, and fill the width exactly when the number fits. */
  lemma {:induction false} PaddedDenotes(n: nat, width: nat)
    ensures AllDigits(Padded(n, width)) && Value(Padded(n, width)) == n && Padded(n, width) != ""
    ensures width >= 1 && n < Power(width) ==> |Padded(n, width)| == width
    decreases n + width
  {
    if n < 10 && width <= 1 {
      assert Value([DigitChar(n)][..0]) == 0;
    } else {
      var shorter := if width > 0 then width - 1 else 0;
      PaddedDenotes(n / 10, shorter);
      assert Digit(DigitChar(n % 10)) && DigitValue(DigitChar(n % 10)) == n % 10;
      ValueSnoc(Padded(n / 10, shorter), DigitChar(n % 10));
    }
  }

  lemma PaddedTwo(n: nat)
    requires n < 100
    ensures Padded(n, 2) == Two(n)
  {
    assert Padded(n / 10, 1) == [DigitChar(n / 10)];
  }

  /** The components a printed moment spells out. */
  function PrintedAs(t: Moment, subseconds: bool): DateTime {
    DateTime(t.year < 0, if t.year < 0 then Padded(-t.year, 3) else Padded(t.year, 4),
             t.month, t.day, t.hour, t.minute, t.second,
             if subseconds then Padded(t.nanosecond, 9) else "")
  }

  lemma PrintedShape(t: Moment, subseconds: bool)
    requires t.Valid()
    ensures Shaped(PrintedAs(t, subseconds))
  {
    hide Padded, DaysIn;
    PaddedDenotes(if t.year < 0 then -t.year else t.year, if t.year < 0 then 3 else 4);
    PaddedDenotes(t.nanosecond, 9);
    DaysAreFew(t.year, t.month);
  }

  lemma PrintedParts(t: Moment, subseconds: bool)
    ensures Prefix(PrintedAs(t, subseconds)) == PrintedYear(t.year)
    ensures FractionText(PrintedAs(t, subseconds).fraction) == if subseconds then "." + Padded(t.nanosecond, 9) else ""
  {
    hide Padded;
    PaddedDenotes(t.nanosecond, 9);
    if t.year >= 0 {
      NothingBefore(Padded(t.year, 4));
    }
  }

  lemma ClockSpelledOut(d: DateTime)
    requires d.month < 100 && d.day < 100 && d.hour < 100 && d.minute < 100 && d.second < 100
    ensures Clock(d) == "-" + Padded(d.month, 2) + "-" + Padded(d.day, 2) + "T" + Padded(d.hour, 2) + ":"
        + Padded(d.minute, 2)
                      + ":" + Padded(d.second, 2)
  {
    hide Padded, Two;
    PaddedTwo(d.month);
    PaddedTwo(d.day);
    PaddedTwo(d.hour);
    PaddedTwo(d.minute);
    PaddedTwo(d.second);
  }

  lemma PrintedSpellsOut(t: Moment, subseconds: bool)
    requires t.Valid()
    ensures Shaped(PrintedAs(t, subseconds)) && Print(t, subseconds) == PrintedAs(t, subseconds).Text()
  {
    hide Padded, Two, DaysIn, Clock, Prefix, FractionText, DateTime.Text, Shaped, PrintedYear;
    PrintedShape(t, subseconds);
    var d := PrintedAs(t, subseconds);
    ShapedFields(d);
    TextIsPieces(d);
    PrintedParts(t, subseconds);
    ClockSpelledOut(d);
    Respelled(PrintedYear(t.year), Padded(t.month, 2), Padded(t.day, 2), Padded(t.hour, 2), Padded(t.minute, 2),
              Padded(t.second, 2), if subseconds then "." + Padded(t.nanosecond, 9) else "");
  }

  lemma ShapedFields(d: DateTime)
    requires Shaped(d)
    ensures d.month < 100 && d.day < 100 && d.hour < 100 && d.minute < 100 && d.second < 100
  {
  }

  lemma DaysAreFew(year: int, month: nat)
    requires 1 <= month <= 12
    ensures DaysIn(year, month) <= 31
  {
  }

  lemma Respelled(y: string, m: string, d: string, h: string, mi: string, s: string, f: string)
    ensures y + "-" + m + "-" + d + "T" + h + ":" + mi + ":" + s + f + "Z"
         == y + ("-" + m + "-" + d + "T" + h + ":" + mi + ":" + s) + f + "Z"
  {
  }

  // ----- reading back

  /** Printed text is read back as the moment it was printed from. */
  ghost predicate ReadsBack(t: Moment, subseconds: bool) {
    exists d: DateTime ::
      && d.Valid() && d.day < 100 && d.Text() == Print(t, subseconds)
      && d.YearNumber() == t.year && d.month == t.month && d.day == t.day
      && d.hour == t.hour && d.minute == t.minute && d.second == t.second
      && d.fraction == (if subseconds then Padded(t.nanosecond, 9) else "")
  }

  lemma PowersOfTen()
    ensures Power(4) == 10000 && Power(9) == 1_000_000_000
  {
    assert Power(5) == 100000;
  }

  /**
   * Over every moment the `time` crate can hold, the printed form is read back as that
   * moment exactly when the year is 1 or later: year 0 and short negative years are not in
   * the lexical form, and longer negative ones denote the year after.
   */
  lemma PrintedReadsBackIffYearIsPositive(t: Moment, subseconds: bool)
    requires t.Valid()
    ensures ReadsBack(t, subseconds) <==> 1 <= t.year
  {
    hide Padded, Print, DateTime.Text, DaysIn;
    var p := PrintedAs(t, subseconds);
    PrintedSpellsOut(t, subseconds);
    DaysAreFew(t.year, t.month);
    PaddedDenotes(if t.year < 0 then -t.year else t.year, if t.year < 0 then 3 else 4);
    PowersOfTen();
    if 1 <= t.year {
      assert |p.year| == 4;
      assert p.Valid();
    }
    if ReadsBack(t, subseconds) {
      var d: DateTime :| && d.Valid() && d.day < 100 && d.Text() == Print(t, subseconds) && d.YearNumber() == t.year;
      TextIsUnambiguous(d, p);
    }
  }

  /** Printed moments from year 1 on are accepted as generated text, unchanged. */
  lemma PrintedIsAcceptedAsGenerated(t: Moment, subseconds: bool)
    requires t.Valid() && 1 <= t.year
    ensures ParseGenerated(Print(t, subseconds)) == Some(Print(t, subseconds))
  {
    hide Print, ParseWithSeconds, Trim, DateTime.Text;
    PrintedReadsBackIffYearIsPositive(t, subseconds);
    var d: DateTime :| && d.Valid() && d.day < 100 && d.Text() == Print(t, subseconds) && d.second == t.second;
    PrintedIsTrimmed(t, subseconds);
    ValidTextParses(d, Print(t, subseconds));
  }

  lemma NothingToTrim(s: string)
    requires s != "" && !XmlSpace(s[0]) && !XmlSpace(s[|s| - 1])
    ensures Trim(s) == s
  {
  }

  lemma PrintedIsTrimmed(t: Moment, subseconds: bool)
    ensures Trim(Print(t, subseconds)) == Print(t, subseconds)
  {
    hide Trim, Padded;
    var year := PrintedYear(t.year);
    assert year != "" && (year[0] == '-' || Digit(year[0])) by {
      PaddedDenotes(if t.year < 0 then -t.year else t.year, if t.year < 0 then 3 else 4);
    }
    assert Print(t, subseconds)[0] == year[0];
    NothingToTrim(Print(t, subseconds));
  }

  lemma PaddedLength(n: nat)
    requires n <= 9999
    ensures |Padded(n, 3)| == if n < 1000 then 3 else 4
  {
    hide Padded;
    PaddedDenotes(n, 3);
    assert Power(3) == 1000;
    if n >= 1000 {
      PaddedIsDecimal(n);
    }
  }

  lemma PaddedIsDecimal(n: nat)
    requires 1000 <= n <= 9999
    ensures |Padded(n, 3)| == 4
  {
    assert |Padded(n / 10 / 10 / 10, 0)| == 1;
    assert |Padded(n / 10 / 10, 1)| == 2;
    assert |Padded(n / 10, 2)| == 3;
  }

  /**
   * Before year 1 the printers' text is accepted only from year -1000 downwards, and there it
   * denotes the following year: accepted exactly when that year has the day, and then read
   * as that year with everything else unchanged.
   */
  lemma PrintedBeforeYearOneDenotesTheNextYear(t: Moment, subseconds: bool)
    requires t.Valid() && t.year < 1
    ensures Parse(Print(t, subseconds)).Some? <==> t.year <= -1000 && t.day <= DaysIn(t.year + 1, t.month)
    ensures forall d: DateTime :: d.Valid() && d.day < 100 && d.Text() == Print(t, subseconds) ==>
              d.YearNumber() == t.year + 1 && d == PrintedAs(t, subseconds)
  {
    hide Padded, Print, DateTime.Text, DaysIn, ParseWithSeconds, Trim;
    var p := PrintedAs(t, subseconds);
    PrintedSpellsOut(t, subseconds);
    PrintedIsTrimmed(t, subseconds);
    DaysAreFew(t.year, t.month);
    PaddedDenotes(if t.year < 0 then -t.year else t.year, if t.year < 0 then 3 else 4);
    PaddedLength(-t.year);
    forall d: DateTime | d.Valid() && d.day < 100 && d.Text() == Print(t, subseconds)
      ensures d == p
    {
      TextIsUnambiguous(d, p);
    }
    if t.year <= -1000 && t.day <= DaysIn(t.year + 1, t.month) {
      assert p.Valid();
      ValidTextParses(p, Print(t, subseconds));
    }
    if ParseWithSeconds(Print(t, subseconds)).Some? {
      var d := ParsedTextIsValid(Print(t, subseconds));
    }
  }

  // ----- the issuance window

  /** The instant that text denotes, its fraction read to the nanosecond. */
  function Denoted(d: DateTime): int
    requires d.Valid() && |d.fraction| <= 9
  {
    Seconds(d.YearNumber(), d.month, d.day, d.hour, d.minute, d.second) * NANOS
        + Value(d.fraction) * Power(9 - |d.fraction|)
  }

  ghost predicate Denotes(text: string, instant: int) {
    exists d: DateTime :: d.Valid() && d.day < 100 && d.Text() == text && |d.fraction| <= 9 && Denoted(d) == instant
  }

  datatype Window = Window(issueInstant: string, expiration: string)

  /** `OffsetDateTime::checked_add`: the moment that many nanoseconds later, if the crate has one. */
  ghost function CheckedAdd(t: Moment, nanos: int): Option<Moment>
    requires t.Valid()
  {
    if later: Moment :| later.Valid() && later.Nanos() == t.Nanos() + nanos then Some(later) else None
  }

  /** `capture_idp_issuance_window`. */
  ghost function CaptureWindow(now: Moment, lifetime: int): Result<Window, SamlError>
    requires now.Valid()
  {
    var later := CheckedAdd(now, lifetime);
    if later.None? then Err(TimeWindowInvalid(IdpIssuanceExpiration))
    else
      var preserveSubseconds := lifetime % NANOS != 0;
      Ok(Window(Print(now, preserveSubseconds), Print(later.value, preserveSubseconds)))
  }

  /** What of the instant is printed. */
  function Kept(t: Moment, subseconds: bool): int
    requires t.Valid()
  {
    t.Nanos() - (if subseconds then 0 else t.nanosecond)
  }

  lemma PrintedFromYearOneDenotes(t: Moment, subseconds: bool)
    requires t.Valid() && 1 <= t.year
    ensures Denotes(Print(t, subseconds), Kept(t, subseconds))
  {
    hide Print, DateTime.Text, Padded, Seconds;
    PrintedReadsBackIffYearIsPositive(t, subseconds);
    var d: DateTime :|
      && d.Valid() && d.day < 100 && d.Text() == Print(t, subseconds)
      && d.YearNumber() == t.year && d.month == t.month && d.day == t.day
      && d.hour == t.hour && d.minute == t.minute && d.second == t.second
      && d.fraction == (if subseconds then Padded(t.nanosecond, 9) else "");
    PowersOfTen();
    PaddedDenotes(t.nanosecond, 9);
    assert Power(9 - |d.fraction|) == if subseconds then 1 else Power(9);
  }

  /** The printed text denotes the instant printed if and only if the year is 1 or later. */
  lemma PrintedDenotesIffYearIsPositive(t: Moment, subseconds: bool)
    requires t.Valid()
    ensures Denotes(Print(t, subseconds), Kept(t, subseconds)) <==> 1 <= t.year
  {
    hide Print, DateTime.Text, Padded, Seconds;
    if 1 <= t.year {
      PrintedFromYearOneDenotes(t, subseconds);
    } else if Denotes(Print(t, subseconds), Kept(t, subseconds)) {
      var d: DateTime :|
        && d.Valid() && d.day < 100 && d.Text() == Print(t, subseconds)
        && |d.fraction| <= 9 && Denoted(d) == Kept(t, subseconds);
      PrintedBeforeYearOneDenotesTheNextYear(t, subseconds);
      PowersOfTen();
      PaddedDenotes(t.nanosecond, 9);
      SameDateNextYear(t.year, t.month, t.day, t.hour, t.minute, t.second);
      assert false;
    }
  }

  lemma WholeSecondsKeepNanoseconds(a: int, b: int, m: nat, n: nat, lifetime: int)
    requires b * NANOS + n == a * NANOS + m + lifetime && m < NANOS && n < NANOS && lifetime % NANOS == 0
    ensures m == n
  {
    assert lifetime == (lifetime / NANOS) * NANOS;
  }

  /**
   * A window is captured exactly when its end is within the crate's calendar. The two
   * instants printed are then exactly the lifetime apart, whether or not subseconds are kept,
   * and each text denotes its instant exactly when the year is 1 or later.
   */
  lemma WindowSpansTheLifetime(now: Moment, lifetime: int)
    requires now.Valid()
    ensures CaptureWindow(now, lifetime).Ok? <==>
            FIRST_MOMENT.Nanos() <= now.Nanos() + lifetime <= LAST_MOMENT.Nanos()
    ensures CaptureWindow(now, lifetime).Ok? ==>
              var w, later := CaptureWindow(now, lifetime).value, CheckedAdd(now, lifetime).value;
              var subseconds := lifetime % NANOS != 0;
              && Kept(later, subseconds) - Kept(now, subseconds) == lifetime
              && (Denotes(w.issueInstant, Kept(now, subseconds)) <==> 1 <= now.year)
              && (Denotes(w.expiration, Kept(later, subseconds)) <==> 1 <= later.year)
  {
    hide Print, Seconds, Denotes;
    var subseconds := lifetime % NANOS != 0;
    AddedExactlyWithinTheCalendar(now, lifetime);
    if CaptureWindow(now, lifetime).Ok? {
      var later := CheckedAdd(now, lifetime).value;
      PrintedDenotesIffYearIsPositive(now, subseconds);
      PrintedDenotesIffYearIsPositive(later, subseconds);
      if !subseconds {
        WholeSecondsKeepNanoseconds(
          Seconds(now.year, now.month, now.day, now.hour, now.minute, now.second),
          Seconds(later.year, later.month, later.day, later.hour, later.minute, later.second),
          now.nanosecond, later.nanosecond, lifetime);
      }
    }
  }

  /** Checked addition gives the one moment with the sum's count, and nothing exactly beyond the calendar. */
  lemma AddedExactlyWithinTheCalendar(t: Moment, nanos: int)
    requires t.Valid()
    ensures CheckedAdd(t, nanos).Some? <==> FIRST_MOMENT.Nanos() <= t.Nanos() + nanos <= LAST_MOMENT.Nanos()
    ensures forall later: Moment :: later.Valid() ==>
              (CheckedAdd(t, nanos) == Some(later) <==> later.Nanos() == t.Nanos() + nanos)
  {
    hide Seconds;
    forall later: Moment | later.Valid() && later.Nanos() == t.Nanos() + nanos
      ensures CheckedAdd(t, nanos) == Some(later)
    {
      MomentsAreDistinct(CheckedAdd(t, nanos).value, later);
    }
    if CheckedAdd(t, nanos).Some? {
      MomentIsWithinTheCalendar(CheckedAdd(t, nanos).value);
    }
    if FIRST_MOMENT.Nanos() <= t.Nanos() + nanos <= LAST_MOMENT.Nanos() {
      var later := MomentAt(t.Nanos() + nanos);
    }
  }
}
