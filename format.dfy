/**
 * The three report formatters (app.py:211-227), applied to the resolved trip start of each
 * row: `extract_date_str` for 'Fecha', `extract_hour_str` for 'Hora' and
 * `format_full_datetime` for 'Tm_start_local_at'.
 */
module Format {
  import opened Cells
  import opened Resolve

  /** The text `get_final_tm` returns when the date has to be entered by hand. */
  const ManualEntry: string := "Ingresar Manualmente"

  /** The value `get_final_tm` leaves in 'Calculated_Start': a timestamp, the manual-entry text or NaT. */
  function ResolvedCell(v: Resolved): (c: Cell)
    ensures v.Concrete? <==> c.Time?
    ensures v == Absent <==> c.Null?
    ensures v == Manual <==> c == Text(ManualEntry)
  {
    match v
    case Concrete(t) => Time(t)
    case Manual => Text(ManualEntry)
    case Absent => Null
  }

  /** `strftime('%d/%m/%Y')`. */
  function DateText(t: Timestamp): string
  {
    Digits(t.day, 2) + "/" + Digits(t.month, 2) + "/" + Digits(t.year, 4)
  }

  /** `strftime('%H:%M:%S')`. */
  function ClockText(t: Timestamp): string
  {
    Digits(t.hour, 2) + ":" + Digits(t.minute, 2) + ":" + Digits(t.second, 2)
  }

  /** `extract_date_str`: the manual-entry text as it is, NaT as "", a timestamp as DD/MM/YYYY. */
  function ExtractDateStr(v: Resolved): (s: string)
    ensures v == Manual ==> s == ManualEntry
    ensures v == Absent ==> s == ""
    ensures v.Concrete? ==> |s| == 10 && s[2] == '/' && s[5] == '/'
  {
    match v
    case Manual => ManualEntry
    case Absent => ""
    case Concrete(t) => DateText(t)
  }

  /** `extract_hour_str`: the hour of a timestamp as an integer, and "" for the text and for NaT. */
  function ExtractHourStr(v: Resolved): (c: Cell)
    ensures v.Concrete? ==> c.Int? && c.i == v.t.hour && 0 <= c.i <= 23
    ensures !v.Concrete? ==> c == Text("")
  {
    match v
    case Concrete(t) => Int(t.hour)
    case _ => Text("")
  }

  /** `format_full_datetime`: the manual-entry text as it is, NaT as "", a timestamp as DD/MM/YYYY HH:MM:SS. */
  function FormatFullDatetime(v: Resolved): (s: string)
    ensures !v.Concrete? ==> s == ExtractDateStr(v)
    ensures v.Concrete? ==> s == ExtractDateStr(v) + " " + ClockText(v.t) && |s| == 19
  {
    match v
    case Manual => ManualEntry
    case Absent => ""
    case Concrete(t) => DateText(t) + " " + ClockText(t)
  }

  /** Reads back a DD/MM/YYYY HH:MM:SS text: the inverse of `format_full_datetime` on timestamps. */
  function ReadStamp(s: string): DateTime
    requires |s| == 19
    requires AllDigits(s[0..2]) && AllDigits(s[3..5]) && AllDigits(s[6..10])
    requires AllDigits(s[11..13]) && AllDigits(s[14..16]) && AllDigits(s[17..19])
  {
    DateTime(DecimalValue(s[6..10]), DecimalValue(s[3..5]), DecimalValue(s[0..2]),
             DecimalValue(s[11..13]), DecimalValue(s[14..16]), DecimalValue(s[17..19]))
  }

  /** Three two-or-four digit fields joined by a separator sit at fixed positions. */
  lemma FieldPositions(a: string, b: string, c: string, sep: string)
    requires |a| == 2 && |b| == 2 && |sep| == 1
    ensures var s := a + sep + b + sep + c;
      s[0..2] == a && s[3..5] == b && s[6..6 + |c|] == c
  {
  }

  /** The pieces of the full text of a timestamp, field by field. */
  lemma FullTextFields(t: Timestamp)
    ensures var s := FormatFullDatetime(Concrete(t));
      && s[0..2] == Digits(t.day, 2) && s[3..5] == Digits(t.month, 2) && s[6..10] == Digits(t.year, 4)
      && s[11..13] == Digits(t.hour, 2) && s[14..16] == Digits(t.minute, 2) && s[17..19] == Digits(t.second, 2)
  {
    var d := DateText(t);
    var c := ClockText(t);
    FieldPositions(Digits(t.day, 2), Digits(t.month, 2), Digits(t.year, 4), "/");
    FieldPositions(Digits(t.hour, 2), Digits(t.minute, 2), Digits(t.second, 2), ":");
    var s := d + " " + c;
    assert |d| == 10 && |c| == 8;
    assert s[0..2] == d[0..2] && s[3..5] == d[3..5] && s[6..10] == d[6..10];
    assert s[11..13] == c[0..2] && s[14..16] == c[3..5] && s[17..19] == c[6..8];
  }

  /** The full text loses nothing: reading it back gives the timestamp that was formatted. */
  lemma FullTextRoundTrip(t: Timestamp)
    ensures var s := FormatFullDatetime(Concrete(t));
      && |s| == 19
      && AllDigits(s[0..2]) && AllDigits(s[3..5]) && AllDigits(s[6..10])
      && AllDigits(s[11..13]) && AllDigits(s[14..16]) && AllDigits(s[17..19])
      && ReadStamp(s) == t
  {
    FullTextFields(t);
    assert Pow10(2) == 100 && Pow10(4) == 10000;
    DigitsRoundTrip(t.day, 2);
    DigitsRoundTrip(t.month, 2);
    DigitsRoundTrip(t.year, 4);
    DigitsRoundTrip(t.hour, 2);
    DigitsRoundTrip(t.minute, 2);
    DigitsRoundTrip(t.second, 2);
  }

  /** Two timestamps with the same full text are the same timestamp. */
  lemma FullTextDistinguishes(t: Timestamp, u: Timestamp)
    requires FormatFullDatetime(Concrete(t)) == FormatFullDatetime(Concrete(u))
    ensures t == u
  {
    FullTextRoundTrip(t);
    FullTextRoundTrip(u);
  }

  /** The three kinds of value stay apart in every column: the manual-entry text is neither "" nor a date. */
  lemma KindsStayApart(t: Timestamp)
    ensures ExtractDateStr(Manual) != ExtractDateStr(Absent)
    ensures ExtractDateStr(Manual) != ExtractDateStr(Concrete(t))
    ensures ExtractDateStr(Absent) != ExtractDateStr(Concrete(t))
    ensures FormatFullDatetime(Manual) != FormatFullDatetime(Concrete(t))
  {
    assert |ManualEntry| == 20;
  }
}
