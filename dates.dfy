/**
 * Date-text cleaning and parsing: `clean_and_parse_date_spanish` (app.py:61-83) and the
 * reservation-side `pd.to_datetime` call (app.py:147). The library parser itself is a
 * parameter `toDatetime`: `pd.to_datetime(text, dayfirst=True)` with a parse failure as `None`.
 */
module Dates {
  import opened Wrappers
  import opened Text
  import opened Cells

  /** Lines 69-73: trim, lower, delete ',' and '.', then collapse "p m" and "a m". */
  function Collapsed(s: string): string
  {
    var s1 := Lower(Trim(s));
    var s2 := Replace(s1, ",", "");
    var s3 := Replace(s2, ".", "");
    var s4 := Replace(s3, "p m", "pm");
    Replace(s4, "a m", "am")
  }

  /** Lines 69-77: the text `clean_and_parse_date_spanish` hands to the parser, every step of it. */
  function CleanDateText(s: string): string
  {
    var s5 := Collapsed(s);
    var s6 := Replace(s5, " p m", "pm");
    var s7 := Replace(s6, " a m", "am");
    var s8 := Replace(s7, "p.m.", "pm");
    Replace(s8, "a.m.", "am")
  }

  /** `replace` keeps a text lower case. */
  lemma ReplaceKeepsLower(a: string, pat: string, rep: string)
    requires IsLower(a) && IsLower(rep)
    ensures IsLower(Replace(a, pat, rep))
  {
    var r := Replace(a, pat, rep);
    forall i | 0 <= i < |r| ensures LowerChar(r[i]) == r[i] {
      ReplaceKeeps(a, pat, rep, r[i]);
    }
  }

  /** `replace` cannot bring in a character that neither the text nor the replacement has. */
  lemma ReplaceAvoids(a: string, pat: string, rep: string, c: char)
    requires c !in a && c !in rep
    ensures c !in Replace(a, pat, rep)
  {
    if c in Replace(a, pat, rep) {
      ReplaceKeeps(a, pat, rep, c);
    }
  }

  /** Lines 71-73 keep a lower-case text lower case. */
  lemma ReplacementsKeepLower(s1: string)
    requires IsLower(s1)
    ensures IsLower(Replace(Replace(Replace(Replace(s1, ",", ""), ".", ""), "p m", "pm"), "a m", "am"))
  {
    var s2 := Replace(s1, ",", "");
    var s3 := Replace(s2, ".", "");
    var s4 := Replace(s3, "p m", "pm");
    ReplaceKeepsLower(s1, ",", "");
    ReplaceKeepsLower(s2, ".", "");
    ReplaceKeepsLower(s3, "p m", "pm");
    ReplaceKeepsLower(s4, "a m", "am");
  }

  /** Lines 69-73 leave the text lower case. */
  lemma CollapsedLower(s: string)
    ensures IsLower(Collapsed(s))
  {
    ReplacementsKeepLower(Lower(Trim(s)));
  }

  /** Lines 69-73 leave no ',' and no '.'. */
  lemma CollapsedNoPunctuation(s: string)
    ensures ',' !in Collapsed(s) && '.' !in Collapsed(s)
  {
    var s1 := Lower(Trim(s));
    var s2 := Replace(s1, ",", "");
    var s3 := Replace(s2, ".", "");
    var s4 := Replace(s3, "p m", "pm");
    ReplaceRemoves(s1, ',', "");
    ReplaceAvoids(s2, ".", "", ',');
    ReplaceAvoids(s3, "p m", "pm", ',');
    ReplaceAvoids(s4, "a m", "am", ',');
    ReplaceRemoves(s2, '.', "");
    ReplaceAvoids(s3, "p m", "pm", '.');
    ReplaceAvoids(s4, "a m", "am", '.');
  }

  /**
   * Lines 72-73 leave no "a m" or "p m" pair: the collapse of "p m" cannot create an "a m"
   * and the collapse of "a m" cannot create a "p m".
   */
  lemma CollapsedNoPair(s: string)
    ensures !Contains(Collapsed(s), "p m") && !Contains(Collapsed(s), "a m")
  {
    var s3 := Replace(Replace(Lower(Trim(s)), ",", ""), ".", "");
    var s4 := Replace(s3, "p m", "pm");
    CollapseLeavesNone(s3, 'p', 'm');
    CollapseAmKeepsNoPm(s4);
    CollapseLeavesNone(s4, 'a', 'm');
  }

  /** What lines 69-73 leave: lower case, no ',' or '.', and no "a m" or "p m" pair. */
  lemma CollapsedShape(s: string)
    ensures IsLower(Collapsed(s))
    ensures ',' !in Collapsed(s) && '.' !in Collapsed(s)
    ensures !Contains(Collapsed(s), "p m") && !Contains(Collapsed(s), "a m")
  {
    CollapsedLower(s);
    CollapsedNoPunctuation(s);
    CollapsedNoPair(s);
  }

  /**
   * Lines 74 and 77 never change anything: after lines 71-73 there is no " p m", " a m",
   * "p.m." or "a.m." left for them to replace.
   */
  lemma {:induction false} LaterStepsAreNoOps(s: string)
    ensures CleanDateText(s) == Collapsed(s)
  {
    var s5 := Collapsed(s);
    CollapsedShape(s);
    ContainsLonger(s5, ' ', "p m");
    assert [' '] + "p m" == " p m";
    ReplaceAbsent(s5, " p m", "pm");
    ContainsLonger(s5, ' ', "a m");
    assert [' '] + "a m" == " a m";
    ReplaceAbsent(s5, " a m", "am");
    MissingCharNotContains(s5, "p.m.", '.');
    ReplaceAbsent(s5, "p.m.", "pm");
    MissingCharNotContains(s5, "a.m.", '.');
    ReplaceAbsent(s5, "a.m.", "am");
  }

  /** The cleaned text is lower case, has no ',' or '.', and no "a m" or "p m" left apart. */
  lemma CleanDateTextShape(s: string)
    ensures IsLower(CleanDateText(s))
    ensures ',' !in CleanDateText(s) && '.' !in CleanDateText(s)
    ensures !Contains(CleanDateText(s), "a m") && !Contains(CleanDateText(s), "p m")
  {
    LaterStepsAreNoOps(s);
    CollapsedShape(s);
  }

  /** Text made of digits and the separators '-', '/' and ':' only, as in "16-12-2025" or "12:00:00". */
  predicate IsNumericStamp(s: string)
  {
    forall i :: 0 <= i < |s| ==> ('0' <= s[i] <= '9') || s[i] == '-' || s[i] == '/' || s[i] == ':'
  }

  lemma LowerOfParts(a: string, b: string)
    requires IsLower(a) && IsLower(b)
    ensures IsLower(a + b)
  {
    forall i | 0 <= i < |a + b| ensures LowerChar((a + b)[i]) == (a + b)[i] {
      if i < |a| { assert (a + b)[i] == a[i]; } else { assert (a + b)[i] == b[i - |a|]; }
    }
  }

  lemma NumericStampFacts(s: string)
    requires IsNumericStamp(s)
    ensures IsLower(s) && ',' !in s && '.' !in s && 'a' !in s && 'p' !in s && ' ' !in s
    ensures s != [] ==> !IsSpace(s[0])
  {
  }

  /** Line 69 leaves "<date>, <time> x. m." as it is. */
  lemma MeridiemTrimLower(date: string, time: string, m: char)
    requires date != [] && IsNumericStamp(date) && IsNumericStamp(time)
    requires m == 'a' || m == 'p'
    ensures Lower(Trim(date + ", " + time + " " + [m] + ". m.")) == date + ", " + time + " " + [m] + ". m."
  {
    var s := date + ", " + time + " " + [m] + ". m.";
    NumericStampFacts(date);
    NumericStampFacts(time);
    assert s[0] == date[0] && s[|s| - 1] == '.';
    assert IsTrimmed(s);
    LowerOfParts(date, ", ");
    LowerOfParts(date + ", ", time);
    LowerOfParts(date + ", " + time, " ");
    LowerOfParts(date + ", " + time + " ", [m]);
    LowerOfParts(date + ", " + time + " " + [m], ". m.");
    assert Lower(s) == s;
  }

  /** A text that is already trimmed and lower case goes through line 69 unchanged. */
  lemma TrimLowerFixes(c: string)
    requires IsTrimmed(c) && IsLower(c)
    ensures Lower(Trim(c)) == c
  {
  }

  /** Line 72 on "<p>. m.": both periods go. */
  lemma DropPeriods(p: string)
    requires '.' !in p
    ensures Replace(p + ". m.", ".", "") == p + " m"
  {
    assert p + ". m." == p + ("." + (" m" + ("." + "")));
    ReplaceSkip(p, "." + (" m" + ("." + "")), ".", "");
    ReplaceFront(" m" + ("." + ""), ".", "");
    ReplaceSkip(" m", "." + "", ".", "");
    ReplaceFront("", ".", "");
    assert Replace("", ".", "") == "";
    assert p + ("" + (" m" + ("" + ""))) == p + " m";
  }

  /** Line 73 on "<q>x m": the meridiem letters join into "xm". */
  lemma JoinMeridiem(q: string, m: char)
    requires 'a' !in q && 'p' !in q
    requires m == 'a' || m == 'p'
    ensures Replace(Replace(q + [m, ' ', 'm'], "p m", "pm"), "a m", "am") == q + [m, 'm']
  {
    var s3 := q + [m, ' ', 'm'];
    if m == 'a' {
      assert 'p' !in s3;
      MissingCharNotContains(s3, "p m", 'p');
      ReplaceAbsent(s3, "p m", "pm");
      assert s3 == q + ("a m" + "");
      ReplaceSkip(q, "a m" + "", "a m", "am");
      ReplaceFront("", "a m", "am");
    } else {
      assert s3 == q + ("p m" + "");
      ReplaceSkip(q, "p m" + "", "p m", "pm");
      ReplaceFront("", "p m", "pm");
      assert Replace("", "p m", "pm") == "";
      var s4 := q + "pm";
      assert Replace(s3, "p m", "pm") == s4;
      assert 'a' !in s4;
      MissingCharNotContains(s4, "a m", 'a');
      ReplaceAbsent(s4, "a m", "am");
    }
  }

  /** Lines 69-73 on a Spanish meridiem text are its four replacements. */
  lemma MeridiemCollapsedIs(date: string, time: string, m: char, s: string)
    requires date != [] && IsNumericStamp(date) && IsNumericStamp(time)
    requires m == 'a' || m == 'p'
    requires s == date + ", " + time + " " + [m] + ". m."
    ensures Collapsed(s) == Replace(Replace(Replace(Replace(s, ",", ""), ".", ""), "p m", "pm"), "a m", "am")
  {
    MeridiemTrimLower(date, time, m);
  }

  /** Line 71 on a Spanish meridiem text. */
  lemma MeridiemDropComma(date: string, time: string, m: char, s: string)
    requires IsNumericStamp(date) && IsNumericStamp(time)
    requires m == 'a' || m == 'p'
    requires s == date + ", " + time + " " + [m] + ". m."
    ensures Replace(s, ",", "") == date + " " + time + " " + [m] + ". m."
  {
    NumericStampFacts(date);
    NumericStampFacts(time);
    ReplaceCharSplit(date + ", " + time + " " + [m], ". m.", ',', "");
    ReplaceCharSplit(date + ", " + time + " ", [m], ',', "");
    ReplaceCharSplit(date + ", " + time, " ", ',', "");
    ReplaceCharSplit(date + ", ", time, ',', "");
    ReplaceCharSplit(date, ", ", ',', "");
    ReplaceCharAbsent(date, ',', "");
    ReplaceCharAbsent(time, ',', "");
    ReplaceCharAbsent(" ", ',', "");
    ReplaceCharAbsent([m], ',', "");
    ReplaceCharAbsent(". m.", ',', "");
    CommaBlank();
  }

  /** Line 71 on the separator ", ": a blank is left. */
  lemma CommaBlank()
    ensures Replace(", ", ",", "") == " "
  {
    assert ", " == [','] + " ";
    ReplaceCharSplit([','], " ", ',', "");
    ReplaceCharAbsent(" ", ',', "");
    assert Replace([','], [','], "") == "";
  }

  /** Lines 71-73 on a Spanish meridiem text. */
  lemma MeridiemReplacements(date: string, time: string, m: char, s: string)
    requires IsNumericStamp(date) && IsNumericStamp(time)
    requires m == 'a' || m == 'p'
    requires s == date + ", " + time + " " + [m] + ". m."
    ensures Replace(Replace(Replace(Replace(s, ",", ""), ".", ""), "p m", "pm"), "a m", "am")
         == date + " " + time + " " + [m, 'm']
  {
    NumericStampFacts(date);
    NumericStampFacts(time);
    MeridiemDropComma(date, time, m, s);
    var p := date + " " + time + " " + [m];
    assert '.' !in p;
    DropPeriods(p);
    var q := date + " " + time + " ";
    assert p + " m" == q + [m, ' ', 'm'];
    assert 'a' !in q && 'p' !in q;
    JoinMeridiem(q, m);
  }

  /**
   * The Spanish meridiem forms: "<date>, <time> a. m." cleans to "<date> <time> am",
   * and "<date>, <time> p. m." to "<date> <time> pm".
   */
  lemma CleanSpanishMeridiem(date: string, time: string, m: char, s: string)
    requires date != [] && IsNumericStamp(date) && IsNumericStamp(time)
    requires m == 'a' || m == 'p'
    requires s == date + ", " + time + " " + [m] + ". m."
    ensures CleanDateText(s) == date + " " + time + " " + [m, 'm']
  {
    MeridiemCollapsedIs(date, time, m, s);
    MeridiemReplacements(date, time, m, s);
    LaterStepsAreNoOps(s);
  }

  /** The texts of the docstring's example, taken apart. */
  lemma DocstringTexts(date: string, time: string)
    requires date == "16-12-2025" && time == "12:00:00"
    ensures date != [] && IsNumericStamp(date) && IsNumericStamp(time)
    ensures "16-12-2025, 12:00:00 a. m." == date + ", " + time + " " + ['a'] + ". m."
    ensures "16-12-2025 12:00:00 am" == date + " " + time + " " + ['a', 'm']
  {
  }

  /** The example of the docstring: "16-12-2025, 12:00:00 a. m." cleans to "16-12-2025 12:00:00 am". */
  lemma CleanDocstringExample()
    ensures CleanDateText("16-12-2025, 12:00:00 a. m.") == "16-12-2025 12:00:00 am"
  {
    DocstringTexts("16-12-2025", "12:00:00");
    CleanSpanishMeridiem("16-12-2025", "12:00:00", 'a', "16-12-2025, 12:00:00 a. m.");
  }

  /** Line 72 on "<date> .": the period goes and the blank before it stays. */
  lemma DropTrailingPeriod(date: string)
    requires IsNumericStamp(date)
    ensures Replace(date + " .", ".", "") == date + " "
  {
    var t := date + " ";
    NumericStampFacts(date);
    assert date + " ." == t + ("." + "");
    assert '.' !in t;
    ReplaceSkip(t, "." + "", ".", "");
    ReplaceFront("", ".", "");
    assert Replace("", ".", "") == "";
  }

  /** Lines 69-73 on "<date> .": what is left is "<date> ". */
  lemma TrailingPeriodCollapsed(date: string)
    requires date != [] && IsNumericStamp(date)
    ensures Collapsed(date + " .") == date + " "
  {
    var s, t := date + " .", date + " ";
    NumericStampFacts(date);
    assert s[0] == date[0] && s[|s| - 1] == '.';
    LowerOfParts(date, " .");
    TrimLowerFixes(s);
    assert ',' !in s;
    MissingCharNotContains(s, ",", ',');
    ReplaceAbsent(s, ",", "");
    DropTrailingPeriod(date);
    assert 'p' !in t && 'a' !in t;
    MissingCharNotContains(t, "p m", 'p');
    ReplaceAbsent(t, "p m", "pm");
    MissingCharNotContains(t, "a m", 'a');
    ReplaceAbsent(t, "a m", "am");
  }

  /**
   * The trim happens before the deletions, so deleting a '.' at an edge can leave
   * whitespace there: "<date> ." cleans to "<date> ", which is not trimmed.
   */
  lemma CleanedTextMayEndInBlank(date: string, s: string)
    requires date != [] && IsNumericStamp(date)
    requires s == date + " ."
    ensures CleanDateText(s) == date + " "
    ensures !IsTrimmed(CleanDateText(s))
  {
    var t := date + " ";
    TrailingPeriodCollapsed(date);
    LaterStepsAreNoOps(s);
    assert t[|t| - 1] == ' ';
  }

  /** Lines 71-73 change nothing in a text with no ',', no '.', no "p m" and no "a m". */
  lemma ReplacementsFix(c: string)
    requires ',' !in c && '.' !in c && !Contains(c, "p m") && !Contains(c, "a m")
    ensures Replace(Replace(Replace(Replace(c, ",", ""), ".", ""), "p m", "pm"), "a m", "am") == c
  {
    MissingCharNotContains(c, ",", ',');
    ReplaceAbsent(c, ",", "");
    MissingCharNotContains(c, ".", '.');
    ReplaceAbsent(c, ".", "");
    ReplaceAbsent(c, "p m", "pm");
    ReplaceAbsent(c, "a m", "am");
  }

  /** A text with the shape the cleaning leaves, and no edge whitespace, goes through lines 69-73 unchanged. */
  lemma CollapsedFixes(c: string)
    requires IsTrimmed(c) && IsLower(c)
    requires ',' !in c && '.' !in c && !Contains(c, "p m") && !Contains(c, "a m")
    ensures Collapsed(c) == c
  {
    TrimLowerFixes(c);
    ReplacementsFix(c);
  }

  /** Cleaning again changes nothing when the first cleaning left no whitespace at the edges. */
  lemma {:induction false} CleanDateTextIdempotent(s: string)
    requires IsTrimmed(CleanDateText(s))
    ensures CleanDateText(CleanDateText(s)) == CleanDateText(s)
  {
    var c := CleanDateText(s);
    CleanDateTextShape(s);
    CollapsedFixes(c);
    LaterStepsAreNoOps(c);
  }

  /**
   * `clean_and_parse_date_spanish(s)`: a missing or blank value is "no date" and never
   * reaches the parser; anything else is `str(s)` cleaned and parsed day-first, a failure
   * being "no date" as well.
   */
  function ParseSpanishDate(c: Cell, toDatetime: string -> Option<Timestamp>): (r: Option<Timestamp>)
    ensures c.Null? || AllSpace(Str(c)) ==> r == None
    ensures !c.Null? && !AllSpace(Str(c)) ==> r == toDatetime(CleanDateText(Str(c)))
  {
    if c.Null? || Trim(Str(c)) == "" then None
    else toDatetime(CleanDateText(Str(c)))
  }

  /**
   * Parsing a date is idempotent on its own canonical text: whatever the parser, the cleaned
   * text (when not blank and not edged with whitespace) parses as the original did.
   */
  lemma ParseSpanishDateOnCleanedText(s: string, toDatetime: string -> Option<Timestamp>)
    requires CleanDateText(s) != [] && IsTrimmed(CleanDateText(s)) && !AllSpace(s)
    ensures ParseSpanishDate(Text(CleanDateText(s)), toDatetime) == ParseSpanishDate(Text(s), toDatetime)
  {
    var c := CleanDateText(s);
    CleanDateTextIdempotent(s);
    assert !IsSpace(c[0]);
  }

  /** The canonical "<date> <time> xm" form is its own cleaned text. */
  lemma CanonicalMeridiemIsClean(date: string, time: string, m: char, s: string, c: string)
    requires date != [] && IsNumericStamp(date) && IsNumericStamp(time)
    requires m == 'a' || m == 'p'
    requires s == date + ", " + time + " " + [m] + ". m."
    requires c == date + " " + time + " " + [m, 'm']
    ensures CleanDateText(c) == c
  {
    NumericStampFacts(date);
    CleanSpanishMeridiem(date, time, m, s);
    assert c[0] == date[0] && c[|c| - 1] == 'm';
    assert IsTrimmed(c);
    CleanDateTextIdempotent(s);
  }

  /** Two non-blank texts with the same cleaned text parse alike, whatever the parser. */
  lemma SameCleanTextParsesAlike(s: string, t: string, toDatetime: string -> Option<Timestamp>)
    requires !AllSpace(s) && !AllSpace(t) && CleanDateText(s) == CleanDateText(t)
    ensures ParseSpanishDate(Text(s), toDatetime) == ParseSpanishDate(Text(t), toDatetime)
  {
    assert Str(Text(s)) == s && Str(Text(t)) == t;
  }

  /**
   * A Spanish meridiem text and its canonical "<date> <time> xm" form parse to the same
   * timestamp, whatever the parser.
   */
  lemma SpanishAndCanonicalParseAlike(date: string, time: string, m: char, s: string, c: string,
                                      toDatetime: string -> Option<Timestamp>)
    requires date != [] && IsNumericStamp(date) && IsNumericStamp(time)
    requires m == 'a' || m == 'p'
    requires s == date + ", " + time + " " + [m] + ". m."
    requires c == date + " " + time + " " + [m, 'm']
    ensures ParseSpanishDate(Text(s), toDatetime) == ParseSpanishDate(Text(c), toDatetime)
  {
    NumericStampFacts(date);
    CleanSpanishMeridiem(date, time, m, s);
    CanonicalMeridiemIsClean(date, time, m, s, c);
    assert c[0] == date[0] && s[0] == date[0];
    assert !AllSpace(c) && !AllSpace(s);
    SameCleanTextParsesAlike(s, c, toDatetime);
  }

  /**
   * `pd.to_datetime(column, dayfirst=True, errors='coerce')` on one reservation cell (line 147):
   * missing stays missing, a timestamp is kept, anything else goes to the parser.
   */
  function JourneyStart(c: Cell, toDatetime: string -> Option<Timestamp>): (r: Option<Timestamp>)
    ensures c.Null? ==> r == None
    ensures c.Time? ==> r == Some(c.t)
  {
    match c
    case Null => None
    case Time(t) => Some(t)
    case _ => toDatetime(Str(c))
  }
}
