/** The lease dates of the lead form: the day-month-year text the user
    enters, its rewriting to the ISO order handed to `new Date`, and the
    strict "later than" comparison of the `is-later` rule. JavaScript `Date`
    values are abstracted to (year, month, day) triples compared
    lexicographically. */
module LeaseDates {
  import opened Wrappers
  import opened JsText

  datatype Date = Date(year: nat, month: nat, day: nat)

  /** `a` is strictly earlier than `b`: by year, then month, then day. */
  predicate Before(a: Date, b: Date)
  {
    || a.year < b.year
    || (a.year == b.year && a.month < b.month)
    || (a.year == b.year && a.month == b.month && a.day < b.day)
  }

  /** `Before` is a strict total order. */
  lemma BeforeIsStrictTotalOrder(a: Date, b: Date, c: Date)
    ensures !Before(a, a)
    ensures Before(a, b) && Before(b, c) ==> Before(a, c)
    ensures a != b ==> Before(a, b) || Before(b, a)
    ensures !(Before(a, b) && Before(b, a))
  {
  }

  function DigitValue(c: char): nat
    requires IsDigit(c)
  {
    (c as int - '0' as int) as nat
  }

  /** The decimal value of a digit string; the empty string reads as 0. */
  function DecimalValue(s: string): nat
    requires AllDigits(s)
  {
    if |s| == 0 then 0 else 10 * DecimalValue(s[..|s| - 1]) + DigitValue(s[|s| - 1])
  }

  /** `s.split('.').reverse().join('-')`: the dot-separated pieces in
      reverse order, joined with dashes. */
  function Normalize(s: string): string
  {
    Join(Reverse(Split(s, '.')), '-')
  }

  /** The same rewriting in the other direction, `t.split('-').reverse().join('.')`. */
  function Denormalize(t: string): string
  {
    Join(Reverse(Split(t, '-')), '.')
  }

  /** For any text without a dash, rewriting back restores it. */
  lemma NormalizeRoundTrip(s: string)
    requires '-' !in s
    ensures Denormalize(Normalize(s)) == s
  {
    var pieces := Split(s, '.');
    var reversed := Reverse(pieces);
    assert forall i :: 0 <= i < |reversed| ==> '-' !in reversed[i] by {
      forall i | 0 <= i < |reversed| ensures '-' !in reversed[i] {
        assert reversed[i] == pieces[|pieces| - 1 - i];
      }
    }
    SplitJoin(reversed, '-');
    ReverseReverse(pieces);
    JoinSplit(s, '.');
  }

  /** The text shape `DD.MM.YYYY`. */
  predicate IsDotted(s: string)
  {
    && |s| == 10
    && AllDigits(s[0..2]) && s[2] == '.'
    && AllDigits(s[3..5]) && s[5] == '.'
    && AllDigits(s[6..10])
  }

  /** The ISO date-only shape `YYYY-MM-DD`. */
  predicate IsIsoShaped(t: string)
  {
    && |t| == 10
    && AllDigits(t[0..4]) && t[4] == '-'
    && AllDigits(t[5..7]) && t[7] == '-'
    && AllDigits(t[8..10])
  }

  /** Splitting `DD.MM.YYYY` at the dots gives its three fields. */
  lemma SplitDotted(s: string)
    requires IsDotted(s)
    ensures Split(s, '.') == [s[0..2], s[3..5], s[6..10]]
  {
    var day, month, year := s[0..2], s[3..5], s[6..10];
    assert s == day + ['.'] + s[3..];
    assert s[3..] == month + ['.'] + year;
    assert '.' !in day && '.' !in month && '.' !in year by {
      assert forall i :: 0 <= i < 2 ==> day[i] == s[i] && month[i] == s[3 + i];
      assert forall i :: 0 <= i < 4 ==> year[i] == s[6 + i];
    }
    SplitAfterPiece(day, '.', s[3..]);
    SplitAfterPiece(month, '.', year);
    SplitNoSeparator(year, '.');
  }

  /** Joining three pieces puts a separator between each neighbouring pair. */
  lemma JoinThree(a: string, b: string, c: string, sep: char)
    ensures Join([a, b, c], sep) == a + [sep] + b + [sep] + c
  {
    assert [a, b, c][1..] == [b, c];
    assert [b, c][1..] == [c];
    assert Join([b, c], sep) == b + [sep] + c;
    assert Join([a, b, c], sep) == a + [sep] + (b + [sep] + c);
  }

  /** Normalising `DD.MM.YYYY` gives `YYYY-MM-DD`. */
  lemma NormalizeDotted(s: string)
    requires IsDotted(s)
    ensures Normalize(s) == s[6..10] + "-" + s[3..5] + "-" + s[0..2]
    ensures IsIsoShaped(Normalize(s))
  {
    var day, month, year := s[0..2], s[3..5], s[6..10];
    SplitDotted(s);
    assert Reverse([day, month, year]) == [year, month, day];
    JoinThree(year, month, day, '-');
    var t := Normalize(s);
    assert t[0..4] == year && t[5..7] == month && t[8..10] == day;
  }

  /** A date built from digit fields, or an invalid date when the month is
      outside 1..12 or the day outside 1..31. */
  function DateFromFields(year: string, month: string, day: string): (r: Option<Date>)
    requires AllDigits(year) && AllDigits(month) && AllDigits(day)
    ensures r.Some? ==> 1 <= r.value.month <= 12 && 1 <= r.value.day <= 31
  {
    var y, m, d := DecimalValue(year), DecimalValue(month), DecimalValue(day);
    if 1 <= m <= 12 && 1 <= d <= 31 then Some(Date(y, m, d)) else None
  }

  /** `new Date(t)`, abstracted: the date-only ISO form `YYYY-MM-DD` gives its
      date, anything else gives an invalid date (None). */
  function ParseIso(t: string): (r: Option<Date>)
    ensures r.Some? ==> IsIsoShaped(t)
    ensures r.Some? ==> 1 <= r.value.month <= 12 && 1 <= r.value.day <= 31
  {
    if IsIsoShaped(t) then DateFromFields(t[0..4], t[5..7], t[8..10]) else None
  }

  /** Reading `DD.MM.YYYY` directly, field by field: the reference the
      normalise-then-parse route is compared against. */
  function ReadDotted(s: string): (r: Option<Date>)
    ensures r.Some? ==> IsDotted(s)
  {
    if IsDotted(s) then DateFromFields(s[6..10], s[3..5], s[0..2]) else None
  }

  /** Parsing the normalised text yields the date written in `DD.MM.YYYY`. */
  lemma ParseNormalized(s: string)
    requires IsDotted(s)
    ensures ParseIso(Normalize(s)) == ReadDotted(s)
  {
    NormalizeDotted(s);
    var t := Normalize(s);
    assert t[0..4] == s[6..10] && t[5..7] == s[3..5] && t[8..10] == s[0..2];
  }

  /** The `is-later` test on `rangeDate.max`: when both date strings are
      present and valid, the end date must be strictly after the start date
      (an invalid `Date` on either side compares false); otherwise the test
      passes. Validity is the predicate `valid`, the date-string check the
      form imports. */
  predicate LaterTest(valid: string -> bool, min: Option<string>, max: Option<string>)
  {
    if min.Some? && max.Some? && valid(min.value) && valid(max.value) then
      match (ParseIso(Normalize(min.value)), ParseIso(Normalize(max.value)))
      case (Some(start), Some(end)) => Before(start, end)
      case _ => false
    else true
  }

  /** On two valid dates written `DD.MM.YYYY`, the test passes exactly when the
      end date, read directly, is strictly after the start date. */
  lemma LaterOnDottedDates(valid: string -> bool, min: string, max: string)
    requires valid(min) && valid(max)
    requires IsDotted(min) && IsDotted(max)
    ensures LaterTest(valid, Some(min), Some(max)) <==>
              ReadDotted(min).Some? && ReadDotted(max).Some? && Before(ReadDotted(min).value, ReadDotted(max).value)
  {
    ParseNormalized(min);
    ParseNormalized(max);
  }

  /** The same date on both ends never passes. */
  lemma SameDateRejected(valid: string -> bool, s: string)
    requires valid(s)
    ensures !LaterTest(valid, Some(s), Some(s))
  {
  }

  /** If either string is absent or invalid the test passes, leaving the
      validity rule as the only one to fire. */
  lemma LaterSkippedUnlessBothValid(valid: string -> bool, min: Option<string>, max: Option<string>)
    requires min.None? || max.None? || !valid(min.value) || !valid(max.value)
    ensures LaterTest(valid, min, max)
  {
  }

  /** A lease from 1 January of one year to 1 January of an earlier year
      fails the test (for example 01.01.2024 to 01.01.2023). */
  lemma EndBeforeStartRejected(valid: string -> bool, startYear: string, endYear: string)
    requires |startYear| == 4 && AllDigits(startYear) && |endYear| == 4 && AllDigits(endYear)
    requires DecimalValue(endYear) < DecimalValue(startYear)
    requires valid("01.01." + startYear) && valid("01.01." + endYear)
    ensures !LaterTest(valid, Some("01.01." + startYear), Some("01.01." + endYear))
  {
    NewYearDotted(startYear);
    NewYearDotted(endYear);
    LaterOnDottedDates(valid, "01.01." + startYear, "01.01." + endYear);
  }

  /** The instance from 1 January 2024 to 1 January 2023. */
  lemma NewYear2024To2023Rejected(valid: string -> bool)
    requires valid("01.01.2024") && valid("01.01.2023")
    ensures !LaterTest(valid, Some("01.01.2024"), Some("01.01.2023"))
  {
    assert DecimalValue("2023") < DecimalValue("2024") by {
      assert "2023"[..3] == "202" && "2024"[..3] == "202";
    }
    assert "01.01." + "2024" == "01.01.2024" && "01.01." + "2023" == "01.01.2023";
    EndBeforeStartRejected(valid, "2024", "2023");
  }

  /** `01.01.YYYY` reads as 1 January of that year. */
  lemma NewYearDotted(year: string)
    requires |year| == 4 && AllDigits(year)
    ensures IsDotted("01.01." + year)
    ensures ReadDotted("01.01." + year) == Some(Date(DecimalValue(year), 1, 1))
  {
    var s := "01.01." + year;
    assert s[0..2] == "01" && s[3..5] == "01" && s[6..10] == year;
    assert DecimalValue("01") == 1 by {
      assert "01"[..1] == "0";
    }
  }
}
