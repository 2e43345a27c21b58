/**
 * `parse_date`: `datetime.strptime` tried with `%d/%m/%Y` and then with
 * `%Y-%m-%d`. CPython's strptime turns each directive into a regular
 * expression (`%d` is `3[01]|[12]\d|0[1-9]|[1-9]| [1-9]`, `%m` is
 * `1[0-2]|0[1-9]|[1-9]`, `%Y` is `\d\d\d\d`), insists that the match covers
 * the whole string, and then builds the date, which fails for a day the month
 * does not have and for year 0. Every failure is a `ValueError`, which
 * `parse_date` turns into None.
 */
module DateParser {
  import opened Wrappers
  import opened Text
  import opened Calendar

  /** The two layouts `parse_date` tries, in the order it tries them. */
  datatype Layout = DayMonthYear | YearMonthDay

  const Layouts: seq<Layout> := [DayMonthYear, YearMonthDay]

  function Separator(layout: Layout): char {
    if layout == DayMonthYear then '/' else '-'
  }

  predicate IsNonZeroDigit(c: char) {
    '1' <= c <= '9'
  }

  /** The texts the `%d` directive matches. */
  predicate IsDayText(t: string) {
    || (|t| == 1 && IsNonZeroDigit(t[0]))
    || (|t| == 2 && t[0] == '3' && (t[1] == '0' || t[1] == '1'))
    || (|t| == 2 && (t[0] == '1' || t[0] == '2') && IsDigit(t[1]))
    || (|t| == 2 && t[0] == '0' && IsNonZeroDigit(t[1]))
    || (|t| == 2 && t[0] == ' ' && IsNonZeroDigit(t[1]))
  }

  /** The day `int()` reads from a `%d` text (a leading space is ignored). */
  function DayValue(t: string): (d: int)
    requires IsDayText(t)
    ensures 1 <= d <= 31
  {
    if |t| == 1 then DigitValue(t[0])
    else if t[0] == ' ' then DigitValue(t[1])
    else 10 * DigitValue(t[0]) + DigitValue(t[1])
  }

  /** The texts the `%m` directive matches. */
  predicate IsMonthText(t: string) {
    || (|t| == 1 && IsNonZeroDigit(t[0]))
    || (|t| == 2 && t[0] == '0' && IsNonZeroDigit(t[1]))
    || (|t| == 2 && t[0] == '1' && '0' <= t[1] <= '2')
  }

  function MonthValue(t: string): (m: int)
    requires IsMonthText(t)
    ensures 1 <= m <= 12
  {
    if |t| == 1 then DigitValue(t[0]) else 10 * DigitValue(t[0]) + DigitValue(t[1])
  }

  /** The texts the `%Y` directive matches: exactly four digits. */
  predicate IsYearText(t: string) {
    |t| == 4 && AllDigits(t)
  }

  /** The date the three texts name, at midnight; None when a text is not its directive's or the calendar has no such day. */
  function DateOf(d: string, m: string, y: string): (r: Option<Instant>)
    ensures r.Some? ==> r.value.hour == 0 && r.value.minute == 0 && r.value.second == 0
  {
    if IsDayText(d) && IsMonthText(m) && IsYearText(y) && ValidDate(Value(y), MonthValue(m), DayValue(d)) then
      Some(DateTime(Value(y), MonthValue(m), DayValue(d), 0, 0, 0))
    else
      None
  }

  /** `datetime.strptime(s, fmt)` for one layout, None standing for its `ValueError`. */
  function ParseWith(layout: Layout, s: string): (r: Option<Instant>)
    ensures r.Some? ==> r.value.hour == 0 && r.value.minute == 0 && r.value.second == 0
  {
    var f := Split(s, Separator(layout));
    if |f| != 3 then None
    else if layout == DayMonthYear then DateOf(f[0], f[1], f[2])
    else DateOf(f[2], f[1], f[0])
  }

  /** The loop of `parse_date`: the first layout that parses wins, and None once all have failed. */
  function ParseFirst(layouts: seq<Layout>, s: string): (r: Option<Instant>)
    ensures r.Some? <==> exists k :: 0 <= k < |layouts| && ParseWith(layouts[k], s).Some?
    ensures r.Some? ==>
      exists k :: 0 <= k < |layouts| && ParseWith(layouts[k], s) == r && forall j :: 0 <= j < k ==> ParseWith(layouts[j], s).None?
  {
    if layouts == [] then
      None
    else
      match ParseWith(layouts[0], s)
      case Some(t) => Some(t)
      case None =>
        var r := ParseFirst(layouts[1..], s);
        assert forall k :: 0 < k < |layouts| ==> layouts[k] == layouts[1..][k - 1];
        r
  }

  /** `parse_date(s)`: never raises; a date at midnight, or None. */
  function ParseDate(s: string): (r: Option<Instant>)
    ensures r.Some? ==> r.value.hour == 0 && r.value.minute == 0 && r.value.second == 0
  {
    ParseFirst(Layouts, s)
  }

  /** With two layouts, `parse_date` is the first parse if it succeeds and the second otherwise. */
  lemma ParseDateUnfolded(s: string)
    ensures ParseDate(s) == if ParseWith(DayMonthYear, s).Some? then ParseWith(DayMonthYear, s) else ParseWith(YearMonthDay, s)
  {
    assert Layouts[1..][1..] == [];
    assert ParseFirst([], s) == None;
    assert Layouts[1..] == [YearMonthDay];
    assert ParseFirst([YearMonthDay], s) == ParseWith(YearMonthDay, s);
    assert Layouts[0] == DayMonthYear;
  }

  /** The text a layout spells with the given day, month and year texts. */
  function Render(layout: Layout, d: string, m: string, y: string): string {
    if layout == DayMonthYear then d + "/" + m + "/" + y else y + "-" + m + "-" + d
  }

  /**
   * The grammar strptime checks for a layout: the whole of `s` is the
   * layout's three directive texts around its separator, and they name the
   * date `t` (at midnight), which the calendar has.
   */
  ghost predicate Matches(layout: Layout, s: string, t: Instant) {
    exists d, m, y ::
      && IsDayText(d) && IsMonthText(m) && IsYearText(y)
      && s == Render(layout, d, m, y)
      && ValidDate(Value(y), MonthValue(m), DayValue(d))
      && t == DateTime(Value(y), MonthValue(m), DayValue(d), 0, 0, 0)
  }

  lemma TokensLackSeparators(d: string, m: string, y: string)
    requires IsDayText(d) && IsMonthText(m) && IsYearText(y)
    ensures '/' !in d && '/' !in m && '/' !in y
    ensures '-' !in d && '-' !in m && '-' !in y
  {
  }

  /** Rendered directive texts are read back as the same three texts. */
  lemma ParseRendered(layout: Layout, d: string, m: string, y: string)
    requires IsDayText(d) && IsMonthText(m) && IsYearText(y)
    ensures ParseWith(layout, Render(layout, d, m, y)) == DateOf(d, m, y)
  {
    TokensLackSeparators(d, m, y);
    var sep := Separator(layout);
    var fields := if layout == DayMonthYear then [d, m, y] else [y, m, d];
    if layout == DayMonthYear {
      JoinThree(d, m, y, sep);
    } else {
      JoinThree(y, m, d, sep);
    }
    SplitJoin(fields, sep);
  }

  /** One layout parses `s` to `t` exactly when `s` is in that layout's grammar for `t`. */
  lemma ParseWithMatches(layout: Layout, s: string, t: Instant)
    ensures ParseWith(layout, s) == Some(t) <==> Matches(layout, s, t)
  {
    var sep := Separator(layout);
    var f := Split(s, sep);
    if ParseWith(layout, s) == Some(t) {
      JoinSplit(s, sep);
      assert f == [f[0], f[1], f[2]];
      JoinThree(f[0], f[1], f[2], sep);
      if layout == DayMonthYear {
        assert s == Render(layout, f[0], f[1], f[2]);
      } else {
        assert s == Render(layout, f[2], f[1], f[0]);
      }
    }
    if Matches(layout, s, t) {
      var d, m, y :| && IsDayText(d) && IsMonthText(m) && IsYearText(y)
                     && s == Render(layout, d, m, y)
                     && ValidDate(Value(y), MonthValue(m), DayValue(d))
                     && t == DateTime(Value(y), MonthValue(m), DayValue(d), 0, 0, 0);
      ParseRendered(layout, d, m, y);
    }
  }

  /** No string parses under both layouts, so the order in which they are tried never matters. */
  lemma LayoutsExclusive(s: string)
    ensures ParseWith(DayMonthYear, s).None? || ParseWith(YearMonthDay, s).None?
  {
    var f := Split(s, '/');
    if |f| == 3 && DateOf(f[0], f[1], f[2]).Some? {
      JoinSplit(s, '/');
      assert f == [f[0], f[1], f[2]];
      JoinThree(f[0], f[1], f[2], '/');
      TokensLackSeparators(f[0], f[1], f[2]);
      assert '-' !in s;
      SplitWithoutSeparator(s, '-');
    }
  }

  /** `parse_date` succeeds with `t` exactly when `s` is in the grammar of one of the two layouts for `t`. */
  lemma ParseDateMatches(s: string, t: Instant)
    ensures ParseDate(s) == Some(t) <==> Matches(DayMonthYear, s, t) || Matches(YearMonthDay, s, t)
  {
    ParseWithMatches(DayMonthYear, s, t);
    ParseWithMatches(YearMonthDay, s, t);
    LayoutsExclusive(s);
    ParseDateUnfolded(s);
  }

  lemma ValueOfYear(y: string)
    requires IsYearText(y)
    ensures Value(y) == 1000 * DigitValue(y[0]) + 100 * DigitValue(y[1]) + 10 * DigitValue(y[2]) + DigitValue(y[3])
  {
    var y1, y2, y3 := y[..1], y[..2], y[..3];
    assert y1[..0] == [] && y2[..1] == y1 && y3[..2] == y2 && y[..3] == y3;
    assert Value(y1) == DigitValue(y[0]);
    assert Value(y2) == 10 * DigitValue(y[0]) + DigitValue(y[1]);
    assert Value(y3) == 100 * DigitValue(y[0]) + 10 * DigitValue(y[1]) + DigitValue(y[2]);
  }

  /**
   * What any accepted text looks like: four digits after the last `/`, or
   * four digits before the first `-`.
   */
  lemma ParsedShape(s: string)
    requires ParseDate(s).Some?
    ensures || (|s| >= 5 && s[|s| - 5] == '/' && AllDigits(s[|s| - 4..]))
            || (|s| >= 5 && s[4] == '-' && AllDigits(s[..4]))
  {
    var t := ParseDate(s).value;
    ParseDateMatches(s, t);
    if Matches(DayMonthYear, s, t) {
      var d, m, y :| && IsDayText(d) && IsMonthText(m) && IsYearText(y)
                     && s == Render(DayMonthYear, d, m, y)
                     && ValidDate(Value(y), MonthValue(m), DayValue(d))
                     && t == DateTime(Value(y), MonthValue(m), DayValue(d), 0, 0, 0);
      assert s[|s| - 4..] == y;
    } else {
      var d, m, y :| && IsDayText(d) && IsMonthText(m) && IsYearText(y)
                     && s == Render(YearMonthDay, d, m, y)
                     && ValidDate(Value(y), MonthValue(m), DayValue(d))
                     && t == DateTime(Value(y), MonthValue(m), DayValue(d), 0, 0, 0);
      assert s[..4] == y;
    }
  }

  /** Texts in the `%d/%m/%Y` grammar are read by the first layout, whether or not the date exists. */
  lemma ParseDayFirst(d: string, m: string, y: string)
    requires IsDayText(d) && IsMonthText(m) && IsYearText(y)
    ensures ParseDate(d + "/" + m + "/" + y) == DateOf(d, m, y)
  {
    var s := Render(DayMonthYear, d, m, y);
    ParseRendered(DayMonthYear, d, m, y);
    ParseDateUnfolded(s);
    TokensLackSeparators(d, m, y);
    SplitWithoutSeparator(s, '-');
  }

  /** Texts in the `%Y-%m-%d` grammar fail the first layout and are read by the second. */
  lemma ParseYearFirst(d: string, m: string, y: string)
    requires IsDayText(d) && IsMonthText(m) && IsYearText(y)
    ensures ParseDate(y + "-" + m + "-" + d) == DateOf(d, m, y)
  {
    var s := Render(YearMonthDay, d, m, y);
    ParseRendered(YearMonthDay, d, m, y);
    ParseDateUnfolded(s);
    TokensLackSeparators(d, m, y);
    SplitWithoutSeparator(s, '/');
  }

  /** `"15/03/2024"` gives 15 March 2024 at midnight. */
  lemma ParseDateDayFirstExample()
    ensures ParseDate("15/03/2024") == Some(DateTime(2024, 3, 15, 0, 0, 0))
  {
    var d, m, y := "15", "03", "2024";
    assert IsDayText(d) && IsMonthText(m) && IsYearText(y);
    ValueOfYear(y);
    assert DateOf(d, m, y) == Some(DateTime(2024, 3, 15, 0, 0, 0));
    ParseDayFirst(d, m, y);
    assert d + "/" + m + "/" + y == "15/03/2024";
  }

  /** `"2024-03-15"` gives the same date. */
  lemma ParseDateYearFirstExample()
    ensures ParseDate("2024-03-15") == Some(DateTime(2024, 3, 15, 0, 0, 0))
  {
    var d, m, y := "15", "03", "2024";
    assert IsDayText(d) && IsMonthText(m) && IsYearText(y);
    ValueOfYear(y);
    assert DateOf(d, m, y) == Some(DateTime(2024, 3, 15, 0, 0, 0));
    ParseYearFirst(d, m, y);
    assert y + "-" + m + "-" + d == "2024-03-15";
  }

  /** `%d` and `%m` take a single digit: `"5/3/2024"`. */
  lemma ParseDateSingleDigits()
    ensures ParseDate("5/3/2024") == Some(DateTime(2024, 3, 5, 0, 0, 0))
  {
    var d, m, y := "5", "3", "2024";
    assert IsDayText(d) && IsMonthText(m) && IsYearText(y);
    ValueOfYear(y);
    assert DateOf(d, m, y) == Some(DateTime(2024, 3, 5, 0, 0, 0));
    ParseDayFirst(d, m, y);
    assert d + "/" + m + "/" + y == "5/3/2024";
  }

  /** `%d` takes a space before a digit: `"2024-03- 5"`. */
  lemma ParseDateSpacedDay()
    ensures ParseDate("2024-03- 5") == Some(DateTime(2024, 3, 5, 0, 0, 0))
  {
    var d, m, y := " 5", "03", "2024";
    assert IsDayText(d) && IsMonthText(m) && IsYearText(y);
    ValueOfYear(y);
    assert DateOf(d, m, y) == Some(DateTime(2024, 3, 5, 0, 0, 0));
    ParseYearFirst(d, m, y);
    assert y + "-" + m + "-" + d == "2024-03- 5";
  }

  /** 29 February is a date in the leap year 2024: `"29/02/2024"`. */
  lemma ParseDateLeapDay()
    ensures ParseDate("29/02/2024") == Some(DateTime(2024, 2, 29, 0, 0, 0))
  {
    var d, m, y := "29", "02", "2024";
    assert IsDayText(d) && IsMonthText(m) && IsYearText(y);
    ValueOfYear(y);
    assert DateOf(d, m, y) == Some(DateTime(2024, 2, 29, 0, 0, 0));
    ParseDayFirst(d, m, y);
    assert d + "/" + m + "/" + y == "29/02/2024";
  }

  /** 29 February is not a date in 2023: `"29/02/2023"`. */
  lemma ParseDateNoLeapDay()
    ensures ParseDate("29/02/2023") == None
  {
    var d, m, y := "29", "02", "2023";
    assert IsDayText(d) && IsMonthText(m) && IsYearText(y);
    ValueOfYear(y);
    assert DateOf(d, m, y) == None;
    ParseDayFirst(d, m, y);
    assert d + "/" + m + "/" + y == "29/02/2023";
  }

  /** No month has a 31st February: `"31/02/2024"`. */
  lemma ParseDateMissingDay()
    ensures ParseDate("31/02/2024") == None
  {
    var d, m, y := "31", "02", "2024";
    assert IsDayText(d) && IsMonthText(m) && IsYearText(y);
    assert DateOf(d, m, y) == None;
    ParseDayFirst(d, m, y);
    assert d + "/" + m + "/" + y == "31/02/2024";
  }

  /** Year 0 (`"01/01/0000"`) is rejected although its text is in the grammar. */
  lemma ParseDateYearZero()
    ensures IsDayText("01") && IsMonthText("01") && IsYearText("0000")
    ensures ParseDate("01/01/0000") == None
  {
    var d, m, y := "01", "01", "0000";
    assert IsDayText(d) && IsMonthText(m) && IsYearText(y);
    ValueOfYear(y);
    assert DateOf(d, m, y) == None;
    ParseDayFirst(d, m, y);
    assert d + "/" + m + "/" + y == "01/01/0000";
  }

  /** A two-digit year is rejected: `"15/03/24"`, whose day and month are in the grammar. */
  lemma ParseDateShortYear()
    ensures IsDayText("15") && IsMonthText("03") && !IsYearText("24")
    ensures ParseDate("15/03/24") == None
  {
    var s := "15/03/24";
    if ParseDate(s).Some? {
      ParsedShape(s);
    }
  }

  /** A text in neither layout is rejected: `"not-a-date"`. */
  lemma ParseDateNotADate()
    ensures ParseDate("not-a-date") == None
  {
    var s := "not-a-date";
    if ParseDate(s).Some? {
      ParsedShape(s);
    }
  }

}
