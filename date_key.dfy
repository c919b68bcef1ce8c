/**
 The date a day button opens and the two strings built from it in
 `openDayDialog`: the event-map key `day + "/" + month + "/" + year` (month
 zero-based) and the dialog's window title.
 */
module DateKey {
  import opened Text

  /** A calendar day as the controller passes it around: day 1..31, month 0..11, year. */
  datatype Date = Date(day: int, month: int, year: int)

  /** Reads the three '/'-separated fields of a key back. */
  function ParseKey(s: string): Date
  {
    var (a, rest) := SplitFirst(s, '/');
    var (b, c) := SplitFirst(rest, '/');
    Date(ParseInt(a), ParseInt(b), ParseInt(c))
  }

  /** A rendered int field never contains the '/' separator. */
  lemma NoSeparatorInField(i: int)
    ensures '/' !in IntToString(i)
  {
  }

  /** Three decimal fields joined by '/' are recovered field by field. */
  lemma {:induction false} ParseJoined(a: int, b: string, c: int)
    requires '/' !in b
    ensures ParseKey(IntToString(a) + "/" + b + "/" + IntToString(c)) == Date(ParseInt(IntToString(a)), ParseInt(b), ParseInt(IntToString(c)))
  {
    var fa, fc := IntToString(a), IntToString(c);
    NoSeparatorInField(a);
    assert fa + "/" + b + "/" + fc == fa + ['/'] + (b + ['/'] + fc);
    SplitFirstJoin(fa, '/', b + ['/'] + fc);
    SplitFirstJoin(b, '/', fc);
  }

  /** The event-map key: the three fields in decimal, separated by '/'. Every key reads back as the date it was built from. */
  function Key(d: Date): (k: string)
    ensures ParseKey(k) == d
  {
    NoSeparatorInField(d.month);
    ParseJoined(d.day, IntToString(d.month), d.year);
    ParseIntToString(d.day);
    ParseIntToString(d.month);
    ParseIntToString(d.year);
    IntToString(d.day) + "/" + IntToString(d.month) + "/" + IntToString(d.year)
  }

  /** Distinct dates never share a key, so they never share an event list. */
  lemma KeyInjective(d1: Date, d2: Date)
    ensures Key(d1) == Key(d2) <==> d1 == d2
  {
  }

  const TitlePrefix: string := "Events of "

  /**
   The dialog title as CalendarController.java builds it: `"/" + month+1` is string
   concatenation, so the character '1' is appended to the zero-based month.
   */
  function TitleAsWritten(d: Date): (t: string)
    ensures TitlePrefix <= t
  {
    TitlePrefix + IntToString(d.day) + "/" + IntToString(d.month) + "1" + "/" + IntToString(d.year)
  }

  /** The dialog title with the month shown one-based, as intended. */
  function Title(d: Date): (t: string)
    ensures TitlePrefix <= t
  {
    TitlePrefix + IntToString(d.day) + "/" + IntToString(d.month + 1) + "/" + IntToString(d.year)
  }

  /** The date a reader of a title sees: the fields after the prefix. */
  function DisplayedDate(title: string): Date
    requires |title| >= |TitlePrefix|
  {
    ParseKey(title[|TitlePrefix|..])
  }

  /** The corrected title shows the day, the one-based month and the year. */
  lemma TitleShowsOneBasedMonth(d: Date)
    ensures |Title(d)| >= |TitlePrefix|
    ensures DisplayedDate(Title(d)) == Date(d.day, d.month + 1, d.year)
  {
    var mid := IntToString(d.month + 1);
    assert Title(d) == TitlePrefix + (IntToString(d.day) + "/" + mid + "/" + IntToString(d.year));
    assert Title(d)[|TitlePrefix|..] == IntToString(d.day) + "/" + mid + "/" + IntToString(d.year);
    NoSeparatorInField(d.month + 1);
    ParseJoined(d.day, mid, d.year);
    ParseIntToString(d.day);
    ParseIntToString(d.month + 1);
    ParseIntToString(d.year);
  }

  /** Appending the digit '1' to a non-negative decimal field multiplies by ten and adds one. */
  lemma AppendOne(m: nat)
    ensures '/' !in IntToString(m) + "1"
    ensures ParseInt(IntToString(m) + "1") == 10 * m + 1
  {
    var s := IntToString(m);
    assert (s + "1")[..|s|] == s;
    DigitsValueOfNatToString(m);
  }

  /** As written, a title for month m (zero-based) shows month 10*m+1: "01" for January, "11" for February. */
  lemma TitleAsWrittenShowsTenfoldMonth(d: Date)
    requires d.month >= 0
    ensures |TitleAsWritten(d)| >= |TitlePrefix|
    ensures DisplayedDate(TitleAsWritten(d)) == Date(d.day, 10 * d.month + 1, d.year)
  {
    var mid := IntToString(d.month) + "1";
    assert TitleAsWritten(d) == TitlePrefix + (IntToString(d.day) + "/" + mid + "/" + IntToString(d.year));
    assert TitleAsWritten(d)[|TitlePrefix|..] == IntToString(d.day) + "/" + mid + "/" + IntToString(d.year);
    AppendOne(d.month);
    ParseJoined(d.day, mid, d.year);
    ParseIntToString(d.day);
    ParseIntToString(d.year);
  }

  /** The as-written title of 1 February 2024 reads as 1 November 2024, which is what the corrected title of 1 November shows. */
  lemma FebruaryTitleReadsAsNovember()
    ensures DisplayedDate(TitleAsWritten(Date(1, 1, 2024))) == Date(1, 11, 2024)
    ensures DisplayedDate(TitleAsWritten(Date(1, 1, 2024))) == DisplayedDate(Title(Date(1, 10, 2024)))
    ensures DisplayedDate(TitleAsWritten(Date(1, 1, 2024))) != DisplayedDate(Title(Date(1, 1, 2024)))
  {
    TitleAsWrittenShowsTenfoldMonth(Date(1, 1, 2024));
    TitleShowsOneBasedMonth(Date(1, 10, 2024));
    TitleShowsOneBasedMonth(Date(1, 1, 2024));
  }

  /** The year 2024 renders as the four digits "2024". */
  lemma YearField()
    ensures IntToString(2024) == "2024"
  {
    assert NatToString(20) == "20";
    assert NatToString(202) == "202";
  }

  /** January is shown with a leading zero: day 1 of January 2024 is titled "Events of 1/01/2024". */
  lemma JanuaryTitleAsWritten()
    ensures TitleAsWritten(Date(1, 0, 2024)) == "Events of 1/01/2024"
    ensures Title(Date(1, 0, 2024)) == "Events of 1/1/2024"
  {
    YearField();
    assert IntToString(1) == "1" && IntToString(0) == "0";
  }
}
