/**
 * Worked examples of the update on concrete answers and stored records.
 */
module Scenarios {
  import opened Wrappers
  import opened Text
  import opened Numerals
  import opened StringOrder
  import opened Dates
  import opened CountInput
  import opened Weeks

  /** The payload of a first run with no data file and the answers 10,
      blank, 5, 0 and 20, in the order of the countries. */
  const FirstPayload: map<string, nat> := map["Germany" := 10, "Spain" := 0, "Italy" := 5, "UK" := 0, "USA" := 20]

  /** The answers 10, blank, 5, 0 and 20 are read as the counts 10, 0, 5, 0 and 20. */
  lemma FirstAnswersRead()
    ensures Classify("10") == Accept(10) && Classify("") == Accept(0)
    ensures Classify("5") == Accept(5) && Classify("0") == Accept(0) && Classify("20") == Accept(20)
  {
    ClassifyDecimal(10);
    assert Decimal(10) == "10";
    ClassifyDecimal(5);
    assert Decimal(5) == "5";
    ClassifyDecimal(0);
    assert Decimal(0) == "0";
    ClassifyDecimal(20);
    assert Decimal(20) == "20";
    ClassifyBlank("");
  }

  /** A negative count is refused. */
  lemma NegativeRefused()
    ensures Classify("-3") == Reject
  {
    ClassifyNegated(3);
    assert Decimal(3) == "3";
  }

  /** "-0" is taken as zero. */
  lemma MinusZeroTaken()
    ensures Classify("-0") == Accept(0)
  {
    ClassifyNegated(0);
    assert Decimal(0) == "0";
  }

  /** A word is refused. */
  lemma WordRefused()
    ensures Classify("ten") == Reject
  {
    assert !IsSpace('t') && !IsSpace('n');
    StripTrimmed("ten");
    ClassifyNonNumeral("ten", 0);
  }

  /** With those counts the reported total is 35. */
  lemma FirstWeekTotal()
    ensures Total(Countries, FirstPayload) == 35
  {
  }

  /** With no data file, the stored list becomes the one record for the week. */
  lemma FirstWeekStored(payload: Counts)
    ensures Merge([], "2024-01-08", payload) == [Record("2024-01-08", payload)]
  {
  }

  /** Entering a stored week again replaces its counts; the other week is
      unchanged and the two stay in date order. */
  lemma SecondRunReplaces(earlier: Counts, later: Counts, payload: Counts)
    ensures Merge([Record("2024-01-08", earlier), Record("2024-01-15", later)], "2024-01-08", payload)
      == [Record("2024-01-08", payload), Record("2024-01-15", later)]
  {
    var u := [Record("2024-01-08", payload), Record("2024-01-15", later)];
    SecondRunUpsert(earlier, later, payload);
    assert LexLe("2024-01-08", "2024-01-15");
    assert Sorted(u);
    SortOfSorted(u);
  }

  lemma SecondRunUpsert(earlier: Counts, later: Counts, payload: Counts)
    ensures Upserted([Record("2024-01-08", earlier), Record("2024-01-15", later)], "2024-01-08", payload)
      == [Record("2024-01-08", payload), Record("2024-01-15", later)]
  {
    var s := [Record("2024-01-08", earlier), Record("2024-01-15", later)];
    assert FirstDated(s, "2024-01-08", 0);
  }

  lemma MonthAndDayValues()
    ensures ParseInt("1") == Some(1) && ParseInt("8") == Some(8)
  {
    DecimalRoundTrip(1);
    assert Decimal(1) == "1";
    DecimalRoundTrip(8);
    assert Decimal(8) == "8";
  }

  /** "2024\x1c-01-08", with the separator FS typed after the year, is
      refused by the date check. */
  lemma SeparatorAfterYearRefused()
    ensures CheckDate("2024" + "\U{1C}" + "-" + "01" + "-" + "08") == Err(InvalidDate)
  {
    CheckDateRefusesSeparator("2024", "01", "08", '\U{1C}');
  }

  /** The whole date prompt refuses that answer: stripping keeps the
      separator, which sits inside the answer. */
  lemma SeparatorAfterYearExits(today: Date)
    requires IsCalendarDate(today)
    ensures AskDate("2024" + "\U{1C}" + "-" + "01" + "-" + "08", today) == Err(InvalidDate)
  {
    var line := "2024" + "\U{1C}" + "-" + "01" + "-" + "08";
    assert line[0] == '2' && line[|line| - 1] == '8';
    StripTrimmed(line);
    SeparatorAfterYearRefused();
  }

  /** A date typed without zero padding, such as "2024-1-8", passes the date
      check and is kept as typed. */
  lemma UnpaddedDateAccepted(y: nat)
    requires MinYear <= y <= MaxYear
    ensures CheckDate(Decimal(y) + "-" + "1" + "-" + "8") == Ok(Decimal(y) + "-" + "1" + "-" + "8")
  {
    var year := Decimal(y);
    DecimalRoundTrip(y);
    MonthAndDayValues();
    assert '-' !in year by {
      assert forall k :: 0 <= k < |year| ==> IsDigit(year[k]);
    }
    assert IsCalendarDate(Date(y, 1, 8));
    CheckDateAccepts(year, "1", "8");
  }

  /** Yet its string sorts after a later padded date: the sort by date string
      is chronological only for dates written in full ISO form. */
  lemma UnpaddedDateSortsLate()
    ensures Precedes(Date(2024, 1, 8), Date(2024, 1, 9))
    ensures LexLe("2024-01-09", "2024-1-8") && !LexLe("2024-1-8", "2024-01-09")
  {
    LexLeAppend("2024-", "01-09", "2024-", "1-8");
    LexLeAppend("2024-", "1-8", "2024-", "01-09");
  }
}
