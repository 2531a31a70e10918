/**
 * The week-date prompt: splitting the operator's answer on '-', reading three
 * integers and accepting them only if they name a day of the proleptic
 * Gregorian calendar that Python's datetime.date can represent
 * (years 1 to 9999). An accepted answer is returned exactly as typed.
 */
module Dates {
  import opened Wrappers
  import opened Text
  import opened Numerals
  import opened StringOrder

  datatype Date = Date(year: int, month: int, day: int)

  /** datetime.MINYEAR and datetime.MAXYEAR. */
  const MinYear := 1
  const MaxYear := 9999

  predicate IsLeapYear(y: int) {
    y % 4 == 0 && (y % 100 != 0 || y % 400 == 0)
  }

  function DaysInMonth(y: int, m: int): (n: int)
    requires 1 <= m <= 12
    ensures 28 <= n <= 31
    ensures n == 29 <==> m == 2 && IsLeapYear(y)
  {
    if m == 2 then (if IsLeapYear(y) then 29 else 28)
    else if m == 4 || m == 6 || m == 9 || m == 11 then 30
    else 31
  }

  /** The arguments datetime.date(y, m, d) accepts without raising ValueError. */
  predicate IsCalendarDate(d: Date) {
    MinYear <= d.year <= MaxYear && 1 <= d.month <= 12 && 1 <= d.day <= DaysInMonth(d.year, d.month)
  }

  /** `y, m, d = map(int, raw.split("-"))` followed by `date(y, m, d)`:
      the date named by `raw`, or None where any of these steps raises. */
  function ParseDate(raw: string): (r: Option<Date>)
    ensures r.Some? ==> IsCalendarDate(r.value)
    ensures r.Some? ==> |Split(raw, '-')| == 3
  {
    var parts := Split(raw, '-');
    if |parts| != 3 then None
    else
      match (ParseInt(parts[0]), ParseInt(parts[1]), ParseInt(parts[2]))
      case (Some(y), Some(m), Some(d)) =>
        if IsCalendarDate(Date(y, m, d)) then Some(Date(y, m, d)) else None
      case _ => None
  }

  datatype DateError = InvalidDate

  /** The validation step of the date prompt: the answer itself, unchanged and
      not re-padded, when it names a real date; the failure that ends the
      program otherwise. */
  function CheckDate(raw: string): (r: Result<string, DateError>)
    ensures r.Ok? ==> r.value == raw
    ensures r.Ok? <==> ParseDate(raw).Some?
  {
    if ParseDate(raw).Some? then Ok(raw) else Err(InvalidDate)
  }

  /** Any three dash-free pieces that the modelled int() (ParseInt) reads as
      a calendar date pass the check once joined with '-', whatever their
      padding, and the answer is kept as typed. */
  lemma CheckDateAccepts(p0: string, p1: string, p2: string)
    requires '-' !in p0 && '-' !in p1 && '-' !in p2
    requires ParseInt(p0).Some? && ParseInt(p1).Some? && ParseInt(p2).Some?
    requires IsCalendarDate(Date(ParseInt(p0).value, ParseInt(p1).value, ParseInt(p2).value))
    ensures CheckDate(p0 + "-" + p1 + "-" + p2) == Ok(p0 + "-" + p1 + "-" + p2)
    ensures ParseDate(p0 + "-" + p1 + "-" + p2) == Some(Date(ParseInt(p0).value, ParseInt(p1).value, ParseInt(p2).value))
  {
    SplitJoin([p0, p1, p2], '-');
    JoinThree(p0, p1, p2, '-');
  }

  /** Conversely, an answer the check accepts is three dash-free pieces joined
      with '-' that int() reads as a calendar date. */
  lemma CheckDateAcceptedForm(raw: string)
    requires CheckDate(raw).Ok?
    ensures var p := Split(raw, '-');
      |p| == 3 && raw == p[0] + "-" + p[1] + "-" + p[2] &&
      ParseInt(p[0]).Some? && ParseInt(p[1]).Some? && ParseInt(p[2]).Some? &&
      IsCalendarDate(Date(ParseInt(p[0]).value, ParseInt(p[1]).value, ParseInt(p[2]).value))
  {
    var p := Split(raw, '-');
    JoinSplit(raw, '-');
    assert p == [p[0], p[1], p[2]];
    JoinThree(p[0], p[1], p[2], '-');
  }

  /** A date field that ends in FS, GS, RS or US fails the check: str.strip()
      leaves the character inside the answer and int() does not skip it. */
  lemma CheckDateRefusesSeparator(p0: string, p1: string, p2: string, c: char)
    requires '-' !in p0 && '-' !in p1 && '-' !in p2
    requires '\U{1C}' <= c <= '\U{1F}'
    ensures CheckDate(p0 + [c] + "-" + p1 + "-" + p2) == Err(InvalidDate)
  {
    var q := p0 + [c];
    assert '-' !in q;
    SplitJoin([q, p1, p2], '-');
    JoinThree(q, p1, p2, '-');
    IntRefusesSeparator(p0, c);
  }

  /** Python's date.isoformat(): "YYYY-MM-DD" with every field zero-filled. */
  function IsoFormat(d: Date): (s: string)
    requires IsCalendarDate(d)
    ensures |s| == 10
  {
    Pad(d.year, 4) + "-" + Pad(d.month, 2) + "-" + Pad(d.day, 2)
  }

  /** The whole date prompt: a blank answer (after stripping) means today,
      given here as a parameter instead of a clock read; anything else must
      pass CheckDate. */
  function AskDate(line: string, today: Date): (r: Result<string, DateError>)
    requires IsCalendarDate(today)
  {
    var raw := Strip(line);
    if raw == [] then Ok(IsoFormat(today)) else CheckDate(raw)
  }

  /** Chronological order of dates: by year, then month, then day. */
  predicate Precedes(a: Date, b: Date) {
    a.year < b.year || (a.year == b.year && (a.month < b.month || (a.month == b.month && a.day <= b.day)))
  }

  lemma IsoFields(d: Date)
    requires IsCalendarDate(d)
    ensures Split(IsoFormat(d), '-') == [Pad(d.year, 4), Pad(d.month, 2), Pad(d.day, 2)]
  {
    var parts := [Pad(d.year, 4), Pad(d.month, 2), Pad(d.day, 2)];
    forall i | 0 <= i < 3
      ensures '-' !in parts[i]
    {
      assert forall k :: 0 <= k < |parts[i]| ==> parts[i][k] != '-';
    }
    SplitJoin(parts, '-');
    assert parts[1..][1..] == [parts[2]];
    assert Join(parts[1..], '-') == parts[1] + "-" + parts[2];
    assert Join(parts, '-') == parts[0] + "-" + (parts[1] + "-" + parts[2]);
    assert parts[0] + "-" + (parts[1] + "-" + parts[2]) == IsoFormat(d);
  }

  /** Every date written in ISO form passes the check and reads back as itself. */
  lemma {:induction false} IsoRoundTrip(d: Date)
    requires IsCalendarDate(d)
    ensures ParseDate(IsoFormat(d)) == Some(d)
    ensures CheckDate(IsoFormat(d)) == Ok(IsoFormat(d))
  {
    IsoFields(d);
    PadRoundTrip(d.year, 4);
    PadRoundTrip(d.month, 2);
    PadRoundTrip(d.day, 2);
  }

  /** Whatever the date prompt returns, the validation accepts it. */
  lemma AskDateValid(line: string, today: Date)
    requires IsCalendarDate(today)
    ensures AskDate(line, today).Ok? ==> CheckDate(AskDate(line, today).value) == AskDate(line, today)
  {
    if Strip(line) == [] {
      IsoRoundTrip(today);
    }
  }

  /** A blank answer, whatever whitespace it holds, selects today's date. */
  lemma AskDateBlank(line: string, today: Date)
    requires IsCalendarDate(today) && AllSpace(line)
    ensures AskDate(line, today) == Ok(IsoFormat(today))
  {
    StripPadded(line, [], []);
    assert line + [] + [] == line;
  }

  /** A non-blank answer is either rejected or returned stripped and otherwise as typed. */
  lemma AskDateTyped(a: string, raw: string, c: string, today: Date)
    requires IsCalendarDate(today) && AllSpace(a) && AllSpace(c) && Trimmed(raw) && raw != []
    ensures AskDate(a + raw + c, today) == CheckDate(raw)
  {
    StripPadded(a, raw, c);
  }

  lemma PadLe(a: nat, b: nat, width: nat)
    requires a < Pow10(width) && b < Pow10(width)
    ensures LexLe(Pad(a, width), Pad(b, width)) <==> a <= b
  {
    LexLeDigits(Pad(a, width), Pad(b, width));
    PadValue(a, width);
    PadValue(b, width);
  }

  /** Comparing two padded fields followed by the rest of each string. */
  lemma FieldThenRest(a: nat, b: nat, width: nat, ra: string, rb: string)
    requires a < Pow10(width) && b < Pow10(width)
    ensures LexLe(Pad(a, width) + ra, Pad(b, width) + rb) <==> a < b || (a == b && LexLe(ra, rb))
  {
    LexLeAppend(Pad(a, width), ra, Pad(b, width), rb);
    PadInjective(a, b, width);
    PadLe(a, b, width);
  }

  lemma DashThenRest(ra: string, rb: string)
    ensures LexLe("-" + ra, "-" + rb) <==> LexLe(ra, rb)
  {
    LexLeAppend("-", ra, "-", rb);
  }

  /** For dates in ISO form, Python's string comparison is chronological order,
      which is why sorting the records by their date strings sorts them by date. */
  lemma IsoOrder(a: Date, b: Date)
    requires IsCalendarDate(a) && IsCalendarDate(b)
    ensures LexLe(IsoFormat(a), IsoFormat(b)) <==> Precedes(a, b)
  {
    var ya, ma, da := Pad(a.year, 4), Pad(a.month, 2), Pad(a.day, 2);
    var yb, mb, db := Pad(b.year, 4), Pad(b.month, 2), Pad(b.day, 2);
    assert IsoFormat(a) == ya + ("-" + (ma + ("-" + da)));
    assert IsoFormat(b) == yb + ("-" + (mb + ("-" + db)));
    FieldThenRest(a.day, b.day, 2, [], []);
    assert da + [] == da && db + [] == db;
    DashThenRest(da, db);
    FieldThenRest(a.month, b.month, 2, "-" + da, "-" + db);
    DashThenRest(ma + ("-" + da), mb + ("-" + db));
    FieldThenRest(a.year, b.year, 4, "-" + (ma + ("-" + da)), "-" + (mb + ("-" + db)));
    LexLeReflexive([]);
  }
}
