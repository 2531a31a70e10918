/**
 * main: ask for the week, ask for one count per country, load the stored
 * records, replace or append the week's record, sort, and report the total.
 * Console input is a scripted sequence of lines (the first answers the date
 * prompt, the rest the count prompts), the clock is the `today` parameter,
 * and the data file is what load_data found there.
 */
module Update {
  import opened Wrappers
  import opened Dates
  import opened CountInput
  import opened Weeks

  /** What load_data finds: no file (an empty list, first run), a file that is
      not valid JSON (fatal), or the parsed array of records. */
  datatype DataFile = Missing | Malformed | Parsed(entries: seq<Entry>)

  /** The ways main stops early with a non-zero status. Running out of input
      is where Python's input() would raise EOFError. */
  datatype Failure = DateRejected | InputExhausted | MalformedData

  /** What main writes back and reports. */
  datatype Saved = Saved(week: string, payload: map<string, nat>, entries: seq<Entry>, total: nat)

  /** load_data */
  function Load(stored: DataFile): Result<seq<Entry>, Failure> {
    match stored
    case Missing => Ok([])
    case Malformed => Err(MalformedData)
    case Parsed(entries) => Ok(entries)
  }

  /** The payload as it is stored: the same counts, as JSON integers. */
  function AsCounts(payload: map<string, nat>): (c: Counts)
    ensures c.Keys == payload.Keys
    ensures forall k :: k in payload ==> c[k] == payload[k]
  {
    map k | k in payload :: payload[k] as int
  }

  method AddWeek(input: seq<string>, today: Date, stored: DataFile) returns (r: Result<Saved, Failure>)
    requires IsCalendarDate(today)
    ensures input == [] ==> r == Err(InputExhausted)
    ensures input != [] && AskDate(input[0], today).Err? ==> r == Err(DateRejected)
    ensures input != [] && AskDate(input[0], today).Ok? && Collect(Countries, input[1..], map[]).None? ==>
      r == Err(InputExhausted)
    ensures stored.Malformed? ==> r.Err?
    ensures input != [] && AskDate(input[0], today).Ok? && Collect(Countries, input[1..], map[]).Some? ==>
      (stored.Malformed? ==> r == Err(MalformedData)) && (!stored.Malformed? ==> r.Ok?)
    ensures r.Ok? ==>
      input != [] && AskDate(input[0], today) == Ok(r.value.week) &&
      Collect(Countries, input[1..], map[]).Some? &&
      r.value.payload == Collect(Countries, input[1..], map[]).value.0 &&
      Load(stored).Ok? &&
      r.value.entries == Merge(Load(stored).value, r.value.week, AsCounts(r.value.payload)) &&
      r.value.total == Total(Countries, r.value.payload)
    ensures r.Ok? ==> Sorted(r.value.entries)
    ensures r.Ok? ==> r.value.payload.Keys == set c | c in Countries
  {
    if input == [] {
      return Err(InputExhausted);
    }
    var week;
    match AskDate(input[0], today)
    case Err(_) =>
      return Err(DateRejected);
    case Ok(w) =>
      week := w;
    var payload, rest := CollectCounts(Countries, input[1..]);
    if payload.None? {
      return Err(InputExhausted);
    }
    var loaded;
    match Load(stored)
    case Err(e) =>
      return Err(e);
    case Ok(entries) =>
      loaded := entries;
    var data := new WeekData(loaded);
    data.Upsert(week, AsCounts(payload.value));
    data.SortByDate();
    var total := Total(Countries, payload.value);
    return Ok(Saved(week, payload.value, data.entries, total));
  }
}
