/**
 * The weekly records and the upsert that main performs on them: the first
 * record whose date equals the week gets the new country counts, or a new
 * record is appended when there is none; the whole list is then sorted,
 * stably, by the date string, a record without a date sorting as "".
 */
module Weeks {
  import opened Wrappers
  import opened StringOrder

  /** A country-to-count mapping as it is stored in the data file. */
  type Counts = map<string, int>

  /** One object of the stored JSON array. A record read from the file may lack
      either key, so both are optional here. */
  datatype Entry = Entry(date: Option<string>, countries: Option<Counts>)

  /** The record main appends for a week that is not yet stored. */
  function Record(week: string, payload: Counts): Entry {
    Entry(Some(week), Some(payload))
  }

  /** entry.get("date") == week */
  predicate HasDate(e: Entry, week: string) {
    e.date == Some(week)
  }

  /** The sort key x.get("date", ""). */
  function Key(e: Entry): string {
    if e.date.Some? then e.date.value else ""
  }

  /** No record carries the date `week`. */
  predicate NoneDated(s: seq<Entry>, week: string) {
    forall j :: 0 <= j < |s| ==> !HasDate(s[j], week)
  }

  /** `i` is the position of the first record that carries the date `week`. */
  predicate FirstDated(s: seq<Entry>, week: string, i: nat) {
    i < |s| && HasDate(s[i], week) && NoneDated(s[..i], week)
  }

  /** Where main's scan for the week stops. */
  function FirstWithDate(s: seq<Entry>, week: string): (r: Option<nat>)
    ensures r.Some? ==> FirstDated(s, week, r.value)
    ensures r.None? ==> NoneDated(s, week)
  {
    if s == [] then None
    else if HasDate(s[0], week) then
      assert s[..0] == [];
      Some(0)
    else
      match FirstWithDate(s[1..], week)
      case None => None
      case Some(i) =>
        assert s[..i + 1] == [s[0]] + s[1..][..i];
        Some(i + 1)
  }

  /** At most one position can be the first record of a week. */
  lemma FirstDatedUnique(s: seq<Entry>, week: string, i: nat, j: nat)
    requires FirstDated(s, week, i) && FirstDated(s, week, j)
    ensures i == j
  {
  }

  /** The replace-else-append step of main: the first record dated `week`
      becomes the new record and nothing else changes; when there is no such
      record the new record is appended and nothing else changes. */
  function Upserted(s: seq<Entry>, week: string, payload: Counts): (r: seq<Entry>)
    ensures NoneDated(s, week) ==> r == s + [Record(week, payload)]
    ensures forall i: nat :: FirstDated(s, week, i) ==> r == s[i := Record(week, payload)]
  {
    match FirstWithDate(s, week)
    case Some(i) =>
      assert forall j :: FirstDated(s, week, j) ==> j == i by {
        forall j | FirstDated(s, week, j) ensures j == i {
          FirstDatedUnique(s, week, i, j);
        }
      }
      s[i := s[i].(countries := Some(payload))]
    case None =>
      assert forall j: nat :: !FirstDated(s, week, j) by {
        forall j: nat | j < |s| ensures !HasDate(s[j], week) { }
      }
      s + [Record(week, payload)]
  }

  /** Adjacent records are in ascending order of their sort keys. */
  predicate Sorted(s: seq<Entry>) {
    forall i :: 0 < i < |s| ==> LexLe(Key(s[i - 1]), Key(s[i]))
  }

  /** Places `x` before the first record whose key is not smaller than its own. */
  function Insert(x: Entry, s: seq<Entry>): (r: seq<Entry>)
    ensures |r| == |s| + 1
    ensures multiset(r) == multiset(s) + multiset{x}
    ensures r[0] == x || (s != [] && r[0] == s[0])
  {
    if s == [] || LexLe(Key(x), Key(s[0])) then
      [x] + s
    else
      var r := [s[0]] + Insert(x, s[1..]);
      assert s == [s[0]] + s[1..];
      r
  }

  /** data.sort(key=lambda x: x.get("date", "")): a stable sort, given here as
      an insertion sort that puts each record before the later ones with an
      equal key. */
  function SortedByDate(s: seq<Entry>): (r: seq<Entry>)
    ensures |r| == |s|
    ensures multiset(r) == multiset(s)
  {
    if s == [] then []
    else
      assert s == [s[0]] + s[1..];
      Insert(s[0], SortedByDate(s[1..]))
  }

  /** The records whose sort key is `k`, in list order. */
  function WithKey(s: seq<Entry>, k: string): (r: seq<Entry>)
    ensures |r| <= |s|
  {
    if s == [] then []
    else (if Key(s[0]) == k then [s[0]] else []) + WithKey(s[1..], k)
  }

  /** The records dated `week`, in list order. */
  function WithDate(s: seq<Entry>, week: string): (r: seq<Entry>)
    ensures |r| <= |s|
  {
    if s == [] then []
    else (if HasDate(s[0], week) then [s[0]] else []) + WithDate(s[1..], week)
  }

  /** The upsert followed by the sort, as main runs them. */
  function Merge(s: seq<Entry>, week: string, payload: Counts): seq<Entry> {
    SortedByDate(Upserted(s, week, payload))
  }

  // ---- the sort ----

  lemma SortedTail(s: seq<Entry>)
    requires Sorted(s) && s != []
    ensures Sorted(s[1..])
  {
    assert forall i :: 0 < i < |s| - 1 ==> s[1..][i - 1] == s[i] && s[1..][i] == s[i + 1];
  }

  lemma {:induction false} InsertSorted(x: Entry, s: seq<Entry>)
    requires Sorted(s)
    ensures Sorted(Insert(x, s))
  {
    if s != [] && !LexLe(Key(x), Key(s[0])) {
      SortedTail(s);
      InsertSorted(x, s[1..]);
      var t := Insert(x, s[1..]);
      LexLeTotal(Key(x), Key(s[0]));
      if |s| > 1 {
        assert LexLe(Key(s[0]), Key(s[1]));
      }
      assert LexLe(Key(s[0]), Key(t[0]));
      var r := [s[0]] + t;
      assert forall i :: 0 <= i < |t| ==> r[i + 1] == t[i];
    }
  }

  /** After the sort, adjacent records are in ascending key order. */
  lemma {:induction false} SortIsSorted(s: seq<Entry>)
    ensures Sorted(SortedByDate(s))
  {
    if s != [] {
      SortIsSorted(s[1..]);
      InsertSorted(s[0], SortedByDate(s[1..]));
    }
  }

  /** In a sorted list every record's key is at most every later record's key. */
  lemma {:induction false} SortedPairwise(s: seq<Entry>, i: nat, j: nat)
    requires Sorted(s) && i <= j < |s|
    ensures LexLe(Key(s[i]), Key(s[j]))
    decreases j - i
  {
    if i == j {
      LexLeReflexive(Key(s[i]));
    } else {
      SortedPairwise(s, i + 1, j);
      LexLeTransitive(Key(s[i]), Key(s[i + 1]), Key(s[j]));
    }
  }

  lemma WithKeyCons(x: Entry, s: seq<Entry>, k: string)
    ensures WithKey([x] + s, k) == KeyHead(x, k) + WithKey(s, k)
  {
    assert ([x] + s)[1..] == s;
  }

  /** The records of key `k` among `x` followed by `s`. */
  function KeyHead(x: Entry, k: string): seq<Entry> {
    if Key(x) == k then [x] else []
  }

  lemma {:induction false} InsertStable(x: Entry, s: seq<Entry>, k: string)
    requires Sorted(s)
    ensures WithKey(Insert(x, s), k) == WithKey([x] + s, k)
  {
    if s != [] && !LexLe(Key(x), Key(s[0])) {
      var y, rest := s[0], s[1..];
      var t := Insert(x, rest);
      assert Insert(x, s) == [y] + t;
      SortedTail(s);
      InsertStable(x, rest, k);
      LexLeReflexive(Key(x));
      assert KeyHead(x, k) == [] || KeyHead(y, k) == [];
      WithKeyCons(y, t, k);
      WithKeyCons(x, rest, k);
      WithKeyCons(x, s, k);
      WithKeyCons(y, rest, k);
      assert [y] + rest == s;
      HeadsCommute(KeyHead(x, k), KeyHead(y, k), WithKey(rest, k));
    }
  }

  lemma HeadsCommute(a: seq<Entry>, b: seq<Entry>, c: seq<Entry>)
    requires a == [] || b == []
    ensures b + (a + c) == a + (b + c)
  {
  }

  /** The sort is stable: for every key, the records with that key keep
      their relative order. */
  lemma {:induction false} SortIsStable(s: seq<Entry>, k: string)
    ensures WithKey(SortedByDate(s), k) == WithKey(s, k)
  {
    if s != [] {
      SortIsStable(s[1..], k);
      SortIsSorted(s[1..]);
      InsertStable(s[0], SortedByDate(s[1..]), k);
      WithKeyCons(s[0], SortedByDate(s[1..]), k);
      WithKeyCons(s[0], s[1..], k);
      assert [s[0]] + s[1..] == s;
    }
  }

  /** Sorting a list that is already sorted leaves it as it is. */
  lemma {:induction false} SortOfSorted(s: seq<Entry>)
    requires Sorted(s)
    ensures SortedByDate(s) == s
  {
    if s != [] {
      SortedTail(s);
      SortOfSorted(s[1..]);
      if |s| > 1 {
        assert LexLe(Key(s[0]), Key(s[1]));
      }
      assert [s[0]] + s[1..] == s;
    }
  }

  // ---- records of one week ----

  lemma {:induction false} WithDateWithinKey(s: seq<Entry>, week: string)
    ensures WithDate(s, week) == WithDate(WithKey(s, week), week)
  {
    if s != [] {
      WithDateWithinKey(s[1..], week);
      var head := if Key(s[0]) == week then [s[0]] else [];
      var t := WithKey(s[1..], week);
      assert (head + t) == WithKey(s, week);
      if Key(s[0]) == week {
        assert (head + t)[1..] == t;
      } else {
        assert head + t == t;
      }
    }
  }

  /** The sort keeps the records of every week in their relative order. */
  lemma SortKeepsWeekOrder(s: seq<Entry>, week: string)
    ensures WithDate(SortedByDate(s), week) == WithDate(s, week)
  {
    WithDateWithinKey(s, week);
    WithDateWithinKey(SortedByDate(s), week);
    SortIsStable(s, week);
  }

  /** The record main's scan stops at is the first of that week's records. */
  lemma {:induction false} FirstWithDateIsHead(s: seq<Entry>, week: string)
    ensures FirstWithDate(s, week).None? <==> WithDate(s, week) == []
    ensures FirstWithDate(s, week).Some? ==> WithDate(s, week)[0] == s[FirstWithDate(s, week).value]
  {
    if s != [] && !HasDate(s[0], week) {
      FirstWithDateIsHead(s[1..], week);
    }
  }

  lemma FirstDatedIsHead(s: seq<Entry>, week: string, i: nat)
    requires FirstDated(s, week, i)
    ensures WithDate(s, week) != [] && WithDate(s, week)[0] == s[i]
  {
    FirstWithDateIsHead(s, week);
    if FirstWithDate(s, week).Some? {
      FirstDatedUnique(s, week, i, FirstWithDate(s, week).value);
    }
  }

  /** After the upsert, the first record of the week is the new record. */
  lemma UpsertedHead(s: seq<Entry>, week: string, payload: Counts)
    ensures WithDate(Upserted(s, week, payload), week) != []
    ensures WithDate(Upserted(s, week, payload), week)[0] == Record(week, payload)
  {
    var r := Upserted(s, week, payload);
    match FirstWithDate(s, week)
    case Some(i) =>
      assert r[..i] == s[..i];
      FirstDatedIsHead(r, week, i);
    case None =>
      assert r[..|s|] == s;
      FirstDatedIsHead(r, week, |s|);
  }

  /** An upsert whose new record is already the week's first record changes nothing. */
  lemma UpsertedAgain(s: seq<Entry>, week: string, payload: Counts)
    requires WithDate(s, week) != [] && WithDate(s, week)[0] == Record(week, payload)
    ensures Upserted(s, week, payload) == s
  {
    FirstWithDateIsHead(s, week);
  }

  /** After the upsert and the sort: the list is sorted, it holds the records
      the upsert produced, and the week's first record is the new one. */
  lemma MergeResult(s: seq<Entry>, week: string, payload: Counts)
    ensures Sorted(Merge(s, week, payload))
    ensures multiset(Merge(s, week, payload)) == multiset(Upserted(s, week, payload))
    ensures WithDate(Merge(s, week, payload), week) != []
    ensures WithDate(Merge(s, week, payload), week)[0] == Record(week, payload)
  {
    SortIsSorted(Upserted(s, week, payload));
    SortKeepsWeekOrder(Upserted(s, week, payload), week);
    UpsertedHead(s, week, payload);
  }

  /** Running main twice with the same week and counts leaves the data as one run does. */
  lemma MergeIdempotent(s: seq<Entry>, week: string, payload: Counts)
    ensures Merge(Merge(s, week, payload), week, payload) == Merge(s, week, payload)
  {
    var m := Merge(s, week, payload);
    MergeResult(s, week, payload);
    UpsertedAgain(m, week, payload);
    SortOfSorted(m);
  }

  // ---- one record per week ----

  /** Each date is carried by at most one record. */
  ghost predicate OnePerWeek(s: seq<Entry>) {
    forall d :: |WithDate(s, d)| <= 1
  }

  /** Two lists whose records carry the same dates position by position. */
  predicate SameDates(r: seq<Entry>, s: seq<Entry>) {
    |r| == |s| && forall i :: 0 <= i < |s| ==> r[i].date == s[i].date
  }

  lemma {:induction false} SameDatesCount(r: seq<Entry>, s: seq<Entry>, d: string)
    requires SameDates(r, s)
    ensures |WithDate(r, d)| == |WithDate(s, d)|
  {
    if s != [] {
      assert SameDates(r[1..], s[1..]) by {
        assert forall i :: 0 <= i < |s| - 1 ==> r[1..][i] == r[i + 1] && s[1..][i] == s[i + 1];
      }
      SameDatesCount(r[1..], s[1..], d);
    }
  }

  lemma {:induction false} WithDateAppend(s: seq<Entry>, x: Entry, d: string)
    ensures WithDate(s + [x], d) == WithDate(s, d) + (if HasDate(x, d) then [x] else [])
  {
    if s == [] {
      assert [] + [x] == [x];
    } else {
      assert (s + [x])[1..] == s[1..] + [x];
      WithDateAppend(s[1..], x, d);
    }
  }

  /** The upsert keeps at most one record per date, and the week then has one. */
  lemma UpsertedDateCount(s: seq<Entry>, week: string, payload: Counts, d: string)
    requires |WithDate(s, d)| <= 1
    ensures |WithDate(Upserted(s, week, payload), d)| <= 1
    ensures d == week ==> |WithDate(Upserted(s, week, payload), d)| == 1
  {
    var u := Upserted(s, week, payload);
    FirstWithDateIsHead(s, week);
    match FirstWithDate(s, week)
    case Some(i) =>
      assert SameDates(u, s);
      SameDatesCount(u, s, d);
    case None =>
      WithDateAppend(s, Record(week, payload), d);
  }

  /** The upsert and the sort keep at most one record per date, and then
      the week holds exactly the new record. */
  lemma MergeKeepsOnePerWeek(s: seq<Entry>, week: string, payload: Counts)
    requires OnePerWeek(s)
    ensures OnePerWeek(Merge(s, week, payload))
    ensures WithDate(Merge(s, week, payload), week) == [Record(week, payload)]
  {
    var u := Upserted(s, week, payload);
    forall d
      ensures |WithDate(Merge(s, week, payload), d)| <= 1
    {
      SortKeepsWeekOrder(u, d);
      UpsertedDateCount(s, week, payload, d);
    }
    SortKeepsWeekOrder(u, week);
    UpsertedDateCount(s, week, payload, week);
    MergeResult(s, week, payload);
  }

  /**
   * The list main works on. Python updates it in place: `Upsert` mirrors the
   * scan with its `replaced` flag and `break`, `SortByDate` the in-place sort.
   */
  class WeekData {
    var entries: seq<Entry>

    constructor (loaded: seq<Entry>)
      ensures entries == loaded
    {
      entries := loaded;
    }

    method Upsert(week: string, payload: Counts)
      modifies this
      ensures entries == Upserted(old(entries), week, payload)
    {
      var replaced := false;
      var i := 0;
      while i < |entries|
        invariant 0 <= i <= |entries| && entries == old(entries) && !replaced
        invariant NoneDated(entries[..i], week)
      {
        if HasDate(entries[i], week) {
          assert FirstDated(entries, week, i);
          entries := entries[i := entries[i].(countries := Some(payload))];
          replaced := true;
          break;
        }
        assert entries[..i + 1] == entries[..i] + [entries[i]];
        i := i + 1;
      }
      if !replaced {
        assert entries[..i] == entries;
        entries := entries + [Record(week, payload)];
      }
    }

    method SortByDate()
      modifies this
      ensures entries == SortedByDate(old(entries))
      ensures Sorted(entries) && multiset(entries) == multiset(old(entries))
    {
      SortIsSorted(entries);
      entries := SortedByDate(entries);
    }
  }
}
