/**
 * The count prompts: each answer is stripped and classified (blank is 0, a
 * non-negative integer is taken, anything else is refused and the prompt
 * repeats), one count is collected per country into the payload, and the
 * payload's total is reported.
 */
module CountInput {
  import opened Wrappers
  import opened Text
  import opened Numerals

  /** The fixed, ordered country list the program prompts for. */
  const Countries: seq<string> := ["Germany", "Spain", "Italy", "UK", "USA"]

  datatype Reading = Accept(count: nat) | Reject

  /** What ask_int makes of one answer. int() strips its argument again, which
      changes nothing on a stripped value, so the numeral is read from `val` directly. */
  function Classify(line: string): Reading
  {
    var val := Strip(line);
    if val == [] then Accept(0)
    else
      match ParseSigned(val)
      case Some(n) => if n < 0 then Reject else Accept(n)
      case None => Reject
  }

  /** The bridge from Classify to int(): an answer is taken exactly when its
      stripped text `val` is empty or int(val) reads a non-negative value;
      blank is zero, otherwise the count is int(val)'s value. */
  lemma ClassifyMeaning(line: string)
    ensures var val := Strip(line);
      Classify(line).Accept? <==> val == [] || (ParseInt(val).Some? && ParseInt(val).value >= 0)
    ensures var val := Strip(line);
      Classify(line).Accept? && val != [] ==> ParseInt(val) == Some(Classify(line).count as int)
    ensures Classify(line).Accept? && Strip(line) == [] ==> Classify(line).count == 0
  {
    IntStripTrimmed(Strip(line));
  }

  /** A blank answer, whatever whitespace it holds, counts as zero. */
  lemma ClassifyBlank(line: string)
    requires AllSpace(line)
    ensures Classify(line) == Accept(0)
  {
    StripPadded(line, [], []);
    assert line + [] + [] == line;
  }

  /** Every non-negative integer typed in its usual form is taken as is. */
  lemma ClassifyDecimal(n: nat)
    ensures Classify(Decimal(n)) == Accept(n)
  {
    DecimalRoundTrip(n);
    DigitNotSpace(Decimal(n)[0]);
  }

  /** Every negative integer is refused; "-0" is zero and is taken. */
  lemma ClassifyNegated(n: nat)
    ensures Classify("-" + Decimal(n)) == if n == 0 then Accept(0) else Reject
  {
    NegatedDecimalRoundTrip(n);
    assert ("-" + Decimal(n))[0] == '-';
    assert !IsSpace('-');
    assert Strip("-" + Decimal(n)) != [] by {
      StripTrimmed("-" + Decimal(n)) by {
        DigitNotSpace(Decimal(n)[|Decimal(n)| - 1]);
        assert ("-" + Decimal(n))[|Decimal(n)|] == Decimal(n)[|Decimal(n)| - 1];
      }
    }
  }

  /** An answer with a character that is not an ASCII digit, other than a
      leading sign, is refused. */
  lemma ClassifyNonNumeral(line: string, k: nat)
    requires k < |Strip(line)|
    requires !IsDigit(Strip(line)[k])
    requires k > 0 || (Strip(line)[0] != '+' && Strip(line)[0] != '-')
    ensures Classify(line) == Reject
  {
    var t := Strip(line);
    if t[0] == '+' || t[0] == '-' {
      assert t[1..][k - 1] == t[k];
      assert !AllDigits(t[1..]);
    } else {
      assert !AllDigits(t);
    }
    assert ParseSigned(t).None?;
  }

  /** ask_int against a scripted sequence of answers: the count of the first
      answer that is not refused, and the answers after it; None when the
      answers run out first (where the program would stop at end of input). */
  function Ask(input: seq<string>): (r: (Option<nat>, seq<string>))
    ensures |r.1| < |input| || r == (None, [])
    ensures r.1 == input[|input| - |r.1|..]
  {
    if input == [] then (None, [])
    else
      match Classify(input[0])
      case Accept(n) => (Some(n), input[1..])
      case Reject =>
        var r := Ask(input[1..]);
        assert input[1..][|input| - 1 - |r.1|..] == input[|input| - |r.1|..];
        r
  }

  /** The counts of the answers that are taken, in the order they were typed. */
  function Accepted(input: seq<string>): (counts: seq<nat>)
    ensures |counts| <= |input|
  {
    if input == [] then []
    else
      match Classify(input[0])
      case Accept(n) => [n] + Accepted(input[1..])
      case Reject => Accepted(input[1..])
  }

  /** ask_int comes back empty-handed exactly when no answer is taken. */
  lemma {:induction false} AskNone(input: seq<string>)
    ensures Ask(input).0.None? <==> Accepted(input) == []
  {
    if input != [] && Classify(input[0]).Reject? {
      AskNone(input[1..]);
    }
  }

  /** Every one of the answers is refused. */
  predicate AllRefused(lines: seq<string>) {
    lines == [] || (Classify(lines[0]) == Reject && AllRefused(lines[1..]))
  }

  /** When ask_int comes back empty-handed, every answer was refused. */
  lemma {:induction false} AskNoneRefusedAll(input: seq<string>)
    requires Ask(input).0.None?
    ensures AllRefused(input)
  {
    if input != [] {
      AskNoneRefusedAll(input[1..]);
    }
  }

  /** Otherwise the taken answers are the one ask_int returns followed by
      those among the answers it leaves. */
  lemma {:induction false} AskSome(input: seq<string>)
    requires Ask(input).0.Some?
    ensures Accepted(input) == [Ask(input).0.value] + Accepted(Ask(input).1)
  {
    if Classify(input[0]).Reject? {
      AskSome(input[1..]);
    }
  }

  /** ask_int returns the first answer that is taken, having consumed every
      refused answer before it; the answers left are the ones after it. */
  lemma AskSomeFirstTaken(input: seq<string>)
    requires Ask(input).0.Some?
    ensures var used := |input| - |Ask(input).1|;
      0 < used && Ask(input).1 == input[used..] &&
      Classify(input[used - 1]) == Accept(Ask(input).0.value) &&
      AllRefused(input[..used - 1])
  {
    AskSomeTaken(input);
    AskSomeRefusedBefore(input);
  }

  lemma {:induction false} AskSomeTaken(input: seq<string>)
    requires Ask(input).0.Some?
    ensures var used := |input| - |Ask(input).1|;
      0 < used && Classify(input[used - 1]) == Accept(Ask(input).0.value)
  {
    if Classify(input[0]).Reject? {
      var tail := input[1..];
      assert Ask(input) == Ask(tail);
      AskSomeTaken(tail);
      var used := |tail| - |Ask(tail).1|;
      assert input[used] == tail[used - 1];
    }
  }

  lemma {:induction false} AskSomeRefusedBefore(input: seq<string>)
    requires Ask(input).0.Some?
    ensures AllRefused(input[..|input| - |Ask(input).1| - 1])
  {
    if Classify(input[0]).Reject? {
      var tail := input[1..];
      assert Ask(input) == Ask(tail);
      AskSomeRefusedBefore(tail);
      var used := |tail| - |Ask(tail).1|;
      AllRefusedCons(input[0], tail[..used - 1]);
      assert [input[0]] + tail[..used - 1] == input[..used];
    } else {
      assert input[..0] == [];
    }
  }

  lemma AllRefusedCons(line: string, lines: seq<string>)
    requires Classify(line) == Reject && AllRefused(lines)
    ensures AllRefused([line] + lines)
  {
    assert ([line] + lines)[1..] == lines;
  }

  /** The prompt loop of ask_int, reading from a scripted input. */
  method AskInt(input: seq<string>) returns (n: Option<nat>, rest: seq<string>)
    ensures (n, rest) == Ask(input)
  {
    rest := input;
    while rest != []
      invariant Ask(rest) == Ask(input)
    {
      var val := rest[0];
      rest := rest[1..];
      match Classify(val)
      case Accept(count) =>
        return Some(count), rest;
      case Reject =>
    }
    return None, [];
  }

  /** The loop that fills the payload: one ask_int per country, in order,
      starting from the counts already in `acc`. */
  function Collect(countries: seq<string>, input: seq<string>, acc: map<string, nat>): (r: Option<(map<string, nat>, seq<string>)>)
    ensures r.Some? ==> r.value.0.Keys == acc.Keys + set c | c in countries
  {
    if countries == [] then Some((acc, input))
    else
      match Ask(input)
      case (None, _) => None
      case (Some(n), rest) =>
        var r := Collect(countries[1..], rest, acc[countries[0] := n]);
        assert r.Some? ==> r.value.0.Keys == acc.Keys + set c | c in countries by {
          assert forall c :: c in countries <==> c == countries[0] || c in countries[1..];
        }
        r
  }

  predicate Distinct(s: seq<string>) {
    forall i, j :: 0 <= i < j < |s| ==> s[i] != s[j]
  }

  /** The payload is complete exactly when at least one answer per country is taken. */
  lemma {:induction false} CollectDefined(countries: seq<string>, input: seq<string>, acc: map<string, nat>)
    ensures Collect(countries, input, acc).Some? <==> |Accepted(input)| >= |countries|
  {
    if countries != [] {
      AskNone(input);
      var r := Ask(input);
      if r.0.Some? {
        AskSome(input);
        CollectDefined(countries[1..], r.1, acc[countries[0] := r.0.value]);
      }
    }
  }

  /** The i-th country is mapped to the i-th count. */
  predicate InOrder(countries: seq<string>, payload: map<string, nat>, counts: seq<nat>) {
    |countries| <= |counts| &&
    forall i :: 0 <= i < |countries| ==> countries[i] in payload && payload[countries[i]] == counts[i]
  }

  /** The i-th country gets the i-th taken answer. */
  lemma {:induction false} CollectTakesAnswersInOrder(countries: seq<string>, input: seq<string>, acc: map<string, nat>)
    requires Distinct(countries)
    requires Collect(countries, input, acc).Some?
    ensures InOrder(countries, Collect(countries, input, acc).value.0, Accepted(input))
  {
    if countries != [] {
      var r := Ask(input);
      AskSome(input);
      var tail, acc' := countries[1..], acc[countries[0] := r.0.value];
      var p := Collect(countries, input, acc).value.0;
      assert p == Collect(tail, r.1, acc').value.0;
      assert Distinct(tail);
      CollectTakesAnswersInOrder(tail, r.1, acc');
      CollectFirst(countries, input, acc);
      InOrderCons(countries[0], tail, p, r.0.value, Accepted(r.1));
      assert [countries[0]] + tail == countries;
    }
  }

  lemma InOrderCons(c: string, countries: seq<string>, payload: map<string, nat>, n: nat, counts: seq<nat>)
    requires InOrder(countries, payload, counts) && c in payload && payload[c] == n
    ensures InOrder([c] + countries, payload, [n] + counts)
  {
    assert forall i :: 0 < i <= |countries| ==> ([c] + countries)[i] == countries[i - 1] && ([n] + counts)[i] == counts[i - 1];
  }

  /** The first country gets the first taken answer: later countries never overwrite it. */
  lemma CollectFirst(countries: seq<string>, input: seq<string>, acc: map<string, nat>)
    requires Distinct(countries) && countries != []
    requires Collect(countries, input, acc).Some?
    ensures Ask(input).0.Some?
    ensures Collect(countries, input, acc).value.0[countries[0]] == Ask(input).0.value
  {
    var r := Ask(input);
    var tail := countries[1..];
    assert forall j :: 0 <= j < |tail| ==> tail[j] != countries[0] by {
      assert forall j :: 0 <= j < |tail| ==> tail[j] == countries[j + 1];
    }
    CollectKeepsOthers(tail, r.1, acc[countries[0] := r.0.value], countries[0]);
  }

  lemma {:induction false} CollectKeepsOthers(countries: seq<string>, input: seq<string>, acc: map<string, nat>, key: string)
    requires key in acc
    requires forall j :: 0 <= j < |countries| ==> countries[j] != key
    ensures Collect(countries, input, acc).Some? ==> Collect(countries, input, acc).value.0[key] == acc[key]
  {
    if countries != [] {
      match Ask(input)
      case (None, _) =>
      case (Some(n), rest) =>
        CollectKeepsOthers(countries[1..], rest, acc[countries[0] := n], key);
    }
  }

  /** main's payload loop, reading every answer from a scripted input. */
  method CollectCounts(countries: seq<string>, input: seq<string>) returns (payload: Option<map<string, nat>>, rest: seq<string>)
    ensures payload.Some? <==> Collect(countries, input, map[]).Some?
    ensures payload.Some? ==> (payload.value, rest) == Collect(countries, input, map[]).value
  {
    var acc: map<string, nat> := map[];
    rest := input;
    var i := 0;
    while i < |countries|
      invariant 0 <= i <= |countries|
      invariant Collect(countries[i..], rest, acc) == Collect(countries, input, map[])
    {
      var n;
      n, rest := AskInt(rest);
      if n.None? {
        return None, rest;
      }
      acc := acc[countries[i] := n.value];
      assert countries[i..][1..] == countries[i + 1..];
      i := i + 1;
    }
    return Some(acc), rest;
  }

  /** Python's sum(payload.values()), taking the values in the countries' order. */
  function Total(countries: seq<string>, payload: map<string, nat>): (t: nat)
    requires forall c :: c in countries ==> c in payload
    ensures forall i :: 0 <= i < |countries| ==> payload[countries[i]] <= t
    ensures t == 0 <==> forall i :: 0 <= i < |countries| ==> payload[countries[i]] == 0
  {
    if countries == [] then 0
    else
      var t := payload[countries[0]] + Total(countries[1..], payload);
      assert forall i :: 1 <= i < |countries| ==> countries[i] == countries[1..][i - 1];
      t
  }

  function Sum(s: seq<nat>): nat {
    if s == [] then 0 else s[0] + Sum(s[1..])
  }

  /** The reported total is the sum of the first answers taken, one per country. */
  lemma {:induction false} TotalOfCollected(countries: seq<string>, input: seq<string>)
    requires Distinct(countries)
    requires Collect(countries, input, map[]).Some?
    ensures |Accepted(input)| >= |countries|
    ensures Total(countries, Collect(countries, input, map[]).value.0) == Sum(Accepted(input)[..|countries|])
  {
    CollectDefined(countries, input, map[]);
    CollectTakesAnswersInOrder(countries, input, map[]);
    var p := Collect(countries, input, map[]).value.0;
    TotalIsSum(countries, p, Accepted(input)[..|countries|]);
  }

  lemma {:induction false} TotalIsSum(countries: seq<string>, payload: map<string, nat>, values: seq<nat>)
    requires |values| == |countries|
    requires InOrder(countries, payload, values)
    ensures forall c :: c in countries ==> c in payload
    ensures Total(countries, payload) == Sum(values)
  {
    if countries != [] {
      assert InOrder(countries[1..], payload, values[1..]) by {
        assert forall i :: 1 <= i < |countries| ==> countries[i] == countries[1..][i - 1];
      }
      TotalIsSum(countries[1..], payload, values[1..]);
    }
  }
}
