/**
 * Decimal numerals: the part of Python's int(x) on a str that this program
 * relies on, str(n) for a non-negative n, and the zero-padded fields that
 * date.isoformat() writes.
 */
module Numerals {
  import opened Wrappers
  import opened Text

  function Pow10(n: nat): (r: nat)
    ensures r >= 1
  {
    if n == 0 then 1 else 10 * Pow10(n - 1)
  }

  predicate IsDigit(c: char) {
    '0' <= c <= '9'
  }

  predicate AllDigits(s: string) {
    forall i :: 0 <= i < |s| ==> IsDigit(s[i])
  }

  function DigitValue(c: char): (d: nat)
    requires IsDigit(c)
    ensures d < 10
  {
    c as int - '0' as int
  }

  function DigitChar(d: nat): (c: char)
    requires d < 10
    ensures IsDigit(c) && DigitValue(c) == d
  {
    ('0' as int + d) as char
  }

  /** The value of a string of decimal digits, leading zeros allowed; it is
      below 10 to the power of the number of digits. */
  function DigitsValue(s: string): (v: nat)
    requires AllDigits(s)
    ensures v < Pow10(|s|)
  {
    if s == [] then 0
    else
      var v := DigitsValue(s[..|s| - 1]);
      assert v * 10 + 9 < Pow10(|s|);
      v * 10 + DigitValue(s[|s| - 1])
  }

  /** Reading the digits from the front: the first digit weighs 10^(number of digits after it). */
  lemma {:induction false} DigitsValueCons(c: char, t: string)
    requires IsDigit(c) && AllDigits(t)
    ensures AllDigits([c] + t)
    ensures DigitsValue([c] + t) == DigitValue(c) * Pow10(|t|) + DigitsValue(t)
  {
    var s := [c] + t;
    assert AllDigits(s);
    if t == [] {
      assert s[..0] == [];
    } else {
      var t' := t[..|t| - 1];
      var last := DigitValue(t[|t| - 1]);
      assert s[..|s| - 1] == [c] + t';
      assert s[|s| - 1] == t[|t| - 1];
      DigitsValueCons(c, t');
      var p, v, d := Pow10(|t'|), DigitsValue(t'), DigitValue(c);
      assert DigitsValue(s) == (d * p + v) * 10 + last;
      assert DigitsValue(t) == v * 10 + last;
      assert Pow10(|t|) == p * 10;
      ShiftDigit(d, p, v);
    }
  }

  lemma ShiftDigit(d: int, p: int, v: int)
    ensures (d * p + v) * 10 == d * (p * 10) + v * 10
  {
  }

  /** A run of at least one ASCII digit and nothing else. */
  function ParseDigits(t: string): (r: Option<nat>)
    ensures r.Some? <==> t != [] && AllDigits(t)
  {
    if t != [] && AllDigits(t) then Some(DigitsValue(t)) else None
  }

  /** The whitespace int() skips around a numeral: what str.isspace() calls
      whitespace except the separators FS, GS, RS and US (U+001C to U+001F),
      which str.strip() removes but int() does not. */
  predicate IntSpace(c: char) {
    IsSpace(c) && !('\U{1C}' <= c <= '\U{1F}')
  }

  /** int()'s own trimming: drops the IntSpace characters at both ends. */
  function IntStrip(s: string): (r: string)
    ensures |r| <= |s|
    ensures r == [] || (!IntSpace(r[0]) && !IntSpace(r[|r| - 1]))
  {
    if s != [] && IntSpace(s[0]) then IntStrip(s[1..])
    else if s != [] && IntSpace(s[|s| - 1]) then IntStrip(s[..|s| - 1])
    else s
  }

  /** A string that str.strip() leaves alone, int() does not trim either. */
  lemma IntStripTrimmed(t: string)
    requires Trimmed(t)
    ensures IntStrip(t) == t
  {
  }

  predicate AllIntSpace(s: string) {
    forall k :: 0 <= k < |s| ==> IntSpace(s[k])
  }

  /** int() drops exactly the IntSpace characters around a core that neither
      starts nor ends with one. */
  lemma {:induction false} IntStripPadded(a: string, t: string, c: string)
    requires AllIntSpace(a) && AllIntSpace(c)
    requires t == [] || (!IntSpace(t[0]) && !IntSpace(t[|t| - 1]))
    ensures IntStrip(a + t + c) == t
    decreases |a| + |c|
  {
    var s := a + t + c;
    if a != [] {
      assert s[0] == a[0];
      assert s[1..] == a[1..] + t + c;
      IntStripPadded(a[1..], t, c);
    } else if c != [] {
      if t == [] {
        assert s == c && s[1..] == [] + [] + c[1..];
        IntStripPadded([], [], c[1..]);
      } else {
        assert s[0] == t[0] && s[|s| - 1] == c[|c| - 1];
        assert s[..|s| - 1] == [] + t + c[..|c| - 1];
        IntStripPadded([], t, c[..|c| - 1]);
      }
    } else {
      assert s == t;
    }
  }

  /** A last character that int() does not skip survives its trimming. */
  lemma {:induction false} IntStripKeepsLast(s: string)
    requires s != [] && !IntSpace(s[|s| - 1])
    ensures IntStrip(s) != [] && IntStrip(s)[|IntStrip(s)| - 1] == s[|s| - 1]
  {
    if IntSpace(s[0]) {
      assert s[1..][|s| - 2] == s[|s| - 1];
      IntStripKeepsLast(s[1..]);
    }
  }

  /** Python's int(x) for a str x, on decimal numerals: surrounding whitespace
      (IntSpace), then an optional '+' or '-', then one or more ASCII digits. */
  function ParseInt(x: string): (r: Option<int>)
  {
    ParseSigned(IntStrip(x))
  }

  /** The numeral part of int(): an optional '+' or '-', then one or more ASCII digits. */
  function ParseSigned(t: string): (r: Option<int>)
  {
    if t != [] && (t[0] == '+' || t[0] == '-') then
      match ParseDigits(t[1..])
      case None => None
      case Some(v) => Some(if t[0] == '-' then -(v as int) else v as int)
    else
      ParseDigits(t)
  }

  /** A numeral followed by one of FS, GS, RS or US is not read: int() does
      not skip those separators although str.strip() does. */
  lemma IntRefusesSeparator(t: string, c: char)
    requires '\U{1C}' <= c <= '\U{1F}'
    ensures ParseInt(t + [c]) == None
  {
    var s := t + [c];
    IntStripKeepsLast(s);
    var r := IntStrip(s);
    assert r[|r| - 1] == c && !IsDigit(c);
    if r[0] == '+' || r[0] == '-' {
      assert r[1..][|r| - 2] == c;
      assert !AllDigits(r[1..]);
    } else {
      assert !AllDigits(r);
    }
  }

  /** Python's str(n) for a non-negative int: the shortest decimal numeral. */
  function Decimal(n: nat): (s: string)
    ensures |s| >= 1 && AllDigits(s)
    ensures s[0] == '0' ==> s == "0"
  {
    if n < 10 then [DigitChar(n)] else Decimal(n / 10) + [DigitChar(n % 10)]
  }

  /** The field of `width` digits, zero-filled on the left, as "%0*d" writes n. */
  function Pad(n: nat, width: nat): (s: string)
    ensures |s| == width && AllDigits(s)
  {
    if width == 0 then [] else Pad(n / 10, width - 1) + [DigitChar(n % 10)]
  }

  lemma {:induction false} DecimalValue(n: nat)
    ensures DigitsValue(Decimal(n)) == n
  {
    var s := Decimal(n);
    if n < 10 {
      assert s[..0] == [];
    } else {
      assert s[..|s| - 1] == Decimal(n / 10);
      DecimalValue(n / 10);
    }
  }

  lemma {:induction false} PadValue(n: nat, width: nat)
    requires n < Pow10(width)
    ensures DigitsValue(Pad(n, width)) == n
  {
    if width > 0 {
      var s := Pad(n, width);
      var q, d := n / 10, n % 10;
      assert s[..|s| - 1] == Pad(q, width - 1) && s[|s| - 1] == DigitChar(d);
      assert q < Pow10(width - 1);
      PadValue(q, width - 1);
      assert DigitsValue(s) == q * 10 + d;
    }
  }

  lemma DigitNotSpace(c: char)
    requires IsDigit(c)
    ensures !IsSpace(c)
  {
  }

  /** A digit string with no sign reads back as its own value. */
  lemma DigitsParse(s: string)
    requires s != [] && AllDigits(s)
    ensures ParseInt(s) == Some(DigitsValue(s) as int)
  {
    DigitNotSpace(s[0]);
    DigitNotSpace(s[|s| - 1]);
    IntStripTrimmed(s);
    assert s[0] != '+' && s[0] != '-';
  }

  /** int(str(n)) == n. */
  lemma DecimalRoundTrip(n: nat)
    ensures ParseInt(Decimal(n)) == Some(n as int)
  {
    DigitsParse(Decimal(n));
    DecimalValue(n);
  }

  /** int("-" + str(n)) == -n. */
  lemma NegatedDecimalRoundTrip(n: nat)
    ensures ParseInt("-" + Decimal(n)) == Some(-(n as int))
  {
    var s := "-" + Decimal(n);
    assert s[|s| - 1] == Decimal(n)[|Decimal(n)| - 1];
    DigitNotSpace(s[|s| - 1]);
    assert !IsSpace('-');
    IntStripTrimmed(s);
    assert s[1..] == Decimal(n);
    DecimalValue(n);
    assert ParseDigits(s[1..]) == Some(n);
  }

  /** A zero-padded field reads back as the number it was padded from. */
  lemma PadRoundTrip(n: nat, width: nat)
    requires 0 < width && n < Pow10(width)
    ensures ParseInt(Pad(n, width)) == Some(n as int)
  {
    DigitsParse(Pad(n, width));
    PadValue(n, width);
  }

  /** Padded fields of one width are equal exactly when the numbers are. */
  lemma PadInjective(a: nat, b: nat, width: nat)
    requires a < Pow10(width) && b < Pow10(width)
    ensures Pad(a, width) == Pad(b, width) <==> a == b
  {
    PadValue(a, width);
    PadValue(b, width);
  }
}
