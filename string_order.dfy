/**
 * Python's ordering of str values: lexicographic by code point, a proper
 * prefix coming first. Sorting by a str key uses this order.
 */
module StringOrder {
  import opened Numerals

  /** Python's a <= b on str. */
  predicate LexLe(a: string, b: string) {
    a == [] || (b != [] && (a[0] < b[0] || (a[0] == b[0] && LexLe(a[1..], b[1..]))))
  }

  lemma {:induction false} LexLeReflexive(a: string)
    ensures LexLe(a, a)
  {
    if a != [] {
      LexLeReflexive(a[1..]);
    }
  }

  lemma {:induction false} LexLeTotal(a: string, b: string)
    ensures LexLe(a, b) || LexLe(b, a)
  {
    if a != [] && b != [] && a[0] == b[0] {
      LexLeTotal(a[1..], b[1..]);
    }
  }

  lemma {:induction false} LexLeAntisymmetric(a: string, b: string)
    requires LexLe(a, b) && LexLe(b, a)
    ensures a == b
  {
    if a != [] && b != [] {
      LexLeAntisymmetric(a[1..], b[1..]);
      assert a == [a[0]] + a[1..] && b == [b[0]] + b[1..];
    }
  }

  lemma {:induction false} LexLeTransitive(a: string, b: string, c: string)
    requires LexLe(a, b) && LexLe(b, c)
    ensures LexLe(a, c)
  {
    if a != [] && a[0] == b[0] && b[0] == c[0] {
      LexLeTransitive(a[1..], b[1..], c[1..]);
    }
  }

  /** Comparing two strings that start with pieces of equal length: the
      first pieces decide unless they are equal. */
  lemma {:induction false} LexLeAppend(a: string, b: string, a': string, b': string)
    requires |a| == |a'|
    ensures LexLe(a + b, a' + b') == if a == a' then LexLe(b, b') else LexLe(a, a')
  {
    if a == [] {
      assert a + b == b && a' + b' == b';
    } else {
      assert (a + b)[0] == a[0] && (a' + b')[0] == a'[0];
      assert (a + b)[1..] == a[1..] + b && (a' + b')[1..] == a'[1..] + b';
      LexLeAppend(a[1..], b, a'[1..], b');
      if a[0] == a'[0] {
        assert a == a' <==> a[1..] == a'[1..] by {
          assert a == [a[0]] + a[1..] && a' == [a'[0]] + a'[1..];
        }
      }
    }
  }

  /** A leading digit that is smaller outweighs whatever digits follow it. */
  lemma LeadingDigitDecides(dx: nat, dy: nat, p: nat, vx: nat, vy: nat)
    requires dx < dy && vx < p && vy < p
    ensures dx * p + vx < dy * p + vy
  {
    assert (dx + 1) * p <= dy * p;
  }

  /** On digit strings of one length, the string order is the numeric order. */
  lemma {:induction false} LexLeDigits(x: string, y: string)
    requires AllDigits(x) && AllDigits(y) && |x| == |y|
    ensures LexLe(x, y) <==> DigitsValue(x) <= DigitsValue(y)
  {
    if x != [] {
      var x', y' := x[1..], y[1..];
      var p := Pow10(|x'|);
      assert x == [x[0]] + x' && y == [y[0]] + y';
      DigitsValueCons(x[0], x');
      DigitsValueCons(y[0], y');
      var dx, dy := DigitValue(x[0]), DigitValue(y[0]);
      assert DigitsValue(x) == dx * p + DigitsValue(x');
      assert DigitsValue(y) == dy * p + DigitsValue(y');
      if x[0] < y[0] {
        LeadingDigitDecides(dx, dy, p, DigitsValue(x'), DigitsValue(y'));
      } else if y[0] < x[0] {
        LeadingDigitDecides(dy, dx, p, DigitsValue(y'), DigitsValue(x'));
      } else {
        LexLeDigits(x', y');
      }
    }
  }
}
